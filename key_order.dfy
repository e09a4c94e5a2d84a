/**
 * The order in which filterText visits the keys:
 * `Object.keys(BANNED_WORD_MAP).sort((a, b) => b.length - a.length)`.
 * `Array.prototype.sort` is stable, so this is the keys by non-increasing length, keys of
 * equal length keeping their declaration order. The built-in sort is modelled by an
 * insertion sort that has exactly these properties.
 */
module KeyOrder {

  /** Non-increasing length along the sequence. */
  predicate SortedByLength(ks: seq<string>) {
    forall i, j :: 0 <= i < j < |ks| ==> |ks[i]| >= |ks[j]|
  }

  /** The keys of length n, in the order they appear. */
  function WithLength(ks: seq<string>, n: nat): seq<string> {
    if ks == [] then []
    else (if |ks[0]| == n then [ks[0]] else []) + WithLength(ks[1..], n)
  }

  lemma {:induction false} WithLengthAppend(a: seq<string>, b: seq<string>, n: nat)
    ensures WithLength(a + b, n) == WithLength(a, n) + WithLength(b, n)
  {
    if a != [] {
      WithLengthAppend(a[1..], b, n);
      assert (a + b)[1..] == a[1..] + b;
    } else {
      assert a + b == b;
    }
  }

  /** Only keys shorter than n: none of length n. */
  lemma {:induction false} WithLengthOfShorter(ks: seq<string>, n: nat)
    requires forall i :: 0 <= i < |ks| ==> |ks[i]| < n
    ensures WithLength(ks, n) == []
  {
    if ks != [] {
      WithLengthOfShorter(ks[1..], n);
    }
  }

  /** Insert k after every key at least as long as k. */
  function InsertByLength(k: string, sorted: seq<string>): seq<string> {
    if sorted == [] then [k]
    else if |sorted[0]| >= |k| then [sorted[0]] + InsertByLength(k, sorted[1..])
    else [k] + sorted
  }

  lemma {:induction false} InsertPermutes(k: string, sorted: seq<string>)
    ensures multiset(InsertByLength(k, sorted)) == multiset(sorted) + multiset{k}
  {
    if sorted != [] && |sorted[0]| >= |k| {
      InsertPermutes(k, sorted[1..]);
      assert sorted == [sorted[0]] + sorted[1..];
    }
  }

  lemma {:induction false} InsertKeepsSorted(k: string, sorted: seq<string>)
    requires SortedByLength(sorted)
    ensures SortedByLength(InsertByLength(k, sorted))
  {
    if sorted != [] && |sorted[0]| >= |k| {
      var rest := InsertByLength(k, sorted[1..]);
      InsertKeepsSorted(k, sorted[1..]);
      InsertPermutes(k, sorted[1..]);
      forall x | x in rest ensures |x| <= |sorted[0]| {
        assert x in multiset(rest);
        assert x == k || x in sorted[1..];
      }
      PrependKeepsSorted(sorted[0], rest);
    }
  }

  lemma PrependKeepsSorted(x: string, rest: seq<string>)
    requires SortedByLength(rest)
    requires forall y | y in rest :: |y| <= |x|
    ensures SortedByLength([x] + rest)
  {
    var r := [x] + rest;
    forall i, j | 0 <= i < j < |r| ensures |r[i]| >= |r[j]| {
      if i > 0 {
        assert r[i] == rest[i - 1] && r[j] == rest[j - 1];
      } else {
        assert r[j] in rest;
      }
    }
  }

  /** k lands after every earlier key of its own length. */
  lemma {:induction false} InsertIsStable(k: string, sorted: seq<string>, n: nat)
    requires SortedByLength(sorted)
    ensures WithLength(InsertByLength(k, sorted), n) ==
              WithLength(sorted, n) + (if |k| == n then [k] else [])
  {
    var r := InsertByLength(k, sorted);
    if sorted == [] {
      assert [k][1..] == [];
    } else if |sorted[0]| >= |k| {
      InsertIsStable(k, sorted[1..], n);
      assert r[1..] == InsertByLength(k, sorted[1..]);
    } else {
      assert r[1..] == sorted;
      if |k| == n {
        WithLengthOfShorter(sorted, n);
      }
    }
  }

  /** The stable sort by descending length. */
  function SortByLength(ks: seq<string>): (r: seq<string>)
    ensures SortedByLength(r)
    ensures multiset(r) == multiset(ks)
    ensures forall n: nat {:trigger WithLength(r, n)} :: WithLength(r, n) == WithLength(ks, n)
  {
    if ks == [] then []
    else
      var init := ks[..|ks| - 1];
      var last := ks[|ks| - 1];
      assert ks == init + [last];
      var sortedInit := SortByLength(init);
      var r := InsertByLength(last, sortedInit);
      InsertKeepsSorted(last, sortedInit);
      InsertPermutes(last, sortedInit);
      forall n: nat ensures WithLength(r, n) == WithLength(ks, n) {
        InsertIsStable(last, sortedInit, n);
        WithLengthAppend(init, [last], n);
        assert [last][1..] == [];
      }
      r
  }

  /** The two properties pin the order down: a sequence sorted by length whose keys of
      each length come in the same order as in another such sequence is that sequence. */
  lemma {:induction false} StableOrderIsUnique(a: seq<string>, b: seq<string>)
    requires SortedByLength(a) && SortedByLength(b)
    requires forall n: nat :: WithLength(a, n) == WithLength(b, n)
    ensures a == b
    decreases |a| + |b|
  {
    if a != [] && b != [] {
      var la, lb := |a[0]|, |b[0]|;
      WithLengthHead(a);
      WithLengthHead(b);
      if la < lb {
        WithLengthOfShorter(a, lb);
        assert false;
      } else if lb < la {
        WithLengthOfShorter(b, la);
        assert false;
      }
      assert a[0] == b[0];
      forall n: nat ensures WithLength(a[1..], n) == WithLength(b[1..], n) {
        var head := if la == n then [a[0]] else [];
        assert WithLength(a, n) == head + WithLength(a[1..], n);
        assert WithLength(b, n) == head + WithLength(b[1..], n);
        assert WithLength(a[1..], n) == WithLength(a, n)[|head|..];
        assert WithLength(b[1..], n) == WithLength(b, n)[|head|..];
      }
      StableOrderIsUnique(a[1..], b[1..]);
      assert a == [a[0]] + a[1..] && b == [b[0]] + b[1..];
    } else if a != [] {
      WithLengthHead(a);
      assert false;
    } else if b != [] {
      WithLengthHead(b);
      assert false;
    }
  }

  /** In a sorted sequence nothing is longer than the first key, which starts the keys of
      its own length. */
  lemma WithLengthHead(a: seq<string>)
    requires SortedByLength(a) && a != []
    ensures forall i :: 0 <= i < |a| ==> |a[i]| <= |a[0]|
    ensures WithLength(a, |a[0]|) == [a[0]] + WithLength(a[1..], |a[0]|)
  {
  }
}
