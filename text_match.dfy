/**
 * One pass of `text.replace(new RegExp("\\b" + escaped + "\\b", "gi"), replacement)`
 * as filterText performs it, modelled directly on characters: a case-insensitive,
 * left-to-right, non-overlapping scan for a literal key whose two edges must satisfy an
 * edge rule.
 *
 * Two edge rules are modelled. `JsWordBoundary` is the code as written: JavaScript's `\b`
 * without the `u` flag, a change between an ASCII word character `[A-Za-z0-9_]` and
 * anything else (a Vietnamese letter such as 'đ' or 'á' counts as "anything else").
 * `LetterIsolation` is what the code evidently intends: the occurrence is neither
 * preceded nor followed by a letter or digit.
 */
module TextMatch {

  /** JavaScript's word characters for `\b` when the `u` flag is absent. */
  predicate IsWordChar(c: char) {
    ('a' <= c <= 'z') || ('A' <= c <= 'Z') || ('0' <= c <= '9') || c == '_'
  }

  /** Letters and digits of the Latin script as Vietnamese text uses them: the ASCII word
      characters, the Latin-1 letters, Latin Extended-A and -B, the combining diacritics
      and Latin Extended Additional (where the tone-marked vowels live). */
  predicate IsLetterOrDigit(c: char) {
    || IsWordChar(c)
    || ('À' <= c <= 'ɏ' && c != '×' && c != '÷')
    || ('̀' <= c <= 'ͯ')
    || ('Ḁ' <= c <= 'ỿ')
  }

  /** The case fold used by the `i` flag: ASCII and the Vietnamese capitals map to their
      lower-case letter, every other character to itself. */
  function Fold(c: char): (d: char)
    ensures IsWordChar(d) == IsWordChar(c)
    ensures IsLetterOrDigit(d) == IsLetterOrDigit(c)
  {
    if 'A' <= c <= 'Z' then (c as int + 32) as char
    else if 'À' <= c <= 'Þ' && c != '×' then (c as int + 32) as char
    else if c == 'Ă' || c == 'Đ' || c == 'Ĩ' || c == 'Ũ' || c == 'Ơ'
    then (c as int + 1) as char
    else if c == 'Ư' then 'ư'
    else if 'Ạ' <= c <= 'Ỹ' && (c as int) % 2 == 0 then (c as int + 1) as char
    else c
  }

  /** Two strings are equal up to case, character by character. */
  predicate SameIgnoringCase(a: string, b: string) {
    |a| == |b| && (|a| == 0 || (Fold(a[0]) == Fold(b[0]) && SameIgnoringCase(a[1..], b[1..])))
  }

  lemma {:induction false} SameIgnoringCaseIff(a: string, b: string)
    ensures SameIgnoringCase(a, b) <==>
              |a| == |b| && forall j :: 0 <= j < |a| ==> Fold(a[j]) == Fold(b[j])
  {
    if |a| == |b| && |a| > 0 {
      SameIgnoringCaseIff(a[1..], b[1..]);
      assert forall j :: 1 <= j < |a| ==> a[1..][j - 1] == a[j] && b[1..][j - 1] == b[j];
    }
  }

  datatype EdgeRule = JsWordBoundary | LetterIsolation

  predicate WordBefore(s: string, i: nat)
    requires i <= |s|
  {
    0 < i && IsWordChar(s[i - 1])
  }

  predicate WordAt(s: string, i: nat)
    requires i <= |s|
  {
    i < |s| && IsWordChar(s[i])
  }

  /** JavaScript's `\b` at position i of s. */
  predicate IsBoundary(s: string, i: nat)
    requires i <= |s|
  {
    WordBefore(s, i) != WordAt(s, i)
  }

  predicate LetterBefore(s: string, i: nat)
    requires i <= |s|
  {
    0 < i && IsLetterOrDigit(s[i - 1])
  }

  predicate LetterAt(s: string, i: nat)
    requires i <= |s|
  {
    i < |s| && IsLetterOrDigit(s[i])
  }

  /** May the span s[i..e] be replaced, as far as its edges are concerned? */
  predicate EdgesOk(rule: EdgeRule, s: string, i: nat, e: nat)
    requires i <= e <= |s|
  {
    match rule
    case JsWordBoundary => IsBoundary(s, i) && IsBoundary(s, e)
    case LetterIsolation => i < e && !LetterBefore(s, i) && !LetterAt(s, e)
  }

  /** The key occurs at position i of s, ignoring case. */
  predicate OccursAt(s: string, key: string, i: nat)
    requires i <= |s|
  {
    i + |key| <= |s| && SameIgnoringCase(s[i..i + |key|], key)
  }

  /** The pattern `\b key \b` (rule JsWordBoundary) matches at position i of s. */
  predicate MatchAt(rule: EdgeRule, s: string, key: string, i: nat)
    requires i <= |s|
  {
    OccursAt(s, key, i) && EdgesOk(rule, s, i, i + |key|)
  }

  /** The positions 0..|s| of s at which the pattern matches, as the engine would find
      them when it tries each position. */
  function Hits(rule: EdgeRule, s: string, key: string): (h: seq<bool>)
    ensures |h| == |s| + 1
    ensures forall j :: 0 <= j <= |s| ==> h[j] == MatchAt(rule, s, key, j)
  {
    seq(|s| + 1, j requires 0 <= j <= |s| => MatchAt(rule, s, key, j))
  }

  /** Hits of a key of the given width never run past the end of the text. */
  predicate FitsIn(hits: seq<bool>, width: nat, n: nat) {
    |hits| == n + 1 && forall j :: 0 <= j <= n && hits[j] ==> j + width <= n
  }

  /** The output of the global replace scan over s[i..], given where the pattern matches:
      at a match the replacement is emitted literally and the scan resumes after the match
      (one character further, after copying it, when the match is empty); elsewhere one
      character is copied. */
  function Scan(hits: seq<bool>, width: nat, repl: string, s: string, i: nat): string
    requires FitsIn(hits, width, |s|) && i <= |s|
    decreases |s| - i
  {
    if hits[i] then
      if width == 0 then
        repl + (if i < |s| then [s[i]] + Scan(hits, width, repl, s, i + 1) else [])
      else
        repl + Scan(hits, width, repl, s, i + width)
    else if i == |s| then []
    else [s[i]] + Scan(hits, width, repl, s, i + 1)
  }

  /** `s.replace(/\bkey\b/gi, repl)` for a replacement without `$` patterns. */
  function ReplaceAll(rule: EdgeRule, key: string, repl: string, s: string): string {
    Scan(Hits(rule, s, key), |key|, repl, s, 0)
  }

  /** Between i and p nothing matches: that stretch is copied unchanged. */
  lemma {:induction false} ScanCopies(hits: seq<bool>, width: nat, repl: string, s: string, i: nat, p: nat)
    requires FitsIn(hits, width, |s|) && i <= p <= |s|
    requires forall j :: i <= j < p ==> !hits[j]
    ensures Scan(hits, width, repl, s, i) == s[i..p] + Scan(hits, width, repl, s, p)
    decreases p - i
  {
    if i < p {
      ScanCopies(hits, width, repl, s, i + 1, p);
      assert s[i..p] == [s[i]] + s[i + 1..p];
    } else {
      assert s[i..p] == [];
    }
  }

  /** No match anywhere: the text is returned unchanged. */
  lemma ReplaceAllNoMatch(rule: EdgeRule, key: string, repl: string, s: string)
    requires forall j :: 0 <= j <= |s| ==> !MatchAt(rule, s, key, j)
    ensures ReplaceAll(rule, key, repl, s) == s
  {
    var hits := Hits(rule, s, key);
    ScanCopies(hits, |key|, repl, s, 0, |s|);
    assert !hits[|s|];
    assert s[0..|s|] == s;
  }

  /** One step of the scan at a match. */
  lemma ScanHit(hits: seq<bool>, width: nat, repl: string, s: string, p: nat)
    requires FitsIn(hits, width, |s|) && p <= |s| && hits[p]
    ensures Scan(hits, width, repl, s, p) == repl + ScanResume(hits, width, repl, s, p)
  {
  }

  /** Where the scan resumes after a match at p. */
  function ScanResume(hits: seq<bool>, width: nat, repl: string, s: string, p: nat): string
    requires FitsIn(hits, width, |s|) && p <= |s|
  {
    if width == 0 then
      (if p < |s| then [s[p]] + Scan(hits, 0, repl, s, p + 1) else [])
    else if p + width <= |s| then Scan(hits, width, repl, s, p + width)
    else []
  }

  function Resume(rule: EdgeRule, key: string, repl: string, s: string, p: nat): string
    requires p <= |s|
  {
    ScanResume(Hits(rule, s, key), |key|, repl, s, p)
  }

  /** Leftmost-first: if p is the first match at or after i, the text before p is copied
      unchanged, the match becomes the replacement exactly as written, and the scan
      resumes after the match. */
  lemma ReplaceFromLeftmost(rule: EdgeRule, key: string, repl: string, s: string, i: nat, p: nat)
    requires i <= p <= |s|
    requires MatchAt(rule, s, key, p)
    requires forall j :: i <= j < p ==> !MatchAt(rule, s, key, j)
    ensures Scan(Hits(rule, s, key), |key|, repl, s, i) == s[i..p] + repl + Resume(rule, key, repl, s, p)
  {
    var hits := Hits(rule, s, key);
    assert forall j :: i <= j < p ==> !hits[j];
    ScanCopies(hits, |key|, repl, s, i, p);
    ScanHit(hits, |key|, repl, s, p);
    var rest := ScanResume(hits, |key|, repl, s, p);
    assert s[i..p] + (repl + rest) == s[i..p] + repl + rest;
  }

  /** A match at the first position puts the replacement first. */
  lemma ReplaceAllAtStart(rule: EdgeRule, key: string, repl: string, s: string)
    requires MatchAt(rule, s, key, 0)
    ensures ReplaceAll(rule, key, repl, s) == repl + Resume(rule, key, repl, s, 0)
  {
    ReplaceFromLeftmost(rule, key, repl, s, 0, 0);
  }

  /** Whenever the pattern matches somewhere, the output is the text before the leftmost
      match, then the replacement, then the scan resumed after that match. */
  lemma ReplaceAllFirstMatch(rule: EdgeRule, key: string, repl: string, s: string, j: nat)
    requires j <= |s| && MatchAt(rule, s, key, j)
    ensures exists p :: 0 <= p <= j && MatchAt(rule, s, key, p)
              && (forall k :: 0 <= k < p ==> !MatchAt(rule, s, key, k))
              && ReplaceAll(rule, key, repl, s) == s[..p] + repl + Resume(rule, key, repl, s, p)
  {
    var p := 0;
    while !MatchAt(rule, s, key, p)
      invariant p <= j
      invariant forall k :: 0 <= k < p ==> !MatchAt(rule, s, key, k)
      decreases j - p
    {
      p := p + 1;
    }
    ReplaceFromLeftmost(rule, key, repl, s, 0, p);
    assert s[0..p] == s[..p];
  }

  /** With a key whose first and last characters are ASCII word characters, `\b` matches
      exactly the occurrences that are not glued to a word character on either side. */
  lemma WordEdgedMatch(s: string, key: string, i: nat)
    requires i <= |s|
    requires |key| > 0 && IsWordChar(key[0]) && IsWordChar(key[|key| - 1])
    ensures MatchAt(JsWordBoundary, s, key, i) <==>
              OccursAt(s, key, i) && !WordBefore(s, i) && !WordAt(s, i + |key|)
  {
    if OccursAt(s, key, i) {
      var e := i + |key|;
      SameIgnoringCaseIff(s[i..e], key);
      assert s[i..e][0] == s[i] && s[i..e][|key| - 1] == s[e - 1];
      assert Fold(s[i]) == Fold(key[0]);
      assert Fold(s[e - 1]) == Fold(key[|key| - 1]);
    }
  }

  /** Word-boundary respect: an occurrence of a word-edged key that continues into a longer
      ASCII word (for instance 'hot' at the start of "hotel") is never a match. */
  lemma InsideWordNotMatched(s: string, key: string, i: nat)
    requires i <= |s|
    requires |key| > 0 && IsWordChar(key[0]) && IsWordChar(key[|key| - 1])
    requires WordBefore(s, i) || (i + |key| <= |s| && WordAt(s, i + |key|))
    ensures !MatchAt(JsWordBoundary, s, key, i)
  {
    if OccursAt(s, key, i) {
      WordEdgedMatch(s, key, i);
    }
  }

  /** As written, a key whose last character is not an ASCII word character (such as
      '18+' or 'giảm giá') can only match where an ASCII word character follows it, and a
      key whose first character is not one (such as 'đặt hàng') only where one precedes
      it. */
  lemma NonWordEdgeNeedsWordNeighbour(s: string, key: string, i: nat)
    requires i <= |s|
    requires |key| > 0
    requires MatchAt(JsWordBoundary, s, key, i)
    ensures !IsWordChar(key[|key| - 1]) ==> WordAt(s, i + |key|)
    ensures !IsWordChar(key[0]) ==> WordBefore(s, i)
  {
    var e := i + |key|;
    SameIgnoringCaseIff(s[i..e], key);
    assert s[i..e][0] == s[i] && s[i..e][|key| - 1] == s[e - 1];
    assert Fold(s[i]) == Fold(key[0]);
    assert Fold(s[e - 1]) == Fold(key[|key| - 1]);
  }

  /** A key standing alone as the whole text, as written: it is replaced exactly when its
      first and last characters are both ASCII word characters. */
  lemma StandaloneKeyAsWritten(key: string, repl: string)
    requires |key| > 0
    ensures ReplaceAll(JsWordBoundary, key, repl, key) ==
              if IsWordChar(key[0]) && IsWordChar(key[|key| - 1]) then repl else key
  {
    SameIgnoringCaseIff(key, key);
    assert key[0..|key|] == key;
    if IsWordChar(key[0]) && IsWordChar(key[|key| - 1]) {
      assert MatchAt(JsWordBoundary, key, key, 0);
      ReplaceAllAtStart(JsWordBoundary, key, repl, key);
      assert Scan(Hits(JsWordBoundary, key, key), |key|, repl, key, |key|) == [];
    } else {
      forall j | 0 <= j <= |key| ensures !MatchAt(JsWordBoundary, key, key, j) {
        if j == 0 && MatchAt(JsWordBoundary, key, key, j) {
          NonWordEdgeNeedsWordNeighbour(key, key, 0);
        }
      }
      ReplaceAllNoMatch(JsWordBoundary, key, repl, key);
    }
  }

  /** The same under the corrected rule: a key standing alone is always replaced. */
  lemma StandaloneKeyCorrected(key: string, repl: string)
    requires |key| > 0
    ensures ReplaceAll(LetterIsolation, key, repl, key) == repl
  {
    SameIgnoringCaseIff(key, key);
    assert key[0..|key|] == key;
    assert MatchAt(LetterIsolation, key, key, 0);
    ReplaceAllAtStart(LetterIsolation, key, repl, key);
    assert Scan(Hits(LetterIsolation, key, key), |key|, repl, key, |key|) == [];
  }

  /** Case-insensitivity: two texts that differ only in case have their matches at the
      same positions, under either rule. */
  lemma MatchIgnoresCase(rule: EdgeRule, s: string, t: string, key: string, i: nat)
    requires |s| == |t| && i <= |s|
    requires forall j :: 0 <= j < |s| ==> Fold(s[j]) == Fold(t[j])
    ensures MatchAt(rule, s, key, i) == MatchAt(rule, t, key, i)
  {
    var e := i + |key|;
    if e <= |s| {
      SameIgnoringCaseIff(s[i..e], key);
      SameIgnoringCaseIff(t[i..e], key);
      assert forall j :: 0 <= j < |key| ==> s[i..e][j] == s[i + j] && t[i..e][j] == t[i + j];
    }
    forall j | 0 <= j < |s| ensures IsWordChar(s[j]) == IsWordChar(t[j])
      && IsLetterOrDigit(s[j]) == IsLetterOrDigit(t[j])
    {
      assert Fold(s[j]) == Fold(t[j]);
    }
  }

  /** The empty text has no match under either rule, so it is returned as it is. */
  lemma EmptyTextNoMatch(rule: EdgeRule, key: string, repl: string)
    ensures forall j :: 0 <= j <= 0 ==> !MatchAt(rule, "", key, j)
    ensures ReplaceAll(rule, key, repl, "") == ""
  {
  }
}
