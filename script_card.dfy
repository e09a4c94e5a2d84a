/**
 * components/ScriptCard.tsx without its rendering: the plain-text form of a script that
 * the copy button puts on the clipboard (formatScriptForCopy), and the choice of header
 * colour `colors[index % colors.length]`.
 */
module ScriptCard {
  import opened Wrappers
  import opened Types
  import FilterBannedWords
  import TextMatch

  /** The three header gradients, in order. */
  const Colors: seq<string> := [
    "from-purple-500 to-indigo-500",
    "from-sky-500 to-cyan-500",
    "from-emerald-500 to-teal-500"
  ]

  /** JavaScript's integer quotient: the division truncated toward zero. */
  function JsQuotient(a: int, n: int): int
    requires n != 0
  {
    var m := if n > 0 then n else -n;
    var q := if a >= 0 then a / m else -((-a) / m);
    if n > 0 then q else -q
  }

  /** JavaScript's `%`: the remainder of the division truncated toward zero. The dividend
      is the truncated quotient times the divisor plus the remainder, which is smaller
      than the divisor in size and takes the dividend's sign. */
  function JsRemainder(a: int, n: int): (r: int)
    requires n != 0
    ensures a == JsQuotient(a, n) * n + r
    ensures -(if n > 0 then n else -n) < r < (if n > 0 then n else -n)
    ensures a >= 0 ==> r >= 0
    ensures a <= 0 ==> r <= 0
  {
    var m := if n > 0 then n else -n;
    var b := if a >= 0 then a else -a;
    var q, r := b / m, b % m;
    EuclideanSplit(b, m);
    SignedProduct(a >= 0, n > 0, q, m);
    if a >= 0 then r else -r
  }

  /** Dafny's division of a natural number by a positive one. */
  lemma EuclideanSplit(b: int, m: int)
    requires b >= 0 && m > 0
    ensures b == (b / m) * m + b % m && 0 <= b % m < m
  {
  }

  /** Moving signs out of a product. */
  lemma SignedProduct(pos: bool, posDivisor: bool, q: int, m: int)
    ensures var q' := if pos then q else -q;
      (if posDivisor then q' else -q') * (if posDivisor then m else -m)
        == if pos then q * m else -(q * m)
  {
    if !pos {
      assert (-q) * m == -(q * m);
      assert q * -m == -(q * m);
    }
    assert (-q) * -m == q * m;
  }

  /** `colors[index % colors.length]`: undefined (None) for an index outside the array. */
  function HeaderColor(index: int): Option<string> {
    var k := JsRemainder(index, |Colors|);
    if 0 <= k < |Colors| then Some(Colors[k]) else None
  }

  /** A card index is never negative, so the pick always finds a colour, and the colours
      repeat every three cards. A negative index finds one only when it is a multiple of
      three (JavaScript's -0 picks the first colour). */
  lemma HeaderColorDefined(index: int)
    ensures HeaderColor(index).Some? <==> (index >= 0 || index % 3 == 0)
    ensures index >= 0 ==> HeaderColor(index) == Some(Colors[index % 3])
    ensures index >= 0 ==> HeaderColor(index + 3) == HeaderColor(index)
  {
    if index < 0 {
      var k := JsRemainder(index, 3);
      assert k == -((-index) % 3);
      assert (-index) % 3 == 0 <==> index % 3 == 0;
    }
  }

  /** `String(n)` for a natural number: its decimal digits, without leading zeros. */
  function Decimal(n: nat): string
    decreases n
  {
    if n < 10 then [DigitChar(n)] else Decimal(n / 10) + [DigitChar(n % 10)]
  }

  function DigitChar(d: nat): char
    requires d < 10
  {
    ('0' as int + d) as char
  }

  predicate IsDigit(c: char) {
    '0' <= c <= '9'
  }

  /** The number a string of decimal digits stands for. */
  function DecimalValue(s: string): nat
    requires forall i :: 0 <= i < |s| ==> IsDigit(s[i])
  {
    if s == [] then 0
    else
      assert IsDigit(s[|s| - 1]);
      DecimalValue(s[..|s| - 1]) * 10 + (s[|s| - 1] as int - '0' as int)
  }

  /** Decimal gives digits only, no leading zero, and reading them back gives n. */
  lemma {:induction false} DecimalRoundTrip(n: nat)
    ensures forall i :: 0 <= i < |Decimal(n)| ==> IsDigit(Decimal(n)[i])
    ensures |Decimal(n)| > 0 && (Decimal(n)[0] == '0' ==> n == 0)
    ensures DecimalValue(Decimal(n)) == n
    decreases n
  {
    var s := Decimal(n);
    if n >= 10 {
      DecimalRoundTrip(n / 10);
      var init := Decimal(n / 10);
      assert s == init + [DigitChar(n % 10)];
      assert s[..|s| - 1] == init;
      assert s[0] == init[0];
    }
  }

  /** The three lines one scene contributes, for its 0-based position i. */
  function NumberLine(i: nat): string {
    "Cảnh " + Decimal(i + 1) + ":\n"
  }

  function VisualLine(scene: ScriptScene): string {
    "- Hình ảnh: " + scene.visual + "\n"
  }

  function VoiceoverLine(scene: ScriptScene): string {
    "- Lời thoại: " + scene.voiceover + "\n\n"
  }

  function SceneBlock(i: nat, scene: ScriptScene): string {
    NumberLine(i) + VisualLine(scene) + VoiceoverLine(scene)
  }

  /** The concatenation of a list of strings, in order. */
  function Join(parts: seq<string>): string
    decreases |parts|
  {
    if parts == [] then [] else parts[0] + Join(parts[1..])
  }

  /** The blocks of the scenes, each numbered with its position plus one. */
  function SceneBlocks(scenes: seq<ScriptScene>): seq<string> {
    seq(|scenes|, j requires 0 <= j < |scenes| => SceneBlock(j, scenes[j]))
  }

  function ScenesText(scenes: seq<ScriptScene>): string {
    Join(SceneBlocks(scenes))
  }

  /** Everything before the scene blocks. */
  function Opening(script: Script): string {
    "**" + script.title + "**\n\n"
    + "**Mở đầu (Hook):**\n" + script.hook + "\n\n"
    + "**Các cảnh:**\n"
  }

  /** Everything after the scene blocks; no newline after the call to action. */
  function Closing(script: Script): string {
    "**Kêu gọi hành động (CTA):**\n" + script.cta
  }

  /** The text formatScriptForCopy returns. */
  function CopyText(script: Script): string {
    Opening(script) + ScenesText(script.scenes) + Closing(script)
  }

  lemma Assoc(a: string, b: string, c: string)
    ensures a + (b + c) == (a + b) + c
  {
  }

  /** Three appends to t add the concatenation of the three pieces. */
  lemma AppendThree(t: string, a: string, b: string, c: string)
    ensures t + a + b + c == t + (a + b + c)
  {
    Assoc(t, a, b);
    Assoc(t + a + b, c, []);
    assert t + (a + b + c) == (t + (a + b)) + c;
  }

  /** A joined list splits at any element: the parts before it, the element, and the
      parts after it. */
  lemma {:induction false} JoinSplit(parts: seq<string>, i: nat)
    requires i < |parts|
    ensures Join(parts) == Join(parts[..i]) + parts[i] + Join(parts[i + 1..])
    decreases i
  {
    if i == 0 {
      assert parts[..0] == [];
    } else {
      var tail := parts[1..];
      JoinSplit(tail, i - 1);
      assert tail[..i - 1] == parts[1..i] && tail[i - 1] == parts[i] && tail[i..] == parts[i + 1..];
      assert parts[..i][0] == parts[0] && parts[..i][1..] == parts[1..i];
      var a, b, c, d := parts[0], Join(parts[1..i]), parts[i], Join(parts[i + 1..]);
      Assoc(a, b + c, d);
      Assoc(a, b, c);
    }
  }

  /** Joining one more part appends it. */
  lemma JoinSnoc(parts: seq<string>, i: nat)
    requires i < |parts|
    ensures Join(parts[..i + 1]) == Join(parts[..i]) + parts[i]
  {
    var prefix := parts[..i + 1];
    JoinSplit(prefix, i);
    assert prefix[..i] == parts[..i] && prefix[i] == parts[i] && prefix[i + 1..] == [];
  }

  /** The blocks of a prefix of the scenes are a prefix of the blocks. */
  lemma SceneBlocksPrefix(scenes: seq<ScriptScene>, i: nat)
    requires i <= |scenes|
    ensures SceneBlocks(scenes[..i]) == SceneBlocks(scenes)[..i]
    ensures ScenesText(scenes[..i]) == Join(SceneBlocks(scenes)[..i])
  {
  }

  /** formatScriptForCopy: the heading, title and hook, one block per scene in order,
      then the call to action. */
  method FormatScriptForCopy(script: Script) returns (text: string)
    ensures text == Opening(script) + ScenesText(script.scenes) + Closing(script)
  {
    text := "**" + script.title + "**\n\n";
    text := text + "**Mở đầu (Hook):**\n" + script.hook + "\n\n";
    text := text + "**Các cảnh:**\n";
    ghost var blocks := SceneBlocks(script.scenes);
    for i := 0 to |script.scenes|
      invariant text == Opening(script) + Join(blocks[..i])
    {
      var scene := script.scenes[i];
      ghost var before := text;
      text := text + "Cảnh " + Decimal(i + 1) + ":\n";
      AppendThree(before, "Cảnh ", Decimal(i + 1), ":\n");
      ghost var numbered := text;
      text := text + "- Hình ảnh: " + scene.visual + "\n";
      AppendThree(numbered, "- Hình ảnh: ", scene.visual, "\n");
      ghost var pictured := text;
      text := text + "- Lời thoại: " + scene.voiceover + "\n\n";
      AppendThree(pictured, "- Lời thoại: ", scene.voiceover, "\n\n");
      AppendThree(before, NumberLine(i), VisualLine(scene), VoiceoverLine(scene));
      JoinSnoc(blocks, i);
      Assoc(Opening(script), Join(blocks[..i]), blocks[i]);
    }
    assert blocks[..|script.scenes|] == blocks;
    text := text + "**Kêu gọi hành động (CTA):**\n" + script.cta;
  }

  /** Whatever the number of scenes, the copied text begins with the bolded title and
      the hook section and ends with the call-to-action section. */
  lemma CopyTextFrame(script: Script)
    ensures |Opening(script)| + |Closing(script)| <= |CopyText(script)|
    ensures CopyText(script)[..|Opening(script)|] == Opening(script)
    ensures CopyText(script)[|CopyText(script)| - |Closing(script)|..] == Closing(script)
  {
  }

  /** Scene i's block, numbered i + 1, sits in the copied text right after the opening and
      the blocks of the scenes before it. */
  lemma CopyTextLayout(script: Script, i: nat)
    requires i < |script.scenes|
    ensures var at := |Opening(script)| + |ScenesText(script.scenes[..i])|;
      at + |SceneBlock(i, script.scenes[i])| <= |CopyText(script)|
    ensures var at := |Opening(script)| + |ScenesText(script.scenes[..i])|;
      CopyText(script)[at..at + |SceneBlock(i, script.scenes[i])|] == SceneBlock(i, script.scenes[i])
  {
    var blocks := SceneBlocks(script.scenes);
    SceneBlocksPrefix(script.scenes, i);
    assert CopyText(script) == Opening(script) + Join(blocks) + Closing(script);
    assert blocks[i] == SceneBlock(i, script.scenes[i]);
    JoinLayout(Opening(script), blocks, Closing(script), i);
  }

  /** The same layout for any list of parts between an opening and a closing. */
  lemma JoinLayout(o: string, parts: seq<string>, c: string, i: nat)
    requires i < |parts|
    ensures var text := o + Join(parts) + c;
      var at := |o| + |Join(parts[..i])|;
      && text[..|o|] == o
      && text[|text| - |c|..] == c
      && at + |parts[i]| <= |text|
      && text[at..at + |parts[i]|] == parts[i]
  {
    var text := o + Join(parts) + c;
    var before, part, after := Join(parts[..i]), parts[i], Join(parts[i + 1..]);
    JoinSplit(parts, i);
    assert text == o + (before + part + after) + c;
    Assoc(o, before + part, after);
    Assoc(o, before, part);
    Pieces(text, o, before, part, after, c);
  }

  /** Where the pieces of a five-part concatenation sit. */
  lemma Pieces(text: string, a: string, b: string, c: string, d: string, e: string)
    requires text == a + b + c + d + e
    ensures text[..|a|] == a
    ensures text[|text| - |e|..] == e
    ensures text[|a| + |b|..|a| + |b| + |c|] == c
  {
    assert text == a + (b + c + d) + e;
    assert text == (a + b) + c + (d + e);
  }

  /** Only the title, hook, scenes and call to action are copied: `id`, `saved`,
      `hashtags` and `postContent` leave no trace, and the length is the sum of the parts. */
  lemma CopyTextIgnoresOtherFields(a: Script, b: Script)
    requires a.title == b.title && a.hook == b.hook && a.scenes == b.scenes && a.cta == b.cta
    ensures CopyText(a) == CopyText(b)
    ensures |CopyText(a)| == |Opening(a)| + |ScenesText(a.scenes)| + |Closing(a)|
  {
  }

  /** What the application copies when the filter is on: the layout of CopyTextLayout,
      whose opening and closing hold the filtered title, hook and call to action, and whose
      scene blocks hold the filtered scene texts. */
  lemma CopyOfFilteredScript(rule: TextMatch.EdgeRule, table: FilterBannedWords.TermTable, script: Script)
    ensures var f := FilterBannedWords.FilterScript(rule, table, script);
      && Opening(f) == "**" + FilterBannedWords.FilteredText(rule, table, script.title) + "**\n\n"
           + "**Mở đầu (Hook):**\n" + FilterBannedWords.FilteredText(rule, table, script.hook) + "\n\n"
           + "**Các cảnh:**\n"
      && Closing(f) == "**Kêu gọi hành động (CTA):**\n" + FilterBannedWords.FilteredText(rule, table, script.cta)
      && |f.scenes| == |script.scenes|
      && forall i :: 0 <= i < |f.scenes| ==>
           f.scenes[i] == ScriptScene(FilterBannedWords.FilteredText(rule, table, script.scenes[i].visual),
                                      FilterBannedWords.FilteredText(rule, table, script.scenes[i].voiceover))
  {
  }
}
