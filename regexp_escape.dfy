/**
 * escapeRegExp (utils/filterBannedWords.ts): `text.replace(/[.*+?^${}()|[\]\\]/g, '\\$&')`
 * puts a backslash in front of every regular-expression syntax character, so that a key
 * such as '18+' becomes a pattern that matches the key itself and nothing else.
 */
module RegExpEscape {
  import opened Wrappers

  /** The characters the escaping class `[.*+?^${}()|[\]\\]` lists. */
  predicate IsSyntaxChar(c: char) {
    || c == '.' || c == '*' || c == '+' || c == '?' || c == '^' || c == '$'
    || c == '{' || c == '}' || c == '(' || c == ')' || c == '|' || c == '[' || c == ']'
    || c == '\\'
  }

  /** How many syntax characters a text contains. */
  function SyntaxCount(text: string): nat {
    if text == [] then 0 else (if IsSyntaxChar(text[0]) then 1 else 0) + SyntaxCount(text[1..])
  }

  /** Every syntax character gets a backslash in front of it; everything else is kept. */
  function EscapeRegExp(text: string): (r: string)
    ensures |r| == |text| + SyntaxCount(text)
  {
    if text == [] then []
    else (if IsSyntaxChar(text[0]) then ['\\', text[0]] else [text[0]]) + EscapeRegExp(text[1..])
  }

  /** The literal text a pattern stands for, when it is made only of ordinary characters
      and backslash-escaped syntax characters; None when it holds an unescaped syntax
      character or any other escape (which would mean something else to the engine). */
  function LiteralOf(pattern: string): Option<string> {
    if pattern == [] then Some([])
    else if pattern[0] == '\\' then
      if |pattern| >= 2 && IsSyntaxChar(pattern[1]) then
        match LiteralOf(pattern[2..])
        case Some(rest) => Some([pattern[1]] + rest)
        case None => None
      else None
    else if IsSyntaxChar(pattern[0]) then None
    else
      match LiteralOf(pattern[1..])
      case Some(rest) => Some([pattern[0]] + rest)
      case None => None
  }

  /** The escaped key is a pattern for exactly the key: dropping the inserted backslashes
      gives back the input. */
  lemma {:induction false} EscapeIsLiteral(text: string)
    ensures LiteralOf(EscapeRegExp(text)) == Some(text)
  {
    if text != [] {
      EscapeIsLiteral(text[1..]);
      var head := if IsSyntaxChar(text[0]) then ['\\', text[0]] else [text[0]];
      var p := head + EscapeRegExp(text[1..]);
      assert EscapeRegExp(text) == p;
      if IsSyntaxChar(text[0]) {
        assert p[2..] == EscapeRegExp(text[1..]);
      } else {
        assert p[1..] == EscapeRegExp(text[1..]);
      }
      assert text == [text[0]] + text[1..];
    }
  }

  /** Conversely, the escape of a text is the only literal pattern for it. */
  lemma {:induction false} LiteralIsEscape(pattern: string, text: string)
    requires LiteralOf(pattern) == Some(text)
    ensures pattern == EscapeRegExp(text)
    decreases |pattern|
  {
    if pattern != [] {
      if pattern[0] == '\\' {
        var rest := LiteralOf(pattern[2..]).value;
        LiteralIsEscape(pattern[2..], rest);
        assert text == [pattern[1]] + rest;
        assert text[1..] == rest;
        assert pattern == [pattern[0], pattern[1]] + pattern[2..];
      } else {
        var rest := LiteralOf(pattern[1..]).value;
        LiteralIsEscape(pattern[1..], rest);
        assert text == [pattern[0]] + rest;
        assert text[1..] == rest;
        assert pattern == [pattern[0]] + pattern[1..];
      }
    }
  }

  /** A text without syntax characters is its own pattern. */
  lemma {:induction false} EscapeKeepsPlainText(text: string)
    requires forall i :: 0 <= i < |text| ==> !IsSyntaxChar(text[i])
    ensures EscapeRegExp(text) == text
  {
    if text != [] {
      EscapeKeepsPlainText(text[1..]);
      assert text == [text[0]] + text[1..];
    }
  }

  /** The one key of the table that holds a syntax character. */
  lemma EscapeEighteenPlus()
    ensures EscapeRegExp("18+") == "18\\+"
    ensures LiteralOf("18\\+") == Some("18+")
  {
    assert "18+"[1..] == "8+" && "8+"[1..] == "+" && "+"[1..] == [];
    EscapeIsLiteral("18+");
  }
}
