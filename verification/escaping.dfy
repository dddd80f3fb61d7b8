/**
 * `escapeHtml`: five global replacements applied one after the other, `&`
 * first. The module shows that the chain acts as a single per-character
 * substitution, that its output holds none of `< > " '`, and that the markup
 * decodes back to exactly the stored (trimmed) title or content it was made from.
 */
module Escaping {

  import opened JsString

  /** The five-step replacement chain as written, `&` first. */
  function EscapeHtml(unsafe: string): string
  {
    ReplaceAll(ReplaceAll(ReplaceAll(ReplaceAll(ReplaceAll(
      unsafe, '&', "&amp;"), '<', "&lt;"), '>', "&gt;"), '"', "&quot;"), '\'', "&#039;")
  }

  /** The entity that stands for one character, or the character itself. */
  function EscapeChar(c: char): string
  {
    match c
    case '&' => "&amp;"
    case '<' => "&lt;"
    case '>' => "&gt;"
    case '"' => "&quot;"
    case '\'' => "&#039;"
    case _ => [c]
  }

  /** Per-character substitution: each character replaced by its entity, in order. */
  function EscapeEach(s: string): (r: string)
    ensures '<' !in r && '>' !in r && '"' !in r && '\'' !in r
    ensures |r| >= |s|
  {
    if s == [] then [] else EscapeChar(s[0]) + EscapeEach(s[1..])
  }

  /** The characters the chain rewrites. */
  predicate IsSpecial(c: char)
  {
    c == '&' || c == '<' || c == '>' || c == '"' || c == '\''
  }

  /** The chain distributes over concatenation, because each of its steps does. */
  lemma EscapeHtmlAppend(a: string, b: string)
    ensures EscapeHtml(a + b) == EscapeHtml(a) + EscapeHtml(b)
  {
    var a1, b1 := ReplaceAll(a, '&', "&amp;"), ReplaceAll(b, '&', "&amp;");
    ReplaceAllAppend(a, b, '&', "&amp;");
    var a2, b2 := ReplaceAll(a1, '<', "&lt;"), ReplaceAll(b1, '<', "&lt;");
    ReplaceAllAppend(a1, b1, '<', "&lt;");
    var a3, b3 := ReplaceAll(a2, '>', "&gt;"), ReplaceAll(b2, '>', "&gt;");
    ReplaceAllAppend(a2, b2, '>', "&gt;");
    var a4, b4 := ReplaceAll(a3, '"', "&quot;"), ReplaceAll(b3, '"', "&quot;");
    ReplaceAllAppend(a3, b3, '"', "&quot;");
    ReplaceAllAppend(a4, b4, '\'', "&#039;");
  }

  /** On one character the chain yields that character's entity: no entity is rewritten by a later step. */
  lemma EscapeHtmlChar(c: char)
    ensures EscapeHtml([c]) == EscapeChar(c)
  {
    var s1 := ReplaceAll([c], '&', "&amp;");
    ReplaceAllSingle(c, '&', "&amp;");
    if c == '&' {
      AfterAmp(s1);
    } else {
      ReplaceAllSingle(c, '<', "&lt;");
      var s2 := ReplaceAll(s1, '<', "&lt;");
      if c == '<' {
        AfterLt(s2);
      } else {
        ReplaceAllSingle(c, '>', "&gt;");
        var s3 := ReplaceAll(s2, '>', "&gt;");
        if c == '>' {
          AfterGt(s3);
        } else {
          ReplaceAllSingle(c, '"', "&quot;");
          var s4 := ReplaceAll(s3, '"', "&quot;");
          if c == '"' {
            ReplaceAllAbsent(s4, '\'', "&#039;");
          } else {
            ReplaceAllSingle(c, '\'', "&#039;");
          }
        }
      }
    }
  }

  /** The steps after the first leave alone text without the characters they replace. */
  lemma AfterAmp(w: string)
    requires '<' !in w && '>' !in w && '"' !in w && '\'' !in w
    ensures ReplaceAll(ReplaceAll(ReplaceAll(ReplaceAll(w, '<', "&lt;"), '>', "&gt;"), '"', "&quot;"), '\'', "&#039;") == w
  {
    ReplaceAllAbsent(w, '<', "&lt;");
    AfterLt(w);
  }

  lemma AfterLt(w: string)
    requires '>' !in w && '"' !in w && '\'' !in w
    ensures ReplaceAll(ReplaceAll(ReplaceAll(w, '>', "&gt;"), '"', "&quot;"), '\'', "&#039;") == w
  {
    ReplaceAllAbsent(w, '>', "&gt;");
    AfterGt(w);
  }

  lemma AfterGt(w: string)
    requires '"' !in w && '\'' !in w
    ensures ReplaceAll(ReplaceAll(w, '"', "&quot;"), '\'', "&#039;") == w
  {
    ReplaceAllAbsent(w, '"', "&quot;");
    ReplaceAllAbsent(w, '\'', "&#039;");
  }

  /**
   * Because `&` is replaced first, the chain equals the per-character
   * substitution: no `&` introduced by a later entity is escaped again.
   */
  lemma {:induction false} EscapeHtmlIsPerCharacter(s: string)
    ensures EscapeHtml(s) == EscapeEach(s)
  {
    if s != [] {
      assert s == [s[0]] + s[1..];
      EscapeHtmlAppend([s[0]], s[1..]);
      EscapeHtmlChar(s[0]);
      EscapeHtmlIsPerCharacter(s[1..]);
    }
  }

  /** The escaped text holds no `<`, `>`, `"` or `'`, so it cannot open a tag or close an attribute. */
  lemma EscapeHtmlIsSafe(s: string)
    ensures '<' !in EscapeHtml(s) && '>' !in EscapeHtml(s)
    ensures '"' !in EscapeHtml(s) && '\'' !in EscapeHtml(s)
  {
    EscapeHtmlIsPerCharacter(s);
  }

  /** Text without special characters is displayed as it is. */
  lemma {:induction false} EscapeHtmlKeepsPlainText(s: string)
    requires forall i | 0 <= i < |s| :: !IsSpecial(s[i])
    ensures EscapeHtml(s) == s
  {
    EscapeHtmlIsPerCharacter(s);
    EscapeEachKeepsPlainText(s);
  }

  lemma {:induction false} EscapeEachKeepsPlainText(s: string)
    requires forall i | 0 <= i < |s| :: !IsSpecial(s[i])
    ensures EscapeEach(s) == s
  {
    if s != [] {
      EscapeEachKeepsPlainText(s[1..]);
    }
  }

  /** How a browser reads the five entities back when it displays the markup. */
  function Unescape(t: string): string
    decreases |t|
  {
    if t == [] then []
    else if StartsWith(t, "&amp;") then "&" + Unescape(t[5..])
    else if StartsWith(t, "&lt;") then "<" + Unescape(t[4..])
    else if StartsWith(t, "&gt;") then ">" + Unescape(t[4..])
    else if StartsWith(t, "&quot;") then "\"" + Unescape(t[6..])
    else if StartsWith(t, "&#039;") then "'" + Unescape(t[6..])
    else [t[0]] + Unescape(t[1..])
  }

  /** Decoding an entity followed by more markup yields its character, then the rest. */
  lemma UnescapeEntity(c: char, rest: string)
    ensures Unescape(EscapeChar(c) + rest) == [c] + Unescape(rest)
  {
    var e := EscapeChar(c);
    var t := e + rest;
    assert t[|e|..] == rest;
    assert t[..|e|] == e;
    if c == '&' {
      assert StartsWith(t, "&amp;");
    } else if c == '<' {
      assert t[1] == 'l' && "&amp;"[1] == 'a';
      assert StartsWith(t, "&lt;");
    } else if c == '>' {
      assert t[1] == 'g' && "&amp;"[1] == 'a' && "&lt;"[1] == 'l';
      assert StartsWith(t, "&gt;");
    } else if c == '"' {
      assert t[1] == 'q' && "&amp;"[1] == 'a' && "&lt;"[1] == 'l' && "&gt;"[1] == 'g';
      assert StartsWith(t, "&quot;");
    } else if c == '\'' {
      assert t[1] == '#' && "&amp;"[1] == 'a' && "&lt;"[1] == 'l' && "&gt;"[1] == 'g' && "&quot;"[1] == 'q';
      assert StartsWith(t, "&#039;");
    } else {
      assert t[0] == c && t[1..] == rest;
    }
  }

  /** The stored title or content is shown exactly as stored: decoding undoes escaping. */
  lemma {:induction false} UnescapeEscapeHtml(s: string)
    ensures Unescape(EscapeHtml(s)) == s
  {
    EscapeHtmlIsPerCharacter(s);
    UnescapeEscapeEach(s);
  }

  lemma {:induction false} UnescapeEscapeEach(s: string)
    ensures Unescape(EscapeEach(s)) == s
  {
    if s != [] {
      UnescapeEntity(s[0], EscapeEach(s[1..]));
      UnescapeEscapeEach(s[1..]);
      assert s == [s[0]] + s[1..];
    }
  }

  /** Two different texts never escape to the same markup. */
  lemma EscapeHtmlInjective(a: string, b: string)
    requires EscapeHtml(a) == EscapeHtml(b)
    ensures a == b
  {
    UnescapeEscapeHtml(a);
    UnescapeEscapeHtml(b);
  }
}
