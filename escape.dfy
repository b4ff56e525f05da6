/**
 * `escapeHtml` and `escapeAttr` (assets/js/navigator.js, lines 127-137):
 * chained single-character `replaceAll` passes. Beside the chain the module
 * gives an independent per-character definition and a decoder for the five
 * entities, and proves that the chain agrees with the first and is inverted
 * by the second.
 */
module Escape {
  import opened Text

  /** No character of `s` can break out of text content or a quoted attribute. */
  predicate Inert(s: string) {
    '<' !in s && '>' !in s && '"' !in s && '\'' !in s
  }

  /** The passes that follow the `&` pass. */
  function LaterPasses(s1: string): string {
    var s2 := ReplaceAll(s1, '<', "&lt;");
    var s3 := ReplaceAll(s2, '>', "&gt;");
    var s4 := ReplaceAll(s3, '"', "&quot;");
    ReplaceAll(s4, '\'', "&#039;")
  }

  /** Each markup character is removed by its own pass and never brought back
      by a later one, since no replacement text contains one. */
  lemma LaterPassesAvoid(s1: string, d: char)
    requires d == '<' || d == '>' || d == '"' || d == '\''
    ensures d !in LaterPasses(s1)
  {
    var s2 := ReplaceAll(s1, '<', "&lt;");
    var s3 := ReplaceAll(s2, '>', "&gt;");
    var s4 := ReplaceAll(s3, '"', "&quot;");
    if d == '<' {
      ReplaceAllAvoids(s1, '<', "&lt;", d);
    }
    if d == '<' || d == '>' {
      ReplaceAllAvoids(s2, '>', "&gt;", d);
    }
    if d != '\'' {
      ReplaceAllAvoids(s3, '"', "&quot;", d);
    }
    ReplaceAllAvoids(s4, '\'', "&#039;", d);
  }

  /** `escapeHtml`: `&` first, then `<`, `>`, `"` and `'`. */
  function EscapeHtml(s: string): (r: string)
    ensures Inert(r)
  {
    var s1 := ReplaceAll(s, '&', "&amp;");
    LaterPassesAvoid(s1, '<');
    LaterPassesAvoid(s1, '>');
    LaterPassesAvoid(s1, '"');
    LaterPassesAvoid(s1, '\'');
    LaterPasses(s1)
  }

  /** `escapeAttr`: `escapeHtml`, then every backtick removed. */
  function EscapeAttr(s: string): (r: string)
    ensures Inert(r)
    ensures '`' !in r
  {
    var h := EscapeHtml(s);
    ReplaceAllAvoids(h, '`', "", '<');
    ReplaceAllAvoids(h, '`', "", '>');
    ReplaceAllAvoids(h, '`', "", '"');
    ReplaceAllAvoids(h, '`', "", '\'');
    ReplaceAllAvoids(h, '`', "", '`');
    ReplaceAll(h, '`', "")
  }

  // ------------------------------------------------ per-character reference

  /** What one character of the input becomes. */
  function EscapeChar(c: char): string {
    match c
    case '&' => "&amp;"
    case '<' => "&lt;"
    case '>' => "&gt;"
    case '"' => "&quot;"
    case '\'' => "&#039;"
    case _ => [c]
  }

  /** Escaping character by character, independently of pass order. */
  function EscapeEach(s: string): string {
    if s == [] then [] else EscapeChar(s[0]) + EscapeEach(s[1..])
  }

  lemma {:induction false} EscapeEachConcat(a: string, b: string)
    ensures EscapeEach(a + b) == EscapeEach(a) + EscapeEach(b)
  {
    if a != [] {
      assert (a + b)[0] == a[0] && (a + b)[1..] == a[1..] + b;
      EscapeEachConcat(a[1..], b);
    } else {
      assert a + b == b;
    }
  }

  lemma EscapeHtmlConcat(a: string, b: string)
    ensures EscapeHtml(a + b) == EscapeHtml(a) + EscapeHtml(b)
  {
    var a1, b1 := ReplaceAll(a, '&', "&amp;"), ReplaceAll(b, '&', "&amp;");
    ReplaceAllConcat(a, b, '&', "&amp;");
    var a2, b2 := ReplaceAll(a1, '<', "&lt;"), ReplaceAll(b1, '<', "&lt;");
    ReplaceAllConcat(a1, b1, '<', "&lt;");
    var a3, b3 := ReplaceAll(a2, '>', "&gt;"), ReplaceAll(b2, '>', "&gt;");
    ReplaceAllConcat(a2, b2, '>', "&gt;");
    var a4, b4 := ReplaceAll(a3, '"', "&quot;"), ReplaceAll(b3, '"', "&quot;");
    ReplaceAllConcat(a3, b3, '"', "&quot;");
    ReplaceAllConcat(a4, b4, '\'', "&#039;");
  }

  /** The later passes leave inert text as it is. */
  lemma LaterPassesKeepInert(x: string)
    requires Inert(x)
    ensures LaterPasses(x) == x
  {
  }

  lemma LaterPassesPlain(c: char)
    requires c != '<' && c != '>' && c != '"' && c != '\''
    ensures LaterPasses([c]) == [c]
  {
  }

  lemma LaterPassesLt()
    ensures LaterPasses("<") == "&lt;"
  {
    ReplaceAllSingle('<', '<', "&lt;");
    LaterPassesKeepInert("&lt;");
  }

  lemma LaterPassesGt()
    ensures LaterPasses(">") == "&gt;"
  {
    ReplaceAllSingle('>', '<', "&lt;");
    ReplaceAllSingle('>', '>', "&gt;");
    assert Inert("&gt;") && LaterPasses(">") == ReplaceAll(ReplaceAll("&gt;", '"', "&quot;"), '\'', "&#039;");
  }

  lemma LaterPassesQuot()
    ensures LaterPasses("\"") == "&quot;"
  {
    ReplaceAllSingle('"', '<', "&lt;");
    ReplaceAllSingle('"', '>', "&gt;");
    ReplaceAllSingle('"', '"', "&quot;");
  }

  lemma LaterPassesApos()
    ensures LaterPasses("'") == "&#039;"
  {
    ReplaceAllSingle('\'', '<', "&lt;");
    ReplaceAllSingle('\'', '>', "&gt;");
    ReplaceAllSingle('\'', '"', "&quot;");
    ReplaceAllSingle('\'', '\'', "&#039;");
  }

  lemma EscapeHtmlChar(c: char)
    ensures EscapeHtml([c]) == EscapeChar(c)
  {
    ReplaceAllSingle(c, '&', "&amp;");
    if c == '&' {
      LaterPassesKeepInert("&amp;");
    } else if c == '<' {
      LaterPassesLt();
    } else if c == '>' {
      LaterPassesGt();
    } else if c == '"' {
      LaterPassesQuot();
    } else if c == '\'' {
      LaterPassesApos();
    } else {
      LaterPassesPlain(c);
    }
  }

  /** The chained passes escape each character independently: since `&` is
      replaced first and no replacement text contains a later pattern, no
      entity is escaped twice. */
  lemma {:induction false} EscapeHtmlIsPerCharacter(s: string)
    ensures EscapeHtml(s) == EscapeEach(s)
  {
    if s != [] {
      assert s == [s[0]] + s[1..];
      EscapeHtmlConcat([s[0]], s[1..]);
      EscapeHtmlChar(s[0]);
      EscapeHtmlIsPerCharacter(s[1..]);
    }
  }

  // ---------------------------------------------------------------- decoding

  /** How a browser reads the five entities back; every other character stands
      for itself. */
  function Unescape(s: string): string
    decreases |s|
  {
    if s == [] then []
    else if "&amp;" <= s then "&" + Unescape(s[5..])
    else if "&lt;" <= s then "<" + Unescape(s[4..])
    else if "&gt;" <= s then ">" + Unescape(s[4..])
    else if "&quot;" <= s then "\"" + Unescape(s[6..])
    else if "&#039;" <= s then "'" + Unescape(s[6..])
    else [s[0]] + Unescape(s[1..])
  }

  lemma UnescapeChar(c: char, rest: string)
    ensures Unescape(EscapeChar(c) + rest) == [c] + Unescape(rest)
  {
    var e := EscapeChar(c) + rest;
    var n := |EscapeChar(c)|;
    assert e[..n] == EscapeChar(c) && e[n..] == rest;
    if c != '&' && c != '<' && c != '>' && c != '"' && c != '\'' {
      assert e[0] == c && !("&" <= e);
      assert !("&amp;" <= e) && !("&lt;" <= e) && !("&gt;" <= e);
      assert !("&quot;" <= e) && !("&#039;" <= e);
    } else if c == '<' {
      assert !("&amp;" <= e) by { assert e[1] == 'l'; }
    } else if c == '>' {
      assert !("&amp;" <= e) && !("&lt;" <= e) by { assert e[1] == 'g'; }
    } else if c == '"' {
      assert !("&amp;" <= e) && !("&lt;" <= e) && !("&gt;" <= e) by { assert e[1] == 'q'; }
    } else if c == '\'' {
      assert !("&amp;" <= e) && !("&lt;" <= e) && !("&gt;" <= e) && !("&quot;" <= e)
        by { assert e[1] == '#'; }
    }
  }

  /** Escaped text reads back as the original: an agent named `<script>` is
      shown as those eight characters and never becomes markup. */
  lemma {:induction false} EscapeHtmlRoundTrip(s: string)
    ensures Unescape(EscapeHtml(s)) == s
  {
    EscapeHtmlIsPerCharacter(s);
    EachRoundTrip(s);
  }

  lemma {:induction false} EachRoundTrip(s: string)
    ensures Unescape(EscapeEach(s)) == s
  {
    if s != [] {
      UnescapeChar(s[0], EscapeEach(s[1..]));
      EachRoundTrip(s[1..]);
    }
  }

  /** Removing backticks after escaping is the same as escaping the input
      with its backticks removed. */
  lemma EscapeAttrIsEscapedWithoutBackticks(s: string)
    ensures EscapeAttr(s) == EscapeHtml(ReplaceAll(s, '`', ""))
  {
    EscapeHtmlIsPerCharacter(s);
    EscapeHtmlIsPerCharacter(ReplaceAll(s, '`', ""));
    EachDropBackticks(s);
  }

  lemma DropBackticksChar(c: char)
    ensures ReplaceAll(EscapeChar(c), '`', "") == if c == '`' then "" else EscapeChar(c)
  {
    if c == '`' {
      ReplaceAllSingle(c, '`', "");
    }
  }

  lemma {:induction false} EachDropBackticks(s: string)
    ensures ReplaceAll(EscapeEach(s), '`', "") == EscapeEach(ReplaceAll(s, '`', ""))
  {
    if s != [] {
      var head := if s[0] == '`' then "" else [s[0]];
      var rest := ReplaceAll(s[1..], '`', "");
      ReplaceAllConcat(EscapeChar(s[0]), EscapeEach(s[1..]), '`', "");
      DropBackticksChar(s[0]);
      EachDropBackticks(s[1..]);
      EscapeEachConcat(head, rest);
      assert EscapeEach(head) == ReplaceAll(EscapeChar(s[0]), '`', "") by {
        if s[0] != '`' {
          assert EscapeEach(head) == EscapeChar(s[0]) + EscapeEach([]);
        }
      }
      assert ReplaceAll(s, '`', "") == head + rest;
    }
  }

  /** The attribute value reads back as the input without its backticks. */
  lemma EscapeAttrRoundTrip(s: string)
    ensures Unescape(EscapeAttr(s)) == ReplaceAll(s, '`', "")
  {
    EscapeAttrIsEscapedWithoutBackticks(s);
    EscapeHtmlRoundTrip(ReplaceAll(s, '`', ""));
  }
}
