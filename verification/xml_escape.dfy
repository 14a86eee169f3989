/**
 * Escaping of text placed inside SVG markup. Both image renderers of the
 * server use the same five global replacements, `&` first; the result uses
 * the entities predefined by section 4.6 of XML 1.0.
 */
module XmlEscape {
  import opened Strings

  /** The predefined entity for a markup character, or the character itself. */
  function EscapeChar(c: char): string {
    if c == '&' then "&amp;"
    else if c == '<' then "&lt;"
    else if c == '>' then "&gt;"
    else if c == '"' then "&quot;"
    else if c == '\'' then "&apos;"
    else [c]
  }

  /** Reference definition: every character replaced by `EscapeChar` independently. */
  function EscapePerChar(s: string): string {
    if |s| == 0 then "" else EscapeChar(s[0]) + EscapePerChar(s[1..])
  }

  /** JavaScript `s.replace(/c/g, rep)` for a single-character pattern. */
  function ReplaceChar(s: string, c: char, rep: string): string {
    if |s| == 0 then ""
    else (if s[0] == c then rep else [s[0]]) + ReplaceChar(s[1..], c, rep)
  }

  /** The five replacements in the order the program applies them. */
  function ReplacePasses(s: string): string {
    var s1 := ReplaceChar(s, '&', "&amp;");
    var s2 := ReplaceChar(s1, '<', "&lt;");
    var s3 := ReplaceChar(s2, '>', "&gt;");
    var s4 := ReplaceChar(s3, '"', "&quot;");
    ReplaceChar(s4, '\'', "&apos;")
  }

  /** The characters that must never appear raw in escaped text. */
  predicate IsMarkupChar(c: char) {
    c == '<' || c == '>' || c == '"' || c == '\''
  }

  /** Decoding of the five predefined entities; every other character stands for itself. */
  function Unescape(s: string): string
    decreases |s|
  {
    if |s| == 0 then ""
    else if StartsWith(s, "&amp;") then "&" + Unescape(s[5..])
    else if StartsWith(s, "&lt;") then "<" + Unescape(s[4..])
    else if StartsWith(s, "&gt;") then ">" + Unescape(s[4..])
    else if StartsWith(s, "&quot;") then "\"" + Unescape(s[6..])
    else if StartsWith(s, "&apos;") then "'" + Unescape(s[6..])
    else [s[0]] + Unescape(s[1..])
  }

  /**
   * escapeXml as the program writes it. Its result is the per-character
   * escape, contains none of < > " ' raw, and decodes back to the input.
   */
  function EscapeXml(s: string): (r: string)
    ensures r == EscapePerChar(s)
    ensures forall i :: 0 <= i < |r| ==> !IsMarkupChar(r[i])
    ensures Unescape(r) == s
  {
    PassesArePerChar(s);
    PerCharHasNoMarkup(s);
    UnescapeEscape(s);
    ReplacePasses(s)
  }

  lemma {:induction false} ReplaceCharAppend(a: string, b: string, c: char, rep: string)
    ensures ReplaceChar(a + b, c, rep) == ReplaceChar(a, c, rep) + ReplaceChar(b, c, rep)
  {
    if |a| > 0 {
      assert (a + b)[1..] == a[1..] + b;
      ReplaceCharAppend(a[1..], b, c, rep);
    } else {
      assert a + b == b;
    }
  }

  lemma ReplacePassesAppend(a: string, b: string)
    ensures ReplacePasses(a + b) == ReplacePasses(a) + ReplacePasses(b)
  {
    var a1, b1 := ReplaceChar(a, '&', "&amp;"), ReplaceChar(b, '&', "&amp;");
    ReplaceCharAppend(a, b, '&', "&amp;");
    var a2, b2 := ReplaceChar(a1, '<', "&lt;"), ReplaceChar(b1, '<', "&lt;");
    ReplaceCharAppend(a1, b1, '<', "&lt;");
    var a3, b3 := ReplaceChar(a2, '>', "&gt;"), ReplaceChar(b2, '>', "&gt;");
    ReplaceCharAppend(a2, b2, '>', "&gt;");
    var a4, b4 := ReplaceChar(a3, '"', "&quot;"), ReplaceChar(b3, '"', "&quot;");
    ReplaceCharAppend(a3, b3, '"', "&quot;");
    ReplaceCharAppend(a4, b4, '\'', "&apos;");
  }

  /** Replacing a character that does not occur changes nothing. */
  lemma {:induction false} ReplaceAbsent(s: string, c: char, rep: string)
    requires forall i :: 0 <= i < |s| ==> s[i] != c
    ensures ReplaceChar(s, c, rep) == s
  {
    if |s| > 0 {
      ReplaceAbsent(s[1..], c, rep);
    }
  }

  lemma ReplaceSingle(c: char, d: char, rep: string)
    ensures ReplaceChar([c], d, rep) == if c == d then rep else [c]
  {
    assert [c][1..] == [];
  }

  /** An entity text survives the passes that follow its own. */
  lemma EntityStable(e: string, from: nat)
    requires from <= 4
    requires forall i :: 0 <= i < |e| ==> e[i] != '<' && e[i] != '>' && e[i] != '"' && e[i] != '\''
    ensures from <= 1 ==> ReplaceChar(e, '<', "&lt;") == e
    ensures from <= 2 ==> ReplaceChar(e, '>', "&gt;") == e
    ensures from <= 3 ==> ReplaceChar(e, '"', "&quot;") == e
    ensures ReplaceChar(e, '\'', "&apos;") == e
  {
    ReplaceAbsent(e, '<', "&lt;");
    ReplaceAbsent(e, '>', "&gt;");
    ReplaceAbsent(e, '"', "&quot;");
    ReplaceAbsent(e, '\'', "&apos;");
  }

  /** The passes applied to one character `c` whose entity `e` the pass `from` introduces. */
  lemma PassesOnEntityChar(c: char, e: string, from: nat)
    requires from <= 4
    requires c == ['&', '<', '>', '"', '\''][from]
    requires e == ["&amp;", "&lt;", "&gt;", "&quot;", "&apos;"][from]
    ensures ReplacePasses([c]) == e
  {
    ReplaceSingle(c, '&', "&amp;");
    ReplaceSingle(c, '<', "&lt;");
    ReplaceSingle(c, '>', "&gt;");
    ReplaceSingle(c, '"', "&quot;");
    ReplaceSingle(c, '\'', "&apos;");
    EntityStable(e, from);
  }

  lemma PassesOnPlainChar(c: char)
    requires !IsMarkupChar(c) && c != '&'
    ensures ReplacePasses([c]) == [c]
  {
    ReplaceSingle(c, '&', "&amp;");
    ReplaceSingle(c, '<', "&lt;");
    ReplaceSingle(c, '>', "&gt;");
    ReplaceSingle(c, '"', "&quot;");
    ReplaceSingle(c, '\'', "&apos;");
  }

  lemma ReplacePassesChar(c: char)
    ensures ReplacePasses([c]) == EscapeChar(c)
  {
    if c == '&' {
      PassesOnEntityChar(c, "&amp;", 0);
    } else if c == '<' {
      PassesOnEntityChar(c, "&lt;", 1);
    } else if c == '>' {
      PassesOnEntityChar(c, "&gt;", 2);
    } else if c == '"' {
      PassesOnEntityChar(c, "&quot;", 3);
    } else if c == '\'' {
      PassesOnEntityChar(c, "&apos;", 4);
    } else {
      PassesOnPlainChar(c);
    }
  }

  /** The five sequential passes equal the per-character reference escape. */
  lemma {:induction false} PassesArePerChar(s: string)
    ensures ReplacePasses(s) == EscapePerChar(s)
  {
    if |s| > 0 {
      assert s == [s[0]] + s[1..];
      ReplacePassesAppend([s[0]], s[1..]);
      ReplacePassesChar(s[0]);
      PassesArePerChar(s[1..]);
    }
  }

  lemma {:induction false} PerCharHasNoMarkup(s: string)
    ensures forall i :: 0 <= i < |EscapePerChar(s)| ==> !IsMarkupChar(EscapePerChar(s)[i])
  {
    if |s| > 0 {
      PerCharHasNoMarkup(s[1..]);
      var e := EscapeChar(s[0]);
      assert forall i :: 0 <= i < |e| ==> !IsMarkupChar(e[i]);
    }
  }

  /** A string whose k-th character differs from that of `p` does not start with `p`. */
  lemma DiffersAt(s: string, p: string, k: nat)
    requires k < |s| && k < |p| && s[k] != p[k]
    ensures !StartsWith(s, p)
  {
  }

  lemma UnescapeEscapedChar(c: char, rest: string)
    ensures Unescape(EscapeChar(c) + rest) == [c] + Unescape(rest)
  {
    var e := EscapeChar(c) + rest;
    if c == '&' {
      assert StartsWith(e, "&amp;") && e[5..] == rest;
    } else if c == '<' {
      DiffersAt(e, "&amp;", 1);
      assert StartsWith(e, "&lt;") && e[4..] == rest;
    } else if c == '>' {
      DiffersAt(e, "&amp;", 1);
      DiffersAt(e, "&lt;", 1);
      assert StartsWith(e, "&gt;") && e[4..] == rest;
    } else if c == '"' {
      DiffersAt(e, "&amp;", 1);
      DiffersAt(e, "&lt;", 1);
      DiffersAt(e, "&gt;", 1);
      assert StartsWith(e, "&quot;") && e[6..] == rest;
    } else if c == '\'' {
      DiffersAt(e, "&amp;", 2);
      DiffersAt(e, "&lt;", 1);
      DiffersAt(e, "&gt;", 1);
      DiffersAt(e, "&quot;", 1);
      assert StartsWith(e, "&apos;") && e[6..] == rest;
    } else {
      assert e[1..] == rest;
      DiffersAt(e, "&amp;", 0);
      DiffersAt(e, "&lt;", 0);
      DiffersAt(e, "&gt;", 0);
      DiffersAt(e, "&quot;", 0);
      DiffersAt(e, "&apos;", 0);
    }
  }

  /** Decoding the escape of `s` gives `s` back. */
  lemma {:induction false} UnescapeEscape(s: string)
    ensures Unescape(EscapePerChar(s)) == s
  {
    if |s| > 0 {
      UnescapeEscapedChar(s[0], EscapePerChar(s[1..]));
      UnescapeEscape(s[1..]);
    }
  }
}
