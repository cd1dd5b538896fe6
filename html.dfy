/** Escaping of text placed into the page (app.js, `escapeHtml`): four global
    replacements, `&` first, so that no character of the result opens a tag, closes
    an attribute or starts a character reference that was not made by the escape. */
module Html {
  import opened Strings

  /** `str.replace(/&/g, '&amp;').replace(/</g, '&lt;').replace(/>/g, '&gt;').replace(/"/g, '&quot;')`. */
  function EscapeHtml(s: string): string {
    ReplaceAll(ReplaceAll(ReplaceAll(ReplaceAll(s, "&", "&amp;"), "<", "&lt;"), ">", "&gt;"), "\"", "&quot;")
  }

  /** The reference definition: each character on its own. */
  function EscapeChar(c: char): string {
    if c == '&' then "&amp;"
    else if c == '<' then "&lt;"
    else if c == '>' then "&gt;"
    else if c == '"' then "&quot;"
    else [c]
  }

  function EscapeEach(s: string): (r: string)
    ensures '<' !in r && '>' !in r && '"' !in r
    ensures |r| >= |s|
  {
    if s == [] then [] else EscapeChar(s[0]) + EscapeEach(s[1..])
  }

  /** Reads the four references back, left to right. */
  function Unescape(s: string): string
    decreases |s|
  {
    if s == [] then []
    else if StartsWith(s, "&amp;") then "&" + Unescape(s[5..])
    else if StartsWith(s, "&lt;") then "<" + Unescape(s[4..])
    else if StartsWith(s, "&gt;") then ">" + Unescape(s[4..])
    else if StartsWith(s, "&quot;") then "\"" + Unescape(s[6..])
    else [s[0]] + Unescape(s[1..])
  }

  lemma {:induction false} ReplaceCharAbsent(s: string, c: char, rep: string)
    requires c !in s
    ensures ReplaceChar(s, c, rep) == s
    decreases |s|
  {
    if s != [] {
      ReplaceCharAbsent(s[1..], c, rep);
      assert s == [s[0]] + s[1..];
    }
  }

  /** The four passes applied to a single character. */
  function Passes(s: string): string {
    ReplaceChar(ReplaceChar(ReplaceChar(ReplaceChar(s, '&', "&amp;"), '<', "&lt;"), '>', "&gt;"), '"', "&quot;")
  }

  lemma PassesChar(c: char)
    ensures Passes([c]) == EscapeChar(c)
  {
    if c == '&' {
      PassesAmp(c);
    } else if c == '<' {
      PassesLt(c);
    } else if c == '>' {
      PassesGt(c);
    } else {
      PassesOther(c);
    }
  }

  lemma PassesAmp(c: char)
    requires c == '&'
    ensures Passes([c]) == "&amp;"
  {
    var s1 := ReplaceOne(c, '&', "&amp;");
    LaterPasses(s1);
  }

  lemma PassesLt(c: char)
    requires c == '<'
    ensures Passes([c]) == "&lt;"
  {
    var s1 := ReplaceOne(c, '&', "&amp;");
    var s2 := ReplaceOne(c, '<', "&lt;");
    LaterPasses(s2);
  }

  lemma PassesGt(c: char)
    requires c == '>'
    ensures Passes([c]) == "&gt;"
  {
    var s1 := ReplaceOne(c, '&', "&amp;");
    var s2 := ReplaceOne(c, '<', "&lt;");
    var s3 := ReplaceOne(c, '>', "&gt;");
    KeepsRest(s3, '"', "&quot;");
  }

  /** `"` is replaced by the last pass, and any other character is kept by all four. */
  lemma PassesOther(c: char)
    requires c != '&' && c != '<' && c != '>'
    ensures Passes([c]) == if c == '"' then "&quot;" else [c]
  {
    var s1 := ReplaceOne(c, '&', "&amp;");
    var s2 := ReplaceOne(c, '<', "&lt;");
    var s3 := ReplaceOne(c, '>', "&gt;");
    var s4 := ReplaceOne(c, '"', "&quot;");
  }

  lemma KeepsRest(e: string, d: char, rep: string)
    requires d !in e
    ensures ReplaceChar(e, d, rep) == e
  {
    ReplaceCharAbsent(e, d, rep);
  }

  /** The passes after the first leave a reference made by an earlier pass alone. */
  lemma LaterPasses(e: string)
    requires '<' !in e && '>' !in e && '"' !in e
    ensures ReplaceChar(e, '<', "&lt;") == e
    ensures ReplaceChar(ReplaceChar(ReplaceChar(e, '<', "&lt;"), '>', "&gt;"), '"', "&quot;") == e
    ensures ReplaceChar(ReplaceChar(e, '>', "&gt;"), '"', "&quot;") == e
  {
    ReplaceCharAbsent(e, '<', "&lt;");
    ReplaceCharAbsent(e, '>', "&gt;");
    ReplaceCharAbsent(e, '"', "&quot;");
  }

  /** A single character is replaced exactly when it is the one searched for. */
  lemma ReplaceOne(c: char, d: char, rep: string) returns (r: string)
    ensures r == ReplaceChar([c], d, rep) == if c == d then rep else [c]
  {
    r := ReplaceChar([c], d, rep);
    assert [c][1..] == [];
  }

  lemma PassesAppend(a: string, b: string)
    ensures Passes(a + b) == Passes(a) + Passes(b)
  {
    ReplaceCharAppend(a, b, '&', "&amp;");
    var a1, b1 := ReplaceChar(a, '&', "&amp;"), ReplaceChar(b, '&', "&amp;");
    ReplaceCharAppend(a1, b1, '<', "&lt;");
    var a2, b2 := ReplaceChar(a1, '<', "&lt;"), ReplaceChar(b1, '<', "&lt;");
    ReplaceCharAppend(a2, b2, '>', "&gt;");
    var a3, b3 := ReplaceChar(a2, '>', "&gt;"), ReplaceChar(b2, '>', "&gt;");
    ReplaceCharAppend(a3, b3, '"', "&quot;");
  }

  lemma {:induction false} PassesEach(s: string)
    ensures Passes(s) == EscapeEach(s)
    decreases |s|
  {
    if s != [] {
      assert s == [s[0]] + s[1..];
      PassesAppend([s[0]], s[1..]);
      PassesChar(s[0]);
      PassesEach(s[1..]);
    }
  }

  /** The chain of global replacements escapes each character on its own. */
  lemma EscapeHtmlEach(s: string)
    ensures EscapeHtml(s) == EscapeEach(s)
  {
    var s1 := ReplaceAll(s, "&", "&amp;");
    ReplaceAllOneChar(s, '&', "&amp;");
    var s2 := ReplaceAll(s1, "<", "&lt;");
    ReplaceAllOneChar(s1, '<', "&lt;");
    var s3 := ReplaceAll(s2, ">", "&gt;");
    ReplaceAllOneChar(s2, '>', "&gt;");
    ReplaceAllOneChar(s3, '"', "&quot;");
    PassesEach(s);
  }

  /** The escaped text holds no `<`, `>` or `"`, and reading its references back
      gives the original text: escaping loses nothing. */
  lemma EscapeHtmlRoundTrip(s: string)
    ensures '<' !in EscapeHtml(s) && '>' !in EscapeHtml(s) && '"' !in EscapeHtml(s)
    ensures Unescape(EscapeHtml(s)) == s
  {
    EscapeHtmlEach(s);
    UnescapeEach(s);
  }

  lemma {:induction false} UnescapeEach(s: string)
    ensures Unescape(EscapeEach(s)) == s
    decreases |s|
  {
    if s != [] {
      UnescapeEach(s[1..]);
      UnescapeFront(s[0], EscapeEach(s[1..]));
      assert s == [s[0]] + s[1..];
    }
  }

  /** A reference made by the escape is read back as its character. */
  lemma UnescapeFront(c: char, rest: string)
    ensures Unescape(EscapeChar(c) + rest) == [c] + Unescape(rest)
  {
    if c == '&' {
      UnescapeAmp(rest);
    } else if c == '<' {
      UnescapeLt(rest);
    } else if c == '>' {
      UnescapeGt(rest);
    } else if c == '"' {
      UnescapeQuot(rest);
    } else {
      UnescapePlain(c, rest);
    }
  }

  lemma UnescapeAmp(rest: string)
    ensures Unescape("&amp;" + rest) == "&" + Unescape(rest)
  {
    var t := "&amp;" + rest;
    assert StartsWith(t, "&amp;") && t[5..] == rest;
  }

  lemma UnescapeLt(rest: string)
    ensures Unescape("&lt;" + rest) == "<" + Unescape(rest)
  {
    var t := "&lt;" + rest;
    assert !StartsWith(t, "&amp;") by { assert t[1] == 'l'; }
    assert StartsWith(t, "&lt;") && t[4..] == rest;
  }

  lemma UnescapeGt(rest: string)
    ensures Unescape("&gt;" + rest) == ">" + Unescape(rest)
  {
    var t := "&gt;" + rest;
    assert !StartsWith(t, "&amp;") && !StartsWith(t, "&lt;") by { assert t[1] == 'g'; }
    assert StartsWith(t, "&gt;") && t[4..] == rest;
  }

  lemma UnescapeQuot(rest: string)
    ensures Unescape("&quot;" + rest) == "\"" + Unescape(rest)
  {
    var t := "&quot;" + rest;
    assert !StartsWith(t, "&amp;") && !StartsWith(t, "&lt;") && !StartsWith(t, "&gt;") by {
      assert t[1] == 'q';
    }
    assert StartsWith(t, "&quot;") && t[6..] == rest;
  }

  lemma UnescapePlain(c: char, rest: string)
    requires c != '&'
    ensures Unescape([c] + rest) == [c] + Unescape(rest)
  {
    var t := [c] + rest;
    assert t[0] == c && t[1..] == rest;
    assert !StartsWith(t, "&amp;") && !StartsWith(t, "&lt;") &&
           !StartsWith(t, "&gt;") && !StartsWith(t, "&quot;");
  }

  /** Different texts escape differently. */
  lemma EscapeHtmlInjective(s: string, t: string)
    requires EscapeHtml(s) == EscapeHtml(t)
    ensures s == t
  {
    EscapeHtmlRoundTrip(s);
    EscapeHtmlRoundTrip(t);
  }
}
