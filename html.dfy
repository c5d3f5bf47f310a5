/** `escapeHtml`, shared text of `curator/src/ui/heatmapView.ts`,
    `curator/media/tokenView.js` and `curator/media/sidebar.js`: five global
    replacements, `&` first so that no entity is escaped twice. */
module Html {
  import opened Text

  /** `s.replace(/c/g, rep)` for a single character `c`. */
  function ReplaceAll(s: string, c: char, rep: string): string {
    if s == [] then []
    else (if s[0] == c then rep else [s[0]]) + ReplaceAll(s[1..], c, rep)
  }

  /** After the replacement, every character comes from the text (and is
      not `c`) or from the replacement. */
  lemma {:induction false} ReplaceAllChars(s: string, c: char, rep: string)
    ensures forall d :: d in ReplaceAll(s, c, rep) ==> (d in s && d != c) || d in rep
    decreases |s|
  {
    if s != [] {
      ReplaceAllChars(s[1..], c, rep);
      assert s[0] in s;
      assert forall d :: d in s[1..] ==> d in s;
    }
  }

  /** The escaped form of one character. */
  function EscapeChar(c: char): string {
    match c
    case '&' => "&amp;"
    case '<' => "&lt;"
    case '>' => "&gt;"
    case '"' => "&quot;"
    case '\'' => "&#039;"
    case _ => [c]
  }

  /** The tail of the chain from the `'` replacement on. */
  function EscapeFrom5(s: string): string {
    ReplaceAll(s, '\'', "&#039;")
  }

  /** The tail of the chain from the `"` replacement on. */
  function EscapeFrom4(s: string): string {
    EscapeFrom5(ReplaceAll(s, '"', "&quot;"))
  }

  /** The tail of the chain from the `>` replacement on. */
  function EscapeFrom3(s: string): string {
    EscapeFrom4(ReplaceAll(s, '>', "&gt;"))
  }

  /** The tail of the chain from the `<` replacement on. */
  function EscapeFrom2(s: string): string {
    EscapeFrom3(ReplaceAll(s, '<', "&lt;"))
  }

  /** `escapeHtml(text)`, as the chain of replacements the source writes. */
  function EscapeHtml(s: string): string {
    EscapeFrom2(ReplaceAll(s, '&', "&amp;"))
  }

  /** Escaped text holds no `<`, `>`, `"` or `'`: it can open no tag and
      close no attribute value. */
  lemma EscapedHasNoMarkup(s: string)
    ensures var r := EscapeHtml(s);
      '<' !in r && '>' !in r && '"' !in r && '\'' !in r
  {
    var s1 := ReplaceAll(s, '&', "&amp;");
    var s2 := ReplaceAll(s1, '<', "&lt;");
    var s3 := ReplaceAll(s2, '>', "&gt;");
    var s4 := ReplaceAll(s3, '"', "&quot;");
    ReplaceAllChars(s1, '<', "&lt;");
    ReplaceAllChars(s2, '>', "&gt;");
    ReplaceAllChars(s3, '"', "&quot;");
    ReplaceAllChars(s4, '\'', "&#039;");
  }

  /** Character by character: each character replaced by its entity. */
  function EscapeEach(s: string): string {
    if s == [] then [] else EscapeChar(s[0]) + EscapeEach(s[1..])
  }

  lemma {:induction false} ReplaceAllAppend(a: string, b: string, c: char, rep: string)
    ensures ReplaceAll(a + b, c, rep) == ReplaceAll(a, c, rep) + ReplaceAll(b, c, rep)
    decreases |a|
  {
    if a != [] {
      assert (a + b)[1..] == a[1..] + b;
      ReplaceAllAppend(a[1..], b, c, rep);
    } else {
      assert a + b == b;
    }
  }

  lemma ReplaceAllAbsent(s: string, c: char, rep: string)
    requires c !in s
    ensures ReplaceAll(s, c, rep) == s
    decreases |s|
  {
    if s != [] {
      ReplaceAllAbsent(s[1..], c, rep);
    }
  }

  lemma ReplaceAllSingle(x: char, c: char, rep: string)
    ensures ReplaceAll([x], c, rep) == if x == c then rep else [x]
  {
    assert [x][1..] == [];
  }

  /** The chain applied to a single character gives its entity. */
  lemma EscapeHtmlChar(x: char)
    ensures EscapeHtml([x]) == EscapeChar(x)
  {
    ReplaceAllSingle(x, '&', "&amp;");
    if x == '&' {
      EscapeFrom2Plain("&amp;");
    } else {
      EscapeFrom2Char(x);
    }
  }

  lemma EscapeFrom2Char(x: char)
    requires x != '&'
    ensures EscapeFrom2([x]) == EscapeChar(x)
  {
    ReplaceAllSingle(x, '<', "&lt;");
    if x == '<' {
      EscapeFrom3Plain("&lt;");
    } else {
      EscapeFrom3Char(x);
    }
  }

  lemma EscapeFrom3Char(x: char)
    requires x != '&' && x != '<'
    ensures EscapeFrom3([x]) == EscapeChar(x)
  {
    ReplaceAllSingle(x, '>', "&gt;");
    if x == '>' {
      EscapeFrom4Plain("&gt;");
    } else {
      EscapeFrom4Char(x);
    }
  }

  lemma EscapeFrom4Char(x: char)
    requires x != '&' && x != '<' && x != '>'
    ensures EscapeFrom4([x]) == EscapeChar(x)
  {
    ReplaceAllSingle(x, '"', "&quot;");
    if x == '"' {
      ReplaceAllAbsent("&quot;", '\'', "&#039;");
    } else {
      ReplaceAllSingle(x, '\'', "&#039;");
    }
  }

  lemma EscapeFrom4Plain(s: string)
    requires '"' !in s && '\'' !in s
    ensures EscapeFrom4(s) == s
  {
    ReplaceAllAbsent(s, '"', "&quot;");
    ReplaceAllAbsent(s, '\'', "&#039;");
  }

  lemma EscapeFrom3Plain(s: string)
    requires '>' !in s && '"' !in s && '\'' !in s
    ensures EscapeFrom3(s) == s
  {
    ReplaceAllAbsent(s, '>', "&gt;");
    EscapeFrom4Plain(s);
  }

  lemma EscapeFrom2Plain(s: string)
    requires '<' !in s && '>' !in s && '"' !in s && '\'' !in s
    ensures EscapeFrom2(s) == s
  {
    ReplaceAllAbsent(s, '<', "&lt;");
    EscapeFrom3Plain(s);
  }

  /** Escaping distributes over concatenation. */
  lemma EscapeHtmlAppend(a: string, b: string)
    ensures EscapeHtml(a + b) == EscapeHtml(a) + EscapeHtml(b)
  {
    var s1a, s1b := ReplaceAll(a, '&', "&amp;"), ReplaceAll(b, '&', "&amp;");
    ReplaceAllAppend(a, b, '&', "&amp;");
    var s2a, s2b := ReplaceAll(s1a, '<', "&lt;"), ReplaceAll(s1b, '<', "&lt;");
    ReplaceAllAppend(s1a, s1b, '<', "&lt;");
    var s3a, s3b := ReplaceAll(s2a, '>', "&gt;"), ReplaceAll(s2b, '>', "&gt;");
    ReplaceAllAppend(s2a, s2b, '>', "&gt;");
    var s4a, s4b := ReplaceAll(s3a, '"', "&quot;"), ReplaceAll(s3b, '"', "&quot;");
    ReplaceAllAppend(s3a, s3b, '"', "&quot;");
    ReplaceAllAppend(s4a, s4b, '\'', "&#039;");
  }

  /** The chain of global replacements escapes each character once: it
      equals the character-by-character definition. */
  lemma {:induction false} EscapeHtmlIsEscapeEach(s: string)
    ensures EscapeHtml(s) == EscapeEach(s)
    decreases |s|
  {
    if s == [] {
    } else {
      assert s == [s[0]] + s[1..];
      EscapeHtmlAppend([s[0]], s[1..]);
      EscapeHtmlChar(s[0]);
      EscapeHtmlIsEscapeEach(s[1..]);
    }
  }

  /** Decoding the five entities the escaper writes. */
  function Unescape(s: string): string
    decreases |s|
  {
    if s == [] then []
    else if StartsWith(s, "&amp;") then "&" + Unescape(s[5..])
    else if StartsWith(s, "&lt;") then "<" + Unescape(s[4..])
    else if StartsWith(s, "&gt;") then ">" + Unescape(s[4..])
    else if StartsWith(s, "&quot;") then "\"" + Unescape(s[6..])
    else if StartsWith(s, "&#039;") then "'" + Unescape(s[6..])
    else [s[0]] + Unescape(s[1..])
  }

  /** A string whose character `i` differs from the prefix's does not
      start with it. */
  lemma NotStartsWith(s: string, p: string, i: nat)
    requires i < |p| && i < |s| && s[i] != p[i]
    ensures !StartsWith(s, p)
  {
    if |p| <= |s| {
      assert s[..|p|][i] == s[i];
    }
  }

  lemma UnescapeStep(c: char, t: string)
    ensures Unescape(EscapeChar(c) + t) == [c] + Unescape(t)
  {
    var e := EscapeChar(c) + t;
    assert e[|EscapeChar(c)|..] == t;
    assert e[..|EscapeChar(c)|] == EscapeChar(c);
    if c != '&' && c != '<' && c != '>' && c != '"' && c != '\'' {
      assert e[0] == c;
      NotStartsWith(e, "&amp;", 0);
      NotStartsWith(e, "&lt;", 0);
      NotStartsWith(e, "&gt;", 0);
      NotStartsWith(e, "&quot;", 0);
      NotStartsWith(e, "&#039;", 0);
    } else if c == '&' {
      assert StartsWith(e, "&amp;");
    } else if c == '<' {
      NotStartsWith(e, "&amp;", 1);
      assert StartsWith(e, "&lt;");
    } else if c == '>' {
      NotStartsWith(e, "&amp;", 1);
      NotStartsWith(e, "&lt;", 1);
      assert StartsWith(e, "&gt;");
    } else if c == '"' {
      NotStartsWith(e, "&amp;", 1);
      NotStartsWith(e, "&lt;", 1);
      NotStartsWith(e, "&gt;", 1);
      assert StartsWith(e, "&quot;");
    } else {
      NotStartsWith(e, "&amp;", 1);
      NotStartsWith(e, "&lt;", 1);
      NotStartsWith(e, "&gt;", 1);
      NotStartsWith(e, "&quot;", 1);
      assert StartsWith(e, "&#039;");
    }
  }

  /** Escaping loses nothing: decoding the entities gives the text back. */
  lemma {:induction false} UnescapeEscape(s: string)
    ensures Unescape(EscapeHtml(s)) == s
    decreases |s|
  {
    EscapeHtmlIsEscapeEach(s);
    if s != [] {
      UnescapeStep(s[0], EscapeEach(s[1..]));
      EscapeHtmlIsEscapeEach(s[1..]);
      UnescapeEscape(s[1..]);
      assert s == [s[0]] + s[1..];
    }
  }

  /** Text without the five special characters is left as it is. */
  lemma EscapePlain(s: string)
    requires '&' !in s && '<' !in s && '>' !in s && '"' !in s && '\'' !in s
    ensures EscapeHtml(s) == s
  {
    ReplaceAllAbsent(s, '&', "&amp;");
    EscapeFrom2Plain(s);
  }

  /** `<span ATTRS>BODY</span>`. */
  function Span(attrs: string, body: string): string {
    "<span " + attrs + ">" + body + "</span>"
  }

  /** A span whose attributes and body hold no `<` opens and closes exactly
      one tag each: two `<` in all. */
  lemma SpanTagCount(attrs: string, body: string)
    requires '<' !in attrs && '<' !in body
    ensures CountChar(Span(attrs, body), '<') == 2
  {
    CountCharLeading('<', "span " + attrs + ">" + body);
    assert "<span " + attrs + ">" + body == ['<'] + ("span " + attrs + ">" + body);
    CountCharAppend("<span " + attrs + ">" + body, "</span>", '<');
    CountCharLeading('<', "/span>");
    assert "</span>" == ['<'] + "/span>";
  }

  /** The fixed text around the attribute values of the webviews' token
      spans opens no tag. */
  lemma SpanTextInert()
    ensures '<' !in "class=\"tok\" style=\"" && '<' !in "\" title=\""
    ensures '<' !in "class=\"tok\" data-tip=\"" && '<' !in "\" style=\""
    ensures '<' !in "\""
  {
  }

  /** Pieces with `k` occurrences of `c` each, joined, hold `k` per piece. */
  lemma {:induction false} CountConcat(parts: seq<string>, c: char, k: nat)
    requires forall i :: 0 <= i < |parts| ==> CountChar(parts[i], c) == k
    ensures CountChar(Concat(parts), c) == k * |parts|
    decreases |parts|
  {
    if parts != [] {
      var init := parts[..|parts| - 1];
      CountConcat(init, c, k);
      CountCharAppend(Concat(init), parts[|parts| - 1], c);
      MulSucc(k, |init|);
    }
  }

  lemma MulSucc(k: nat, n: nat)
    ensures k * (n + 1) == k * n + k
  {
  }
}
