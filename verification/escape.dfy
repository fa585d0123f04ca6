/** escapeHtml of the dashboard script, as written and as its comment
    ("Escape HTML entities for safe display") intends, together with the
    browser's decoding of the character references involved. */
module Escape {

  /** Occurrences of `c` in `s`. */
  function Count(s: string, c: char): (n: nat)
    ensures n <= |s|
  {
    if s == [] then 0 else (if s[0] == c then 1 else 0) + Count(s[1..], c)
  }

  /** The lookup table of escapeHtml exactly as written: `&`, `<`, `>` and
      `"` are mapped to themselves, only the apostrophe to `&#039;`. */
  function AsWrittenReplacement(c: char): (r: string)
    ensures c != '\'' ==> r == [c]
    ensures c == '\'' ==> r == "&#039;"
  {
    match c
    case '&' => "&"
    case '<' => "<"
    case '>' => ">"
    case '"' => "\""
    case '\'' => "&#039;"
    case _ => [c]
  }

  /** escapeHtml as written: every character replaced by its table entry.
      Only apostrophes grow, by the five extra characters of `&#039;`. */
  function EscapeHtml(s: string): (r: string)
    ensures |r| == |s| + 5 * Count(s, '\'')
  {
    if s == [] then [] else AsWrittenReplacement(s[0]) + EscapeHtml(s[1..])
  }

  /** The as-written escape leaves its input unchanged exactly when the
      input holds no apostrophe; in particular markup passes through. */
  lemma {:induction false} EscapeHtmlChangesOnlyApostrophes(s: string)
    ensures EscapeHtml(s) == s <==> Count(s, '\'') == 0
  {
    if s != [] {
      EscapeHtmlChangesOnlyApostrophes(s[1..]);
      if Count(s, '\'') == 0 {
        assert s[0] != '\'';
        assert AsWrittenReplacement(s[0]) == [s[0]];
        assert s == [s[0]] + s[1..];
      }
    }
  }

  /** The as-written escape works character by character: it distributes
      over concatenation, so its output is fixed by its effect on single
      characters. */
  lemma {:induction false} EscapeHtmlAppend(a: string, b: string)
    ensures EscapeHtml(a + b) == EscapeHtml(a) + EscapeHtml(b)
    decreases |a|
  {
    if a == [] {
      assert a + b == b;
    } else {
      assert (a + b)[0] == a[0] && (a + b)[1..] == a[1..] + b;
      EscapeHtmlAppend(a[1..], b);
    }
  }

  /** On one character the as-written escape changes only an apostrophe,
      which becomes `&#039;`; every other character, `&`, `<`, `>` and `"`
      included, is kept as it is. */
  lemma EscapeHtmlSingle(c: char)
    ensures c != '\'' ==> EscapeHtml([c]) == [c]
    ensures EscapeHtml("'") == "&#039;"
  {
    assert [c][1..] == [];
    assert "'"[1..] == [];
  }

  /** The intended table: the five characters that are special in HTML text
      and in a double-quoted attribute become character references. */
  function Replacement(c: char): string {
    match c
    case '&' => "&amp;"
    case '<' => "&lt;"
    case '>' => "&gt;"
    case '"' => "&quot;"
    case '\'' => "&#039;"
    case _ => [c]
  }

  /** A character that may not appear raw in escaped output. */
  predicate IsMarkup(c: char) {
    c == '<' || c == '>' || c == '"' || c == '\''
  }

  /** The corrected escapeHtml: its output holds no markup character at all. */
  function EscapeHtmlIntended(s: string): (r: string)
    ensures forall i :: 0 <= i < |r| ==> !IsMarkup(r[i])
  {
    if s == [] then []
    else
      var head := Replacement(s[0]);
      var tail := EscapeHtmlIntended(s[1..]);
      assert forall i :: 0 <= i < |head| ==> !IsMarkup(head[i]);
      head + tail
  }

  predicate StartsWith(s: string, p: string) {
    |p| <= |s| && s[..|p|] == p
  }

  /** How a browser reads the text of an element or attribute as far as the
      five references above are concerned: each is replaced by its character
      and every other character, a lone `&` included, is kept. */
  function Decode(s: string): string
    decreases |s|
  {
    if s == [] then []
    else if s[0] != '&' then [s[0]] + Decode(s[1..])
    else if StartsWith(s, "&amp;") then "&" + Decode(s[5..])
    else if StartsWith(s, "&lt;") then "<" + Decode(s[4..])
    else if StartsWith(s, "&gt;") then ">" + Decode(s[4..])
    else if StartsWith(s, "&quot;") then "\"" + Decode(s[6..])
    else if StartsWith(s, "&#039;") then "'" + Decode(s[6..])
    else "&" + Decode(s[1..])
  }

  /** Decoding an escaped character yields that character. */
  lemma DecodeReplacement(c: char, rest: string)
    ensures Decode(Replacement(c) + rest) == [c] + Decode(rest)
  {
    var x := Replacement(c) + rest;
    if c == '&' {
      assert x[..5] == "&amp;" && x[5..] == rest;
    } else if c == '<' {
      assert x[..4] == "&lt;" && x[4..] == rest && x[1] == 'l';
      assert !StartsWith(x, "&amp;") by { assert "&amp;"[1] == 'a'; }
    } else if c == '>' {
      assert x[..4] == "&gt;" && x[4..] == rest && x[1] == 'g';
      assert !StartsWith(x, "&amp;") by { assert "&amp;"[1] == 'a'; }
      assert !StartsWith(x, "&lt;") by { assert "&lt;"[1] == 'l'; }
    } else if c == '"' {
      assert x[..6] == "&quot;" && x[6..] == rest && x[1] == 'q';
      assert !StartsWith(x, "&amp;") by { assert "&amp;"[1] == 'a'; }
      assert !StartsWith(x, "&lt;") by { assert "&lt;"[1] == 'l'; }
      assert !StartsWith(x, "&gt;") by { assert "&gt;"[1] == 'g'; }
    } else if c == '\'' {
      assert x[..6] == "&#039;" && x[6..] == rest && x[1] == '#';
      assert !StartsWith(x, "&amp;") by { assert "&amp;"[1] == 'a'; }
      assert !StartsWith(x, "&lt;") by { assert "&lt;"[1] == 'l'; }
      assert !StartsWith(x, "&gt;") by { assert "&gt;"[1] == 'g'; }
      assert !StartsWith(x, "&quot;") by { assert "&quot;"[1] == 'q'; }
    } else {
      assert x[0] == c && x[1..] == rest;
    }
  }

  /** The corrected escape round-trips: the browser shows exactly the text
      that was escaped. */
  lemma {:induction false} DecodeEscapeRoundTrip(s: string)
    ensures Decode(EscapeHtmlIntended(s)) == s
  {
    if s != [] {
      DecodeReplacement(s[0], EscapeHtmlIntended(s[1..]));
      DecodeEscapeRoundTrip(s[1..]);
      assert s == [s[0]] + s[1..];
    }
  }

  /** The as-written escape does not round-trip and lets markup through:
      the text `&lt;` is shown as `<`, and `<b>` reaches the page as a tag. */
  lemma AsWrittenDoesNotEscape()
    ensures EscapeHtml("<b>") == "<b>"
    ensures Decode(EscapeHtml("&lt;")) == "<"
    ensures Decode(EscapeHtml("&lt;")) != "&lt;"
  {
    EscapeHtmlChangesOnlyApostrophes("<b>");
    EscapeHtmlChangesOnlyApostrophes("&lt;");
    var s := "&lt;";
    assert EscapeHtml(s) == s;
    assert StartsWith(s, "&amp;") == false;
    assert s[..4] == "&lt;" && s[4..] == [];
  }

  /** The text a span or input shows once `t` has been escaped into the page.
      With the corrected escape this is `t` itself. */
  function Shown(t: string): (r: string)
    ensures r == t
  {
    DecodeEscapeRoundTrip(t);
    Decode(EscapeHtmlIntended(t))
  }
}
