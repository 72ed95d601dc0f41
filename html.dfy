/**
 * The escaping applied to a payload before it is placed inside the log's
 * HTML view: each of & < > " ' becomes its character entity, every other
 * character is kept. UnescapeHtml is the browser's side of the bargain, the
 * decoding of those five entities, and gives the escaping its meaning: the
 * text shown is the text scanned.
 */
module Html {

  /** The characters the escaping replaces. */
  predicate IsSpecial(c: char)
  {
    c == '&' || c == '<' || c == '>' || c == '"' || c == '\''
  }

  /** The characters that would open or close markup or an attribute value. */
  predicate IsMarkup(c: char)
  {
    c == '<' || c == '>' || c == '"' || c == '\''
  }

  /** The replacement of one character. */
  function EscapeChar(c: char): (r: string)
    ensures !IsSpecial(c) ==> r == [c]
    ensures IsSpecial(c) ==> |r| > 1 && r[0] == '&' && r[|r| - 1] == ';'
    ensures forall i :: 0 <= i < |r| ==> !IsMarkup(r[i])
  {
    match c
    case '&' => "&amp;"
    case '<' => "&lt;"
    case '>' => "&gt;"
    case '"' => "&quot;"
    case '\'' => "&#39;"
    case _ => [c]
  }

  /** The escaped text: the per-character replacements, concatenated in order. */
  function EscapeHtml(s: string): (r: string)
    ensures forall i :: 0 <= i < |r| ==> !IsMarkup(r[i])
    ensures |r| >= |s|
  {
    if s == [] then [] else EscapeChar(s[0]) + EscapeHtml(s[1..])
  }

  /** The decoding of the five entities, as an HTML parser reads text. */
  function UnescapeHtml(s: string): string
    decreases |s|
  {
    if s == [] then []
    else if "&amp;" <= s then "&" + UnescapeHtml(s[5..])
    else if "&lt;" <= s then "<" + UnescapeHtml(s[4..])
    else if "&gt;" <= s then ">" + UnescapeHtml(s[4..])
    else if "&quot;" <= s then "\"" + UnescapeHtml(s[6..])
    else if "&#39;" <= s then "'" + UnescapeHtml(s[5..])
    else [s[0]] + UnescapeHtml(s[1..])
  }

  /** Escaping works character by character, so it distributes over concatenation. */
  lemma {:induction false} EscapeHtmlAppend(a: string, b: string)
    ensures EscapeHtml(a + b) == EscapeHtml(a) + EscapeHtml(b)
    decreases |a|
  {
    if a != [] {
      assert (a + b)[0] == a[0];
      assert (a + b)[1..] == a[1..] + b;
      EscapeHtmlAppend(a[1..], b);
    } else {
      assert a + b == b;
    }
  }

  /** A text free of the five special characters is returned unchanged. */
  lemma {:induction false} EscapeHtmlKeepsPlainText(s: string)
    requires forall i :: 0 <= i < |s| ==> !IsSpecial(s[i])
    ensures EscapeHtml(s) == s
    decreases |s|
  {
    if s != [] {
      EscapeHtmlKeepsPlainText(s[1..]);
    }
  }

  /** Decoding one replacement followed by anything gives back the character. */
  lemma UnescapeAfterChar(c: char, rest: string)
    ensures UnescapeHtml(EscapeChar(c) + rest) == [c] + UnescapeHtml(rest)
  {
    var s := EscapeChar(c) + rest;
    if c == '&' {
      assert "&amp;" <= s && s[5..] == rest;
    } else if c == '<' {
      assert !("&amp;" <= s) by { assert s[1] == 'l'; }
      assert "&lt;" <= s && s[4..] == rest;
    } else if c == '>' {
      assert !("&amp;" <= s) by { assert s[1] == 'g'; }
      assert !("&lt;" <= s) by { assert s[1] == 'g'; }
      assert "&gt;" <= s && s[4..] == rest;
    } else if c == '"' {
      assert !("&amp;" <= s) by { assert s[1] == 'q'; }
      assert !("&lt;" <= s) by { assert s[1] == 'q'; }
      assert !("&gt;" <= s) by { assert s[1] == 'q'; }
      assert "&quot;" <= s && s[6..] == rest;
    } else if c == '\'' {
      assert !("&amp;" <= s) by { assert s[1] == '#'; }
      assert !("&lt;" <= s) by { assert s[1] == '#'; }
      assert !("&gt;" <= s) by { assert s[1] == '#'; }
      assert !("&quot;" <= s) by { assert s[1] == '#'; }
      assert "&#39;" <= s && s[5..] == rest;
    } else {
      assert s[0] == c && s[1..] == rest;
    }
  }

  /** No information is lost: decoding the escaped text gives the original. */
  lemma {:induction false} UnescapeEscapeHtml(s: string)
    ensures UnescapeHtml(EscapeHtml(s)) == s
    decreases |s|
  {
    if s != [] {
      UnescapeAfterChar(s[0], EscapeHtml(s[1..]));
      UnescapeEscapeHtml(s[1..]);
    }
  }

  /** Hence two different texts are never shown the same way. */
  lemma EscapeHtmlInjective(a: string, b: string)
    requires EscapeHtml(a) == EscapeHtml(b)
    ensures a == b
  {
    UnescapeEscapeHtml(a);
    UnescapeEscapeHtml(b);
  }
}
