/** `escapeHtml` (script.js:185-194): one global replacement of the character
    class `[&<>"']` through a fixed table of entities. */
module Escape {
  import opened Text

  /** The five characters the pattern matches. */
  predicate Special(c: char) {
    c == '&' || c == '<' || c == '>' || c == '"' || c == '\''
  }

  /** The table of script.js:186-192: what one character is replaced by. */
  function Entity(c: char): (e: string)
    ensures Special(c) ==> |e| > 1 && e[0] == '&' && e[|e| - 1] == ';'
    ensures !Special(c) ==> e == [c]
  {
    match c
    case '&' => "&amp;"
    case '<' => "&lt;"
    case '>' => "&gt;"
    case '"' => "&quot;"
    case '\'' => "&#039;"
    case _ => [c]
  }

  /** script.js:193: every character replaced by its entry in the table. */
  function EscapeHtml(s: string): (r: string)
    ensures '<' !in r && '>' !in r && '"' !in r && '\'' !in r
    ensures |r| >= |s|
    decreases |s|
  {
    if s == [] then [] else Entity(s[0]) + EscapeHtml(s[1..])
  }

  /** Reading the entities of the table back as the characters they stand for. */
  function UnescapeHtml(r: string): string
    decreases |r|
  {
    if r == [] then []
    else if StartsWith(r, "&amp;") then "&" + UnescapeHtml(r[5..])
    else if StartsWith(r, "&lt;") then "<" + UnescapeHtml(r[4..])
    else if StartsWith(r, "&gt;") then ">" + UnescapeHtml(r[4..])
    else if StartsWith(r, "&quot;") then "\"" + UnescapeHtml(r[6..])
    else if StartsWith(r, "&#039;") then "'" + UnescapeHtml(r[6..])
    else [r[0]] + UnescapeHtml(r[1..])
  }

  /** One entity, read back, gives its character. */
  lemma UnescapeEntity(c: char, rest: string)
    ensures UnescapeHtml(Entity(c) + rest) == [c] + UnescapeHtml(rest)
  {
    match c
    case '&' => ReadBack("&amp;", rest, "&");
    case '<' => ReadBack("&lt;", rest, "<");
    case '>' => ReadBack("&gt;", rest, ">");
    case '"' => ReadBack("&quot;", rest, "\"");
    case '\'' => ReadBack("&#039;", rest, "'");
    case _ =>
      var s := [c] + rest;
      assert s[0] == c && s[1..] == rest;
      assert !StartsWith(s, "&amp;") && !StartsWith(s, "&lt;") && !StartsWith(s, "&gt;");
      assert !StartsWith(s, "&quot;") && !StartsWith(s, "&#039;");
  }

  /** The entity `e` of the table, followed by `rest`, reads back as `x`. */
  lemma ReadBack(e: string, rest: string, x: string)
    requires (e, x) in {("&amp;", "&"), ("&lt;", "<"), ("&gt;", ">"), ("&quot;", "\""), ("&#039;", "'")}
    ensures UnescapeHtml(e + rest) == x + UnescapeHtml(rest)
  {
    var s := e + rest;
    assert s[..|e|] == e && s[|e|..] == rest;
    assert s[0] == '&' && s[1] == e[1];
  }

  /** Escaping loses nothing: the text comes back from its escaped form, so
      two different texts never escape to the same markup. */
  lemma {:induction false} UnescapeEscape(s: string)
    ensures UnescapeHtml(EscapeHtml(s)) == s
    decreases |s|
  {
    if s != [] {
      UnescapeEntity(s[0], EscapeHtml(s[1..]));
      UnescapeEscape(s[1..]);
      assert s == [s[0]] + s[1..];
    }
  }

  lemma EscapeInjective(s: string, t: string)
    requires EscapeHtml(s) == EscapeHtml(t)
    ensures s == t
  {
    UnescapeEscape(s);
    UnescapeEscape(t);
  }

  /** Escaping works character by character, so it distributes over concatenation. */
  lemma {:induction false} EscapeConcat(s: string, t: string)
    ensures EscapeHtml(s + t) == EscapeHtml(s) + EscapeHtml(t)
    decreases |s|
  {
    if s == [] {
      assert s + t == t;
    } else {
      assert (s + t)[0] == s[0] && (s + t)[1..] == s[1..] + t;
      EscapeConcat(s[1..], t);
    }
  }

  /** Text holding none of the five characters is left as it is. */
  lemma {:induction false} EscapePlain(s: string)
    requires forall i :: 0 <= i < |s| ==> !Special(s[i])
    ensures EscapeHtml(s) == s
    decreases |s|
  {
    if s != [] {
      EscapePlain(s[1..]);
      assert s == [s[0]] + s[1..];
    }
  }
}
