/** The line-anchored patterns of `parseMarkdown`, each `/^P (.*?)$/gm`: the
    headers (script.js:11-13), the blockquote (:22) and the list item (:25).
    With the `m` flag, `^` holds at the start of the text and after every line
    terminator, and the non-greedy `.*?` followed by `$` takes the rest of the line. */
module Lines {
  import opened Text

  /** A line starting with `prefix` becomes `<tag>rest of line</tag>`. */
  datatype LineRule = LineRule(prefix: string, tag: string)

  // script.js:11, /^### (.*?)$/gm
  const H3 := LineRule("### ", "h3")
  // script.js:12, /^## (.*?)$/gm
  const H2 := LineRule("## ", "h2")
  // script.js:13, /^# (.*?)$/gm
  const H1 := LineRule("# ", "h1")
  // script.js:22, /^> (.*?)$/gm
  const Quote := LineRule("> ", "blockquote")
  // script.js:25, /^\- (.*?)$/gm
  const Item := LineRule("- ", "li")

  /** The tags the header, quote and list-item rules write. */
  lemma TagsSpelled()
    ensures Open(H3.tag) == "<h3>" && Close(H3.tag) == "</h3>"
    ensures Open(H2.tag) == "<h2>" && Close(H2.tag) == "</h2>"
    ensures Open(H1.tag) == "<h1>" && Close(H1.tag) == "</h1>"
    ensures Open(Quote.tag) == "<blockquote>" && Close(Quote.tag) == "</blockquote>"
    ensures Open(Item.tag) == "<li>" && Close(Item.tag) == "</li>"
  {
  }

  /** The patterns used here have a non-empty prefix and no line terminator in
      their prefix or tag. */
  predicate Valid(r: LineRule) {
    |r.prefix| > 0 && NoLineTerminator(r.prefix) && NoLineTerminator(r.tag)
  }

  function Open(tag: string): string { "<" + tag + ">" }

  function Close(tag: string): string { "</" + tag + ">" }

  /** One global replacement of `r` over `s`; `atLineStart` says whether `^`
      holds at the first character of `s`. */
  function ScanLines(r: LineRule, s: string, atLineStart: bool): string
    requires Valid(r)
    decreases |s|
  {
    if s == [] then []
    else if atLineStart && StartsWith(s, r.prefix) then
      var e := |r.prefix| + LineEnd(s[|r.prefix|..]);
      Open(r.tag) + s[|r.prefix|..e] + Close(r.tag) + ScanLines(r, s[e..], false)
    else [s[0]] + ScanLines(r, s[1..], IsLineTerminator(s[0]))
  }

  /** The rule applied to the whole text, as `replace` does. */
  function Apply(r: LineRule, s: string): string
    requires Valid(r)
  {
    ScanLines(r, s, true)
  }

  /** The reference reading of a rule: on one line, taken alone. */
  function RewriteLine(r: LineRule, line: string): string {
    if StartsWith(line, r.prefix) then Open(r.tag) + line[|r.prefix|..] + Close(r.tag) else line
  }

  /** Several rules applied to one line, first to last. */
  function RewriteLineAll(rs: seq<LineRule>, line: string): string
    decreases |rs|
  {
    if rs == [] then line else RewriteLineAll(rs[1..], RewriteLine(rs[0], line))
  }

  /** `s` cut into lines at its line terminators, each line rewritten by `rs`,
      and the terminators kept where they were. */
  function PerLine(rs: seq<LineRule>, s: string): string
    decreases |s|
  {
    var e := LineEnd(s);
    RewriteLineAll(rs, s[..e]) + if e == |s| then [] else [s[e]] + PerLine(rs, s[e + 1..])
  }

  lemma {:induction false} RewriteKeepsLine(rs: seq<LineRule>, line: string)
    requires forall i :: 0 <= i < |rs| ==> Valid(rs[i])
    requires NoLineTerminator(line)
    ensures NoLineTerminator(RewriteLineAll(rs, line))
    decreases |rs|
  {
    if rs != [] {
      var r := rs[0];
      var l' := RewriteLine(r, line);
      if StartsWith(line, r.prefix) {
        assert l' == "<" + r.tag + ">" + line[|r.prefix|..] + "</" + r.tag + ">";
        forall i | 0 <= i < |l'| ensures !IsLineTerminator(l'[i]) {
          if i < 1 + |r.tag| + 1 {
          } else if i < 2 + |r.tag| + |line| - |r.prefix| {
            assert l'[i] == line[|r.prefix| + i - 2 - |r.tag|];
          }
        }
      }
      RewriteKeepsLine(rs[1..], l');
    }
  }

  /** Off a line start, a stretch without line terminators passes through. */
  lemma {:induction false} ScanSkipLine(r: LineRule, t: string, rest: string)
    requires Valid(r) && NoLineTerminator(t)
    ensures ScanLines(r, t + rest, false) == t + ScanLines(r, rest, false)
  {
    if t == [] {
      assert t + rest == rest;
    } else {
      assert (t + rest)[1..] == t[1..] + rest;
      ScanSkipLine(r, t[1..], rest);
      assert t == [t[0]] + t[1..];
    }
  }

  /** At a line start, the scanner treats one whole line exactly as `RewriteLine`. */
  lemma ScanOneLine(r: LineRule, line: string, tail: string)
    requires Valid(r) && NoLineTerminator(line)
    requires tail == [] || IsLineTerminator(tail[0])
    ensures ScanLines(r, line + tail, true) == RewriteLine(r, line) + ScanLines(r, tail, false)
  {
    var s := line + tail;
    var p := r.prefix;
    if StartsWith(s, p) {
      PrefixInLine(line, tail, p);
      ScanMatchedLine(r, line, tail);
    } else if line == [] {
      assert s == tail;
      if tail != [] {
        assert !IsLineTerminator(p[0]);
      }
    } else {
      assert !StartsWith(line, p);
      assert s[1..] == line[1..] + tail;
      ScanSkipLine(r, line[1..], tail);
      assert line == [line[0]] + line[1..];
    }
  }

  /** A prefix without line terminators that starts a line starts it within the line. */
  lemma PrefixInLine(line: string, tail: string, p: string)
    requires NoLineTerminator(p) && (tail == [] || IsLineTerminator(tail[0]))
    requires StartsWith(line + tail, p)
    ensures StartsWith(line, p)
  {
    var s := line + tail;
    assert forall i :: 0 <= i < |p| ==> p[i] == s[i];
    assert tail != [] ==> s[|line|] == tail[0];
    assert |p| <= |line|;
    assert s[..|p|] == line[..|p|];
  }

  lemma ScanMatchedLine(r: LineRule, line: string, tail: string)
    requires Valid(r) && NoLineTerminator(line) && StartsWith(line, r.prefix)
    requires tail == [] || IsLineTerminator(tail[0])
    ensures ScanLines(r, line + tail, true) == Open(r.tag) + line[|r.prefix|..] + Close(r.tag) + ScanLines(r, tail, false)
  {
    var s := line + tail;
    var p := r.prefix;
    assert s[..|p|] == p;
    assert s[|p|..] == line[|p|..] + tail;
    LineEndOfLine(line[|p|..], tail);
    assert s[|p|..|line|] == line[|p|..];
    assert s[|line|..] == tail;
  }

  /** Running a rule over text already rewritten line by line adds that rule
      to every line: the composition of line rules is again line by line. */
  lemma {:induction false} ScanAfterPerLine(r: LineRule, rs: seq<LineRule>, s: string)
    requires Valid(r) && forall i :: 0 <= i < |rs| ==> Valid(rs[i])
    ensures ScanLines(r, PerLine(rs, s), true) == PerLine(rs + [r], s)
    decreases |s|
  {
    var e := LineEnd(s);
    var line := s[..e];
    var line' := RewriteLineAll(rs, line);
    RewriteKeepsLine(rs, line);
    assert RewriteLineAll(rs + [r], line) == RewriteLine(r, line') by {
      RewriteAllSnoc(rs, r, line);
    }
    if e == |s| {
      ScanOneLine(r, line', []);
      assert PerLine(rs, s) == line' + [];
    } else {
      var tail := [s[e]] + PerLine(rs, s[e + 1..]);
      assert PerLine(rs, s) == line' + tail;
      ScanOneLine(r, line', tail);
      assert ScanLines(r, tail, false) == [s[e]] + ScanLines(r, PerLine(rs, s[e + 1..]), true);
      ScanAfterPerLine(r, rs, s[e + 1..]);
    }
  }

  lemma {:induction false} RewriteAllSnoc(rs: seq<LineRule>, r: LineRule, line: string)
    ensures RewriteLineAll(rs + [r], line) == RewriteLine(r, RewriteLineAll(rs, line))
    decreases |rs|
  {
    if rs != [] {
      assert (rs + [r])[1..] == rs[1..] + [r];
      RewriteAllSnoc(rs[1..], r, RewriteLine(rs[0], line));
    }
  }

  /** With no rules, cutting into lines and joining them again gives back the text. */
  lemma {:induction false} PerLineNone(s: string)
    ensures PerLine([], s) == s
    decreases |s|
  {
    var e := LineEnd(s);
    if e < |s| {
      PerLineNone(s[e + 1..]);
      assert s == s[..e] + [s[e]] + s[e + 1..];
    }
  }

  /** The scanner for a `/^P (.*?)$/gm` pattern rewrites the text line by line:
      every line starting with the prefix is wrapped on its own, every other
      line and every line terminator is kept. */
  lemma ApplyIsPerLine(r: LineRule, s: string)
    requires Valid(r)
    ensures Apply(r, s) == PerLine([r], s)
  {
    PerLineNone(s);
    ScanAfterPerLine(r, [], s);
    assert [] + [r] == [r];
  }

  /** No line of `s` begins with `c`; `atLineStart` says whether the first
      character of `s` begins a line. */
  predicate NoLineStartsWith(s: string, c: char, atLineStart: bool) {
    && (atLineStart && |s| > 0 ==> s[0] != c)
    && forall i :: 1 <= i < |s| && IsLineTerminator(s[i - 1]) ==> s[i] != c
  }

  /** Text in which no line begins with the rule's first prefix character is
      left as it is. */
  lemma {:induction false} ScanUntouched(r: LineRule, s: string, atLineStart: bool)
    requires Valid(r) && NoLineStartsWith(s, r.prefix[0], atLineStart)
    ensures ScanLines(r, s, atLineStart) == s
    decreases |s|
  {
    if s != [] {
      assert !(atLineStart && StartsWith(s, r.prefix));
      var t := s[1..];
      forall i | 1 <= i < |t| && IsLineTerminator(t[i - 1]) ensures t[i] != r.prefix[0] {
        assert t[i - 1] == s[i] && t[i] == s[i + 1];
      }
      ScanUntouched(r, t, IsLineTerminator(s[0]));
      assert s == [s[0]] + t;
    }
  }

  /** One line, then a terminator, then the rest of the text. */
  lemma PerLineCons(rs: seq<LineRule>, line: string, c: char, rest: string)
    requires NoLineTerminator(line) && IsLineTerminator(c)
    ensures PerLine(rs, line + [c] + rest) == RewriteLineAll(rs, line) + [c] + PerLine(rs, rest)
  {
    var s := line + [c] + rest;
    LineEndOfLine(line, [c] + rest);
    assert s == line + ([c] + rest);
    assert s[..|line|] == line && s[|line|] == c && s[|line| + 1..] == rest;
  }

  /** The last line of the text. */
  lemma PerLineLast(rs: seq<LineRule>, line: string)
    requires NoLineTerminator(line)
    ensures PerLine(rs, line) == RewriteLineAll(rs, line)
  {
    LineEndOfLine(line, []);
    assert line + [] == line;
  }

  /** A single line whose first character is not `c`. */
  lemma OneLineNoStart(line: string, c: char)
    requires NoLineTerminator(line) && (line == [] || line[0] != c)
    ensures NoLineStartsWith(line, c, true)
  {
  }

  /** Two texts joined by a line terminator: the lines of the result are the
      lines of each. */
  lemma JoinNoStart(x: string, t: char, y: string, c: char)
    requires IsLineTerminator(t) && t != c
    requires NoLineStartsWith(x, c, true) && NoLineStartsWith(y, c, true)
    ensures NoLineStartsWith(x + [t] + y, c, true)
  {
    var s := x + [t] + y;
    forall i | 1 <= i < |s| && IsLineTerminator(s[i - 1]) ensures s[i] != c {
      if i < |x| {
        assert s[i - 1] == x[i - 1] && s[i] == x[i];
      } else if i > |x| + 1 {
        assert s[i - 1] == y[i - 2 - |x|] && s[i] == y[i - 1 - |x|];
      }
    }
  }

  /** One rule on one line that starts with its prefix. */
  lemma RewriteOne(r: LineRule, line: string, t: string)
    requires line == r.prefix + t
    ensures RewriteLineAll([r], line) == Open(r.tag) + t + Close(r.tag)
  {
    assert line[..|r.prefix|] == r.prefix && line[|r.prefix|..] == t;
    assert [r][1..] == [];
  }

  /** One rule on one line that does not start with its prefix. */
  lemma RewriteNone(r: LineRule, line: string)
    requires !StartsWith(line, r.prefix)
    ensures RewriteLineAll([r], line) == line
  {
    assert [r][1..] == [];
  }
}
