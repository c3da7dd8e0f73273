/** `parseMarkdown` (script.js:1-33): a fixed chain of text replacements, each
    stage working on the output of the one before. Nothing shields the text a
    stage produces from the stages after it. */
module Markdown {
  import opened Text
  import Spans
  import Lines
  import Blocks

  /** script.js:5 and :8: fenced code first, then inline code. */
  function Code(md: string): string {
    Spans.ApplySpan(Spans.Tick, Spans.ApplySpan(Spans.Fence, md))
  }

  /** script.js:11-13: the `###` rule, then `##`, then `#`, each over the whole text. */
  function Headers(s: string): string {
    Lines.Apply(Lines.H1, Lines.Apply(Lines.H2, Lines.Apply(Lines.H3, s)))
  }

  /** script.js:16 and :19: bold, then italic. */
  function Emphasis(s: string): string {
    Spans.ApplySpan(Spans.Italic, Spans.ApplySpan(Spans.Bold, s))
  }

  /** script.js:22. */
  function Quotes(s: string): string {
    Lines.Apply(Lines.Quote, s)
  }

  /** script.js:25-26: list items, then the single `<ul>` wrap. */
  function Lists(s: string): string {
    Blocks.WrapList(Lines.Apply(Lines.Item, s))
  }

  /** Everything before the paragraph stage (script.js:5-26). */
  function Body(md: string): string {
    Lists(Quotes(Emphasis(Headers(Code(md)))))
  }

  /** script.js:1-33. */
  function ParseMarkdown(md: string): (html: string)
    ensures StartsWith(html, "<p>") && EndsWith(html, "</p>")
  {
    "<p>" + Blocks.BreakParagraphs(Body(md)) + "</p>"
  }

  const HeaderRules := [Lines.H3, Lines.H2, Lines.H1]

  /** The three header passes act line by line, as the three rules applied in
      turn to each line on its own. */
  lemma HeadersPerLine(s: string)
    ensures Headers(s) == Lines.PerLine(HeaderRules, s)
  {
    Lines.ApplyIsPerLine(Lines.H3, s);
    Lines.ScanAfterPerLine(Lines.H2, [Lines.H3], s);
    Lines.ScanAfterPerLine(Lines.H1, [Lines.H3, Lines.H2], s);
    assert [Lines.H3] + [Lines.H2] == [Lines.H3, Lines.H2];
    assert [Lines.H3, Lines.H2] + [Lines.H1] == HeaderRules;
  }

  /** The header rules applied to one line, in their order. */
  lemma HeaderRulesInTurn(line: string)
    ensures Lines.RewriteLineAll(HeaderRules, line)
         == Lines.RewriteLine(Lines.H1, Lines.RewriteLine(Lines.H2, Lines.RewriteLine(Lines.H3, line)))
  {
    var l3 := Lines.RewriteLine(Lines.H3, line);
    var l2 := Lines.RewriteLine(Lines.H2, l3);
    var l1 := Lines.RewriteLine(Lines.H1, l2);
    assert HeaderRules[1..] == [Lines.H2, Lines.H1];
    assert Lines.RewriteLineAll(HeaderRules, line) == Lines.RewriteLineAll([Lines.H2, Lines.H1], l3);
    assert [Lines.H2, Lines.H1][1..] == [Lines.H1];
    assert Lines.RewriteLineAll([Lines.H2, Lines.H1], l3) == Lines.RewriteLineAll([Lines.H1], l2);
    assert [Lines.H1][1..] == [];
    assert Lines.RewriteLineAll([Lines.H1], l2) == Lines.RewriteLineAll([], l1);
  }

  /** A line starting with `<` matches none of the header rules. */
  lemma TagLineNotAHeader(line: string)
    requires |line| > 0 && line[0] == '<'
    ensures Lines.RewriteLine(Lines.H2, line) == line && Lines.RewriteLine(Lines.H1, line) == line
  {
    if |line| >= 3 { assert line[..3][0] == '<'; }
    if |line| >= 2 { assert line[..2][0] == '<'; }
  }

  /** What the header passes make of one line: `### T` gives `<h3>T</h3>` and
      never an `<h1>` or `<h2>`, because the `###` rule runs first and leaves
      a line starting with `<`. */
  lemma HeaderLevel3(t: string)
    ensures Lines.RewriteLineAll(HeaderRules, "### " + t) == "<h3>" + t + "</h3>"
  {
    var line := "### " + t;
    HeaderRulesInTurn(line);
    assert line[..4] == "### " && line[4..] == t;
    Lines.TagsSpelled();
    var h := "<h3>" + t + "</h3>";
    assert Lines.RewriteLine(Lines.H3, line) == h;
    assert h[0] == '<';
    TagLineNotAHeader(h);
  }

  /** `## T` gives `<h2>T</h2>`: the `###` rule does not see it, and its output
      starts with `<`. */
  lemma HeaderLevel2(t: string)
    ensures Lines.RewriteLineAll(HeaderRules, "## " + t) == "<h2>" + t + "</h2>"
  {
    var line := "## " + t;
    HeaderRulesInTurn(line);
    if |line| >= 4 { assert line[..4][2] == ' '; }
    assert Lines.RewriteLine(Lines.H3, line) == line;
    assert line[..3] == "## " && line[3..] == t;
    Lines.TagsSpelled();
    var h := "<h2>" + t + "</h2>";
    assert Lines.RewriteLine(Lines.H2, line) == h;
    assert h[0] == '<';
    TagLineNotAHeader(h);
  }

  /** `# T` gives `<h1>T</h1>`. */
  lemma HeaderLevel1(t: string)
    ensures Lines.RewriteLineAll(HeaderRules, "# " + t) == "<h1>" + t + "</h1>"
  {
    var line := "# " + t;
    HeaderRulesInTurn(line);
    if |line| >= 4 { assert line[..4][1] == ' '; }
    if |line| >= 3 { assert line[..3][1] == ' '; }
    assert Lines.RewriteLine(Lines.H3, line) == line;
    assert Lines.RewriteLine(Lines.H2, line) == line;
    assert line[..2] == "# " && line[2..] == t;
    Lines.TagsSpelled();
  }

  /** A line that does not start with `#` is left alone by the header passes. */
  lemma NotAHeader(line: string)
    requires line == [] || line[0] != '#'
    ensures Lines.RewriteLineAll(HeaderRules, line) == line
  {
    HeaderRulesInTurn(line);
    if |line| >= 4 { assert line[..4][0] == line[0]; }
    if |line| >= 3 { assert line[..3][0] == line[0]; }
    if |line| >= 2 { assert line[..2][0] == line[0]; }
  }

  /** A bold span is consumed whole before the italic rule runs, so no `*` is
      left in it for `<em>`: `**x**` gives `<strong>x</strong>`. */
  lemma BoldBeforeItalic(x: string, rest: string)
    requires '*' !in x && NoLineTerminator(x)
    ensures Emphasis("**" + x + "**" + rest) == "<strong>" + x + "</strong>" + Emphasis(rest)
  {
    var b := Spans.Bold;
    forall j | 0 <= j < |x| ensures !OccursAt(x + b.delim, b.delim, j) {
      var y := x + b.delim;
      assert y[j..j + 2][0] == y[j] == x[j] != '*' == b.delim[0];
    }
    Spans.SpanPairs(b, x, rest);
    var t := "<strong>" + x + "</strong>";
    assert '*' !in t by {
      assert '*' !in "<strong>" && '*' !in "</strong>";
    }
    Spans.SpanSkip(Spans.Italic, t, Spans.ApplySpan(b, rest));
  }

  /** Neither emphasis rule matches across a line break: `**a` and `b**` on
      two lines stay as they are under the bold rule, and so do `*a` and `b*`
      under the italic rule. */
  lemma BoldNotAcrossLines(a: string, b: string)
    requires '*' !in a && '*' !in b
    ensures Spans.ApplySpan(Spans.Bold, "**" + (a + "\n" + b) + "**") == "**" + (a + "\n" + b) + "**"
  {
    var r, m := Spans.Bold, a + "\n" + b;
    StarFreeLine(a, b);
    Spans.NoCloserAcrossLines(r, m);
    var s := "**" + m + "**";
    AfterFirstStar(m);
    assert ("*" + (m + "**"))[..2][1] == m[0];
    Spans.SpanStep(r, "*" + (m + "**"));
    assert ("*" + (m + "**"))[1..] == m + "**";
    Spans.SpanSkip(r, m, "**");
    Spans.SpanLoneOpener(r, []);
    assert "**" + [] == "**";
    ConcatAssoc("*", m, "**");
  }

  lemma AfterFirstStar(m: string)
    ensures ("**" + m + "**")[1..] == "*" + (m + "**")
  {
    var s, t := "**" + m + "**", "*" + (m + "**");
    assert |s[1..]| == |t|;
    forall i | 0 <= i < |t| ensures s[1..][i] == t[i] {
      if 1 <= i <= |m| {
        assert s[i + 1] == m[i - 1] && t[i] == m[i - 1];
      }
    }
  }

  lemma ItalicNotAcrossLines(a: string, b: string)
    requires '*' !in a && '*' !in b
    ensures Spans.ApplySpan(Spans.Italic, "*" + (a + "\n" + b) + "*") == "*" + (a + "\n" + b) + "*"
  {
    var r, m := Spans.Italic, a + "\n" + b;
    StarFreeLine(a, b);
    Spans.NoCloserAcrossLines(r, m);
    var s := "*" + m + "*";
    assert s[1..] == m + "*";
    Spans.SpanSkip(r, m, "*");
    Spans.SpanLoneOpener(r, []);
    assert "*" + [] == "*";
  }

  lemma StarFreeLine(a: string, b: string)
    requires '*' !in a && '*' !in b
    ensures var m := a + "\n" + b; '*' !in m && !NoLineTerminator(m) && m[0] != '*'
  {
    var m := a + "\n" + b;
    assert m[|a|] == '\n';
    assert '*' !in "\n";
  }

  /** Inline code: a non-empty backtick-free stretch between two backticks
      becomes `<code>` content, and scanning resumes after the closer. */
  lemma InlineCode(x: string, rest: string)
    requires '`' !in x && |x| > 0
    ensures Spans.ApplySpan(Spans.Tick, "`" + x + "`" + rest) == "<code>" + x + "</code>" + Spans.ApplySpan(Spans.Tick, rest)
  {
    var k := Spans.Tick;
    forall j | 0 <= j < |x| ensures !OccursAt(x + k.delim, k.delim, j) {
      assert (x + k.delim)[j] == x[j];
    }
    Spans.SpanPairs(k, x, rest);
  }

  lemma CodeUntouched(s: string)
    requires '`' !in s
    ensures Code(s) == s
  {
    Spans.SpanNone(Spans.Fence, s);
    Spans.SpanNone(Spans.Tick, s);
  }

  lemma HeadersUntouched(s: string)
    requires Lines.NoLineStartsWith(s, '#', true)
    ensures Headers(s) == s
  {
    assert Lines.H3.prefix[0] == Lines.H2.prefix[0] == Lines.H1.prefix[0] == '#';
    Lines.ScanUntouched(Lines.H3, s, true);
    Lines.ScanUntouched(Lines.H2, s, true);
    Lines.ScanUntouched(Lines.H1, s, true);
  }

  lemma EmphasisUntouched(s: string)
    requires '*' !in s
    ensures Emphasis(s) == s
  {
    Spans.SpanNone(Spans.Bold, s);
    Spans.SpanNone(Spans.Italic, s);
  }

  lemma QuotesUntouched(s: string)
    requires Lines.NoLineStartsWith(s, '>', true)
    ensures Quotes(s) == s
  {
    assert Lines.Quote.prefix[0] == '>';
    Lines.ScanUntouched(Lines.Quote, s, true);
  }

  lemma ListsUntouched(s: string)
    requires Lines.NoLineStartsWith(s, '-', true)
    requires forall p :: !OccursAt(s, Blocks.LiOpen, p)
    ensures Lists(s) == s
  {
    assert Lines.Item.prefix[0] == '-';
    Lines.ScanUntouched(Lines.Item, s, true);
    Blocks.NoItemNoWrap(s);
  }

  /** No line of `s` begins a header, a quote or a list item. */
  predicate NoLineMarker(s: string) {
    && Lines.NoLineStartsWith(s, '#', true)
    && Lines.NoLineStartsWith(s, '>', true)
    && Lines.NoLineStartsWith(s, '-', true)
  }

  /** Text with no delimiter, no `<l` and no line marker goes through every
      stage before the paragraph breaks unchanged. */
  lemma PlainBody(s: string)
    requires '`' !in s && '*' !in s && NoLiStart(s) && NoLineMarker(s)
    ensures Body(s) == s
  {
    CodeUntouched(s);
    HeadersUntouched(s);
    EmphasisUntouched(s);
    QuotesUntouched(s);
    NoLiOpen(s);
    ListsUntouched(s);
  }

  /** Text with no Markdown syntax in it comes back as one paragraph. */
  lemma PlainText(s: string)
    requires '`' !in s && '*' !in s && '<' !in s && Blocks.NoBlankLine(s) && NoLineMarker(s)
    ensures ParseMarkdown(s) == "<p>" + s + "</p>"
  {
    forall i | 0 <= i < |s| - 1 ensures !(s[i] == '<' && s[i + 1] == 'l') {
      assert s[i] in s;
    }
    PlainBody(s);
    Blocks.BreakIdentity(s);
  }

  /** The page is `<p>…</p>` around the pieces of the list stage's output cut
      at its blank lines, joined with `</p><p>` (script.js:29-30). */
  lemma PageOfParagraphs(md: string)
    ensures ParseMarkdown(md) == "<p>" + Blocks.Join(Blocks.Paragraphs(Body(md)), "</p><p>") + "</p>"
  {
    Blocks.BreakIsJoin(Body(md));
  }

  /** The empty document is one empty paragraph. */
  lemma EmptyDocument()
    ensures ParseMarkdown("") == "<p></p>"
  {
    PlainText("");
  }

  /** No `<` directly followed by `l`, so in particular no `<li>`. */
  predicate NoLiStart(s: string) {
    forall i :: 0 <= i < |s| - 1 ==> !(s[i] == '<' && s[i + 1] == 'l')
  }

  /** Text without `<l` holds no `<li>`. */
  lemma NoLiOpen(s: string)
    requires NoLiStart(s)
    ensures forall p :: !OccursAt(s, Blocks.LiOpen, p)
  {
    forall p | 0 <= p ensures !OccursAt(s, Blocks.LiOpen, p) {
      if p + |Blocks.LiOpen| <= |s| {
        assert s[p..p + 4][0] == s[p] && s[p..p + 4][1] == s[p + 1];
      }
    }
  }

  /** A one-line fragment that the stages after the headers leave alone
      wherever it stands inside a line. */
  predicate Inert(s: string) {
    '*' !in s && NoLineTerminator(s) && NoLiStart(s)
  }

  /** Plain text: no Markdown delimiter, no markup, one line. */
  predicate Plain(t: string) {
    '`' !in t && '*' !in t && '<' !in t && NoLineTerminator(t)
  }

  lemma InertConcat(a: string, b: string)
    requires Inert(a) && Inert(b)
    requires a != [] ==> a[|a| - 1] != '<'
    ensures Inert(a + b)
  {
    NoLiStartConcat(a, b);
  }

  lemma NoLiStartConcat(a: string, b: string)
    requires NoLiStart(a) && NoLiStart(b)
    requires a != [] ==> a[|a| - 1] != '<'
    ensures NoLiStart(a + b)
  {
    var s := a + b;
    forall i | 0 <= i < |s| - 1 ensures !(s[i] == '<' && s[i + 1] == 'l') {
      if i < |a| - 1 {
        assert s[i] == a[i] && s[i + 1] == a[i + 1];
      } else if i == |a| - 1 {
        assert s[i] == a[i];
      } else {
        assert s[i] == b[i - |a|] && s[i + 1] == b[i + 1 - |a|];
      }
    }
  }

  /** Plain text between an opening tag and a closing tag stays inert. */
  lemma InertWrap(open: string, t: string, close: string)
    requires Inert(open) && Inert(close) && Plain(t)
    requires open != [] && open[|open| - 1] == '>'
    ensures Inert(open + t + close)
  {
    assert Inert(t);
    InertConcat(open, t);
    if t != [] {
      assert t[|t| - 1] in t;
      assert (open + t)[|open + t| - 1] == t[|t| - 1];
    }
    InertConcat(open + t, close);
  }

  /** An inert line that starts neither a quote nor a list item goes through
      the stages after the headers untouched. */
  lemma InertLineToEnd(s: string)
    requires Inert(s) && (|s| > 0 ==> s[0] != '>' && s[0] != '-')
    ensures Lists(Quotes(Emphasis(s))) == s
    ensures Blocks.BreakParagraphs(s) == s
  {
    EmphasisUntouched(s);
    QuotesUntouched(s);
    NoLiOpen(s);
    ListsUntouched(s);
    Blocks.BreakNone(s);
  }

  /** The document whose body stages give `body`, with no paragraph break in
      it, is `body` in one paragraph. */
  lemma OneParagraph(md: string, body: string)
    requires Body(md) == body && Blocks.BreakParagraphs(body) == body
    ensures ParseMarkdown(md) == "<p>" + body + "</p>"
  {
  }

  /** A header line of plain text renders as that header alone, in one
      paragraph: `# T` as `<h1>T</h1>`. */
  lemma HeaderDocument(md: string, t: string)
    requires md == "# " + t && Plain(t)
    ensures ParseMarkdown(md) == "<p>" + ("<h1>" + t + "</h1>") + "</p>"
  {
    var h := "<h1>" + t + "</h1>";
    HeaderLineBody(md, t, h);
    OneParagraph(md, h);
  }

  lemma HeaderLineBody(md: string, t: string, h: string)
    requires md == "# " + t && h == "<h1>" + t + "</h1>" && Plain(t)
    ensures Body(md) == h && Blocks.BreakParagraphs(h) == h
  {
    HeaderLineHeaders(md, t, h);
    InertWrap("<h1>", t, "</h1>");
    InertLineToEnd(h);
  }

  lemma HeaderLineHeaders(md: string, t: string, h: string)
    requires md == "# " + t && h == "<h1>" + t + "</h1>" && Plain(t)
    ensures Headers(Code(md)) == h
  {
    CodeUntouched(md);
    HeadersPerLine(md);
    Lines.PerLineLast(HeaderRules, md);
    HeaderLevel1(t);
  }

  /** One line of plain text that starts no header, quote or list item. */
  predicate Unmarked(line: string) {
    Plain(line) && (line == [] || (line[0] != '#' && line[0] != '>' && line[0] != '-'))
  }

  lemma LineNoMarker(line: string)
    requires NoLineTerminator(line) && (line == [] || (line[0] != '#' && line[0] != '>' && line[0] != '-'))
    ensures NoLineMarker(line)
  {
    Lines.OneLineNoStart(line, '#');
    Lines.OneLineNoStart(line, '>');
    Lines.OneLineNoStart(line, '-');
  }

  lemma JoinNoMarker(x: string, y: string)
    requires NoLineMarker(x) && NoLineMarker(y)
    ensures NoLineMarker(x + "\n" + y)
  {
    assert x + "\n" + y == x + ['\n'] + y;
    Lines.JoinNoStart(x, '\n', y, '#');
    Lines.JoinNoStart(x, '\n', y, '>');
    Lines.JoinNoStart(x, '\n', y, '-');
  }

  /** A blank line between two plain lines splits the document into two
      paragraphs (script.js:29-30). */
  lemma TwoParagraphs(md: string, a: string, b: string)
    requires md == a + "\n\n" + b && Unmarked(a) && Unmarked(b)
    ensures ParseMarkdown(md) == "<p>" + (a + "</p><p>" + b) + "</p>"
  {
    LineNoMarker(a);
    LineNoMarker(b);
    LineNoMarker([]);
    JoinNoMarker([], b);
    assert md == a + "\n" + ([] + "\n" + b);
    JoinNoMarker(a, [] + "\n" + b);
    forall i | 0 <= i < |md| - 1 ensures !(md[i] == '<' && md[i + 1] == 'l') {
      assert md[i] in md;
    }
    PlainBody(md);
    BreakPair(a, b);
  }

  /** The paragraph stage on two newline-free stretches around a blank line. */
  lemma BreakPair(a: string, b: string)
    requires '\n' !in a && '\n' !in b
    ensures Blocks.BreakParagraphs(a + "\n\n" + b) == a + "</p><p>" + b
  {
    var r := "\n\n" + b;
    assert a + "\n\n" + b == a + r;
    Blocks.BreakSkip(a, r);
    assert r[0] == '\n' && r[1] == '\n' && r[2..] == b;
    Blocks.BreakNone(b);
  }

  /** Fenced code does not shield its content from the later stages: a blank
      line inside a fence still becomes a paragraph break, and the `<pre>`
      block is cut in two paragraphs. */
  lemma FencedBlankLine(md: string, a: string, b: string)
    requires md == "```" + a + "\n\n" + b + "```" && Plain(a) && Unmarked(b)
    ensures ParseMarkdown(md) == "<p>" + ("<pre><code>" + a + "</p><p>" + b + "</code></pre>") + "</p>"
  {
    var x := a + "\n\n" + b;
    var l1 := "<pre><code>" + a;
    var l3 := b + "</code></pre>";
    var c := l1 + "\n\n" + l3;
    FencedBlockText(a, b, x, l1, l3, c);
    FencedBlockPlain(a, b, l1, l3, c);
    assert md == "```" + x + "```";
    FenceWhole(md, x);
    Spans.SpanNone(Spans.Tick, c);
    CodeUntouched(c);
    PlainBody(c);
    BreakPair(l1, l3);
  }

  /** A fence whose content holds no backtick is one match of script.js:5. */
  lemma FenceWhole(md: string, x: string)
    requires md == "```" + x + "```" && '`' !in x
    ensures Spans.ApplySpan(Spans.Fence, md) == "<pre><code>" + x + "</code></pre>"
  {
    var f := Spans.Fence;
    forall j | 0 <= j < |x| ensures !OccursAt(x + f.delim, f.delim, j) {
      assert (x + f.delim)[j] == x[j];
    }
    assert md == f.delim + x + f.delim + [];
    Spans.SpanPairs(f, x, []);
  }

  /** The fenced block of `FencedBlankLine` carries no delimiter. */
  lemma FencedBlockText(a: string, b: string, x: string, l1: string, l3: string, c: string)
    requires Plain(a) && Plain(b) && x == a + "\n\n" + b
    requires l1 == "<pre><code>" + a && l3 == b + "</code></pre>" && c == l1 + "\n\n" + l3
    ensures '`' !in x && c == "<pre><code>" + x + "</code></pre>"
    ensures '`' !in c && '*' !in c && '\n' !in l1 && '\n' !in l3
    ensures l1 + "</p><p>" + l3 == "<pre><code>" + a + "</p><p>" + b + "</code></pre>"
  {
    assert '\n' !in "<pre><code>" && '\n' !in "</code></pre>";
    assert '\n' !in a && '\n' !in b by {
      assert forall i :: 0 <= i < |a| ==> a[i] != '\n';
      assert forall i :: 0 <= i < |b| ==> b[i] != '\n';
    }
    assert '`' !in "<pre><code>" && '`' !in "</code></pre>" && '`' !in "\n\n";
    assert '*' !in "<pre><code>" && '*' !in "</code></pre>" && '*' !in "\n\n";
    assert '`' !in l1 && '`' !in l3 && '*' !in l1 && '*' !in l3;
  }

  /** The fenced block of `FencedBlankLine` starts no line with a marker and
      holds no `<l`. */
  lemma FencedBlockPlain(a: string, b: string, l1: string, l3: string, c: string)
    requires Plain(a) && Unmarked(b)
    requires l1 == "<pre><code>" + a && l3 == b + "</code></pre>" && c == l1 + "\n\n" + l3
    ensures NoLiStart(c) && NoLineMarker(c)
  {
    FencedBlockMarkers(a, b, l1, l3, c);
    FencedBlockNoLi(a, b, l1, l3, c);
  }

  lemma FencedBlockMarkers(a: string, b: string, l1: string, l3: string, c: string)
    requires Plain(a) && Unmarked(b)
    requires l1 == "<pre><code>" + a && l3 == b + "</code></pre>" && c == l1 + "\n\n" + l3
    ensures NoLineMarker(c)
  {
    assert NoLineTerminator(l1) by {
      forall i | 0 <= i < |l1| ensures !IsLineTerminator(l1[i]) {
        if i >= 11 { assert l1[i] == a[i - 11]; }
      }
    }
    assert NoLineTerminator(l3) by {
      forall i | 0 <= i < |l3| ensures !IsLineTerminator(l3[i]) {
        if i < |b| { assert l3[i] == b[i]; }
      }
    }
    assert l1[0] == '<';
    assert l3[0] == (if b == [] then '<' else b[0]);
    LineNoMarker(l1);
    LineNoMarker(l3);
    LineNoMarker([]);
    JoinNoMarker([], l3);
    assert c == l1 + "\n" + ([] + "\n" + l3);
    JoinNoMarker(l1, [] + "\n" + l3);
  }

  lemma FencedBlockNoLi(a: string, b: string, l1: string, l3: string, c: string)
    requires Plain(a) && Unmarked(b)
    requires l1 == "<pre><code>" + a && l3 == b + "</code></pre>" && c == l1 + "\n\n" + l3
    ensures NoLiStart(c)
  {
    assert NoLiStart("<pre><code>") && NoLiStart("\n\n") && NoLiStart("</code></pre>");
    NoLiStartPlain(a);
    NoLiStartPlain(b);
    NoLiStartConcat("<pre><code>", a);
    NoLiStartConcat(l1, "\n\n");
    NoLiStartConcat(l1 + "\n\n", b);
    if b != [] { assert b[|b| - 1] in b; }
    NoLiStartConcat(l1 + "\n\n" + b, "</code></pre>");
    assert c == l1 + "\n\n" + b + "</code></pre>";
  }

  lemma NoLiStartPlain(t: string)
    requires '<' !in t
    ensures NoLiStart(t) && (t != [] ==> t[|t| - 1] != '<')
  {
    forall i | 0 <= i < |t| - 1 ensures !(t[i] == '<' && t[i + 1] == 'l') {
      assert t[i] in t;
    }
    if t != [] { assert t[|t| - 1] in t; }
  }

  /** Consecutive quoted lines are not merged: each becomes its own
      `<blockquote>` (script.js:22). */
  lemma QuotesNotMerged(md: string, a: string, b: string)
    requires md == "> " + a + "\n" + "> " + b && NoLineTerminator(a) && NoLineTerminator(b)
    ensures Quotes(md) == "<blockquote>" + a + "</blockquote>" + "\n" + "<blockquote>" + b + "</blockquote>"
  {
    var q := Lines.Quote;
    var l1, l2 := "> " + a, "> " + b;
    assert md == l1 + "\n" + l2;
    NoLineTerminatorConcat("> ", a);
    NoLineTerminatorConcat("> ", b);
    TwoRuleLines(q, md, l1, l2, a, b);
    Lines.ApplyIsPerLine(q, md);
    Lines.TagsSpelled();
  }

  /** Two lines that both start with the rule's prefix, each rewritten alone. */
  lemma TwoRuleLines(r: Lines.LineRule, s: string, l1: string, l2: string, a: string, b: string)
    requires l1 == r.prefix + a && l2 == r.prefix + b && s == l1 + "\n" + l2
    requires NoLineTerminator(l1) && NoLineTerminator(l2)
    ensures Lines.PerLine([r], s) == Lines.Open(r.tag) + a + Lines.Close(r.tag) + "\n" + Lines.Open(r.tag) + b + Lines.Close(r.tag)
  {
    assert s == l1 + ['\n'] + l2;
    Lines.PerLineCons([r], l1, '\n', l2);
    Lines.PerLineLast([r], l2);
    Lines.RewriteOne(r, l1, a);
    Lines.RewriteOne(r, l2, b);
  }

  /** List items are wrapped in a single `<ul>` from the first `<li>` to the
      last `</li>`, even when a line that is no item separates them
      (script.js:25-26). */
  lemma ListRuns(md: string, a: string, m: string, b: string)
    requires md == "- " + a + "\n" + m + "\n" + "- " + b
    requires NoLineTerminator(a) && NoLineTerminator(m) && NoLineTerminator(b)
    requires !StartsWith(m, "- ")
    ensures Lists(md) == "<ul>" + ("<li>" + a + "</li>" + "\n" + m + "\n" + "<li>" + b + "</li>") + "</ul>"
  {
    var l1, l3 := "- " + a, "- " + b;
    ConcatAssoc(l1 + "\n" + m + "\n", "- ", b);
    NoLineTerminatorConcat("- ", a);
    NoLineTerminatorConcat("- ", b);
    ItemLines(md, l1, m, l3, a, b);
    Lines.ApplyIsPerLine(Lines.Item, md);
    Lines.TagsSpelled();
    var u := "<li>" + a + "</li>" + "\n" + m + "\n" + "<li>" + b + "</li>";
    assert Lines.Apply(Lines.Item, md) == u;
    ItemRunEnds(a, m, b);
    Blocks.WrapWhole(u);
  }

  lemma ItemRunEnds(a: string, m: string, b: string)
    ensures var u := "<li>" + a + "</li>" + "\n" + m + "\n" + "<li>" + b + "</li>";
      |u| >= 9 && StartsWith(u, Blocks.LiOpen) && EndsWith(u, Blocks.LiClose)
  {
    var u := "<li>" + a + "</li>" + "\n" + m + "\n" + "<li>" + b + "</li>";
    assert u[..4] == "<li>";
    assert u[|u| - 5..] == "</li>";
  }

  /** An item line, a line that is no item, and an item line, each rewritten alone. */
  lemma ItemLines(s: string, l1: string, m: string, l3: string, a: string, b: string)
    requires l1 == "- " + a && l3 == "- " + b && s == l1 + "\n" + m + "\n" + l3
    requires NoLineTerminator(l1) && NoLineTerminator(m) && NoLineTerminator(l3)
    requires !StartsWith(m, "- ")
    ensures Lines.PerLine([Lines.Item], s)
         == Lines.Open("li") + a + Lines.Close("li") + "\n" + m + "\n" + Lines.Open("li") + b + Lines.Close("li")
  {
    var it := Lines.Item;
    var rest := m + "\n" + l3;
    Regroup(l1 + "\n", m, l3);
    Lines.PerLineCons([it], l1, '\n', rest);
    Lines.PerLineCons([it], m, '\n', l3);
    Lines.PerLineLast([it], l3);
    Lines.RewriteOne(it, l1, a);
    Lines.RewriteNone(it, m);
    Lines.RewriteOne(it, l3, b);
    var li1, li3 := Lines.Open("li") + a + Lines.Close("li"), Lines.Open("li") + b + Lines.Close("li");
    assert Lines.PerLine([it], s) == li1 + "\n" + (m + "\n" + li3);
    Regroup(li1 + "\n", m, li3);
  }

  lemma Regroup(p: string, m: string, q: string)
    ensures p + m + "\n" + q == p + (m + "\n" + q)
  {
    ConcatAssoc(p, m, "\n");
    ConcatAssoc(p, m + "\n", q);
  }

  /** No blank line is left in the page: every one became a paragraph break. */
  lemma NoBlankLineLeft(md: string)
    ensures Blocks.NoBlankLine(ParseMarkdown(md))
  {
    var x := Blocks.BreakParagraphs(Body(md));
    Blocks.BreakLeavesNoBlankLine(Body(md));
    Blocks.NoBlankLineBeforeTag(x, "</p>");
    Blocks.NoBlankLineAfterTag("<p>", x + "</p>");
    assert "<p>" + x + "</p>" == "<p>" + (x + "</p>");
  }

  /** Header lines of different levels, one after the other, each become their
      own header: `## A`, `### B`, `# C` give `<h2>`, `<h3>` and `<h1>` in that order. */
  lemma HeaderLines(md: string, a: string, b: string, c: string)
    requires md == "## " + a + "\n" + "### " + b + "\n" + "# " + c
    requires NoLineTerminator(a) && NoLineTerminator(b) && NoLineTerminator(c)
    ensures Headers(md) == ("<h2>" + a + "</h2>") + "\n" + ("<h3>" + b + "</h3>") + "\n" + ("<h1>" + c + "</h1>")
  {
    var l1, l2, l3 := "## " + a, "### " + b, "# " + c;
    assert md == l1 + "\n" + l2 + "\n" + l3;
    NoLineTerminatorConcat("## ", a);
    NoLineTerminatorConcat("### ", b);
    NoLineTerminatorConcat("# ", c);
    HeadersPerLine(md);
    ThreeLines(HeaderRules, md, l1, l2, l3);
    HeaderLevel2(a);
    HeaderLevel3(b);
    HeaderLevel1(c);
  }

  /** Three lines, each rewritten alone. */
  lemma ThreeLines(rs: seq<Lines.LineRule>, s: string, l1: string, l2: string, l3: string)
    requires s == l1 + "\n" + l2 + "\n" + l3
    requires NoLineTerminator(l1) && NoLineTerminator(l2) && NoLineTerminator(l3)
    ensures Lines.PerLine(rs, s)
         == Lines.RewriteLineAll(rs, l1) + "\n" + Lines.RewriteLineAll(rs, l2) + "\n" + Lines.RewriteLineAll(rs, l3)
  {
    var rest := l2 + ['\n'] + l3;
    assert s == l1 + ['\n'] + rest;
    Lines.PerLineCons(rs, l1, '\n', rest);
    Lines.PerLineCons(rs, l2, '\n', l3);
    Lines.PerLineLast(rs, l3);
    var r1, r2, r3 := Lines.RewriteLineAll(rs, l1), Lines.RewriteLineAll(rs, l2), Lines.RewriteLineAll(rs, l3);
    var x := r1 + "\n";
    ConcatAssoc(x, r2, "\n");
    ConcatAssoc(x, r2 + "\n", r3);
  }

  /** A bold span and a later italic span are each wrapped on their own and
      the bold text is not touched by the italic rule. */
  lemma BoldAndItalic(md: string, x: string, m: string, y: string)
    requires md == "**" + x + "**" + m + "*" + y + "*"
    requires Inert(x) && Inert(m) && Inert(y) && |y| > 0
    ensures Emphasis(md) == "<strong>" + x + "</strong>" + m + "<em>" + y + "</em>"
  {
    var p, q := "**" + x + "**", "<strong>" + x + "</strong>";
    ConcatAssoc(p, m, "*");
    ConcatAssoc(p, m + "*", y);
    ConcatAssoc(p, m + "*" + y, "*");
    BoldBeforeItalic(x, m + "*" + y + "*");
    LoneStars(m, y);
    ConcatAssoc(q, m, "<em>");
    ConcatAssoc(q, m + "<em>", y);
    ConcatAssoc(q, m + "<em>" + y, "</em>");
  }

  /** `m *y*` holds no `**`, so the bold rule leaves it, and the italic rule
      wraps `y`. */
  lemma LoneStars(m: string, y: string)
    requires Inert(m) && Inert(y) && |y| > 0
    ensures Emphasis(m + "*" + y + "*") == m + "<em>" + y + "</em>"
  {
    var sy := "*" + y + "*";
    ConcatAssoc(m + "*", y, "*");
    ConcatAssoc(m, "*", y + "*");
    assert "*" + (y + "*") == sy;
    BoldSkipsLone(m, y, sy);
    ItalicWrapsLone(m, y, sy);
  }

  lemma BoldSkipsLone(m: string, y: string, sy: string)
    requires Inert(m) && Inert(y) && |y| > 0 && sy == "*" + y + "*"
    ensures Spans.ApplySpan(Spans.Bold, m + sy) == m + sy
  {
    var b := Spans.Bold;
    var t := y + "*";
    ConcatAssoc("*", y, "*");
    assert sy[0] == '*' && sy[1..] == t;
    assert y[0] in y;
    assert t[0] == y[0];
    assert sy[..2][1] == y[0];
    Spans.SpanStep(b, sy);
    Spans.SpanSkip(b, y, "*");
    Spans.SpanUnpaired(b, "*");
    Spans.SpanSkip(b, m, sy);
  }

  lemma ItalicWrapsLone(m: string, y: string, sy: string)
    requires Inert(m) && Inert(y) && sy == "*" + y + "*"
    ensures Spans.ApplySpan(Spans.Italic, m + sy) == m + "<em>" + y + "</em>"
  {
    var it := Spans.Italic;
    Spans.SpanSkip(it, m, sy);
    forall j | 0 <= j < |y| ensures !OccursAt(y + it.delim, it.delim, j) {
      assert (y + it.delim)[j] == y[j];
    }
    assert sy == it.delim + y + it.delim + [];
    Spans.SpanPairs(it, y, []);
    var e := "<em>" + y + "</em>";
    assert Spans.ApplySpan(it, sy) == e by {
      assert e + [] == e;
    }
    ConcatAssoc(m, "<em>", y);
    ConcatAssoc(m, "<em>" + y, "</em>");
  }
}
