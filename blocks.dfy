/** The two whole-text stages at the end of `parseMarkdown`: the single list
    wrap (script.js:26) and the paragraph breaks (script.js:29). */
module Blocks {
  import opened Text

  const LiOpen := "<li>"
  const LiClose := "</li>"

  /** Where the one match of `/(<li>.*<\/li>)/s` lies, if there is one. The
      pattern has no `g` flag, so only its leftmost match is replaced; `.` under
      the `s` flag crosses line terminators and `.*` is greedy, so the match
      runs from the first `<li>` to the last `</li>` after it. */
  function ListSpan(s: string): (span: Option<(nat, nat)>)
    ensures span.Some? ==>
      && OccursAt(s, LiOpen, span.value.0)
      && OccursAt(s, LiClose, span.value.1)
      && span.value.0 + |LiOpen| <= span.value.1
    ensures span.Some? ==> forall j :: 0 <= j < span.value.0 ==> !OccursAt(s, LiOpen, j)
    ensures span.Some? ==> forall j :: span.value.1 < j ==> !OccursAt(s, LiClose, j)
    ensures span.None? <==> forall p, k :: OccursAt(s, LiOpen, p) && p + |LiOpen| <= k ==> !OccursAt(s, LiClose, k)
  {
    match IndexOf(s, LiOpen, 0)
    case None => None
    case Some(p) =>
      match LastIndexOf(s, LiClose, |s|)
      case None => None
      case Some(k) => if p + |LiOpen| <= k then Some((p, k)) else None
  }

  /** script.js:26: the list span, if any, wrapped once in `<ul>…</ul>`. */
  function WrapList(s: string): (out: string)
    ensures out == s <==> ListSpan(s).None?
  {
    match ListSpan(s)
    case None => s
    case Some((p, k)) =>
      var e := k + |LiClose|;
      s[..p] + "<ul>" + s[p..e] + "</ul>" + s[e..]
  }

  /** There are no two consecutive newlines. */
  predicate NoBlankLine(s: string) {
    |s| < 2 || (!(s[0] == '\n' && s[1] == '\n') && NoBlankLine(s[1..]))
  }

  /** script.js:29, `/\n\n/g`: every pair of newlines, taken left to right
      without overlap, becomes `</p><p>`. */
  function BreakParagraphs(s: string): string
    decreases |s|
  {
    if |s| < 2 then s
    else if s[0] == '\n' && s[1] == '\n' then "</p><p>" + BreakParagraphs(s[2..])
    else [s[0]] + BreakParagraphs(s[1..])
  }

  /** No blank line survives the paragraph stage, and the output starts with a
      newline only where the input starts with a lone one. */
  lemma {:induction false} BreakLeavesNoBlankLine(s: string)
    ensures NoBlankLine(BreakParagraphs(s))
    ensures |s| > 0 ==> |BreakParagraphs(s)| > 0
    ensures |s| > 0 ==> (BreakParagraphs(s)[0] == '\n' <==> s[0] == '\n' && (|s| == 1 || s[1] != '\n'))
    decreases |s|
  {
    if |s| >= 2 {
      var r := BreakParagraphs(s);
      if s[0] == '\n' && s[1] == '\n' {
        var tail := BreakParagraphs(s[2..]);
        BreakLeavesNoBlankLine(s[2..]);
        NoBlankLineAfterTag("</p><p>", tail);
      } else {
        var tail := BreakParagraphs(s[1..]);
        BreakLeavesNoBlankLine(s[1..]);
        assert r == [s[0]] + tail;
        assert r[1..] == tail;
      }
    }
  }

  lemma {:induction false} NoBlankLineAfterTag(t: string, rest: string)
    requires '\n' !in t && NoBlankLine(rest)
    ensures NoBlankLine(t + rest)
  {
    if t == [] {
      assert t + rest == rest;
    } else {
      assert (t + rest)[0] == t[0] != '\n';
      assert (t + rest)[1..] == t[1..] + rest;
      NoBlankLineAfterTag(t[1..], rest);
    }
  }

  lemma {:induction false} NoBlankLineBeforeTag(x: string, t: string)
    requires NoBlankLine(x) && '\n' !in t
    ensures NoBlankLine(x + t)
    decreases |x|
  {
    if x == [] {
      NoBlankLineAfterTag(t, []);
      assert x + t == t + [];
    } else {
      assert (x + t)[1..] == x[1..] + t;
      NoBlankLineBeforeTag(x[1..], t);
      if |x| == 1 && t != [] {
        assert (x + t)[1] == t[0];
      }
    }
  }

  /** Text without a blank line is left as it is. */
  lemma {:induction false} BreakIdentity(s: string)
    requires NoBlankLine(s)
    ensures BreakParagraphs(s) == s
    decreases |s|
  {
    if |s| >= 2 {
      BreakIdentity(s[1..]);
      assert s == [s[0]] + s[1..];
    }
  }

  /** Text without a newline passes through the paragraph stage untouched. */
  lemma {:induction false} BreakSkip(t: string, rest: string)
    requires '\n' !in t
    ensures BreakParagraphs(t + rest) == t + BreakParagraphs(rest)
  {
    if t == [] {
      assert t + rest == rest;
    } else {
      var s := t + rest;
      if |s| < 2 {
        assert rest == [] && s == t;
      } else {
        assert s[0] == t[0] && s[1..] == t[1..] + rest;
        assert BreakParagraphs(s) == [t[0]] + BreakParagraphs(t[1..] + rest);
        BreakSkip(t[1..], rest);
        assert t == [t[0]] + t[1..];
      }
    }
  }

  /** Text holding no `<li>` has no list span and is not wrapped. */
  lemma NoItemNoWrap(s: string)
    requires forall p :: !OccursAt(s, LiOpen, p)
    ensures WrapList(s) == s
  {
  }

  /** Text without a newline is left as it is by the paragraph stage. */
  lemma BreakNone(s: string)
    requires '\n' !in s
    ensures BreakParagraphs(s) == s
  {
    BreakSkip(s, []);
    assert s + [] == s;
  }

  /** Text that begins with `<li>` and ends with `</li>` is wrapped whole in
      one `<ul>`, whatever lies between: the match is greedy. */
  lemma WrapWhole(u: string)
    requires |u| >= |LiOpen| + |LiClose| && StartsWith(u, LiOpen) && EndsWith(u, LiClose)
    ensures WrapList(u) == "<ul>" + u + "</ul>"
  {
    var k := |u| - |LiClose|;
    assert OccursAt(u, LiOpen, 0) && OccursAt(u, LiClose, k);
    var span := ListSpan(u);
    assert span.Some?;
    var (p, q) := span.value;
    assert p == 0 && q == k;
    assert u[..0] == [] && u[0..|u|] == u && u[|u|..] == [];
  }

  /** The pieces `/\n\n/g` cuts the text into: the blank lines taken left to
      right without overlap, so that the text between two of them is the
      paragraph. The first piece is a prefix of the text, and when there is a
      second one a blank line follows the first piece. */
  function Paragraphs(s: string): (ps: seq<string>)
    ensures |ps| > 0 && StartsWith(s, ps[0])
    ensures |ps| > 1 ==> OccursAt(s, "\n\n", |ps[0]|)
    decreases |s|
  {
    if |s| < 2 then [s]
    else if s[0] == '\n' && s[1] == '\n' then [[]] + Paragraphs(s[2..])
    else
      var ps := Paragraphs(s[1..]);
      assert s[1..][..|ps[0]|] == ps[0];
      assert s[..|ps[0]| + 1] == [s[0]] + ps[0];
      assert |ps| > 1 ==> s[|ps[0]| + 1..|ps[0]| + 3] == s[1..][|ps[0]|..|ps[0]| + 2];
      [[s[0]] + ps[0]] + ps[1..]
  }

  /** The pieces put back together with `sep` between each two. */
  function Join(ps: seq<string>, sep: string): string
    requires |ps| > 0
    decreases |ps|
  {
    if |ps| == 1 then ps[0] else ps[0] + sep + Join(ps[1..], sep)
  }

  lemma JoinCons(c: char, ps: seq<string>, sep: string)
    requires |ps| > 0
    ensures Join([[c] + ps[0]] + ps[1..], sep) == [c] + Join(ps, sep)
  {
    var qs := [[c] + ps[0]] + ps[1..];
    if |ps| > 1 {
      assert qs[1..] == ps[1..];
      ConcatAssoc([c], ps[0], sep);
      ConcatAssoc([c], ps[0] + sep, Join(ps[1..], sep));
    }
  }

  /** Cutting loses nothing: the pieces joined with the blank line they were
      cut at give the text back. */
  lemma {:induction false} ParagraphsJoin(s: string)
    ensures Join(Paragraphs(s), "\n\n") == s
    decreases |s|
  {
    if |s| >= 2 {
      if s[0] == '\n' && s[1] == '\n' {
        ParagraphsJoin(s[2..]);
        var ps := Paragraphs(s[2..]);
        assert ([[]] + ps)[1..] == ps;
        assert s == "\n\n" + s[2..];
      } else {
        ParagraphsJoin(s[1..]);
        JoinCons(s[0], Paragraphs(s[1..]), "\n\n");
        assert s == [s[0]] + s[1..];
      }
    }
  }

  /** script.js:29 replaces exactly those blank lines: the paragraph stage is
      the pieces joined with `</p><p>`. */
  lemma {:induction false} BreakIsJoin(s: string)
    ensures BreakParagraphs(s) == Join(Paragraphs(s), "</p><p>")
    decreases |s|
  {
    if |s| >= 2 {
      if s[0] == '\n' && s[1] == '\n' {
        BreakIsJoin(s[2..]);
        var ps := Paragraphs(s[2..]);
        assert ([[]] + ps)[1..] == ps;
        assert [] + "</p><p>" == "</p><p>";
      } else {
        BreakIsJoin(s[1..]);
        JoinCons(s[0], Paragraphs(s[1..]), "</p><p>");
      }
    }
  }

  /** No piece holds a blank line, and every piece but the last ends other
      than in a newline, so each cut is the leftmost blank line left. */
  lemma {:induction false} ParagraphsShape(s: string)
    ensures forall i :: 0 <= i < |Paragraphs(s)| ==> NoBlankLine(Paragraphs(s)[i])
    ensures forall i :: 0 <= i < |Paragraphs(s)| - 1 ==> var p := Paragraphs(s)[i]; p == [] || p[|p| - 1] != '\n'
    decreases |s|
  {
    var ps := Paragraphs(s);
    if |s| < 2 {
      assert NoBlankLine(s) by {
        if |s| == 1 { assert s[1..] == []; }
      }
    } else if s[0] == '\n' && s[1] == '\n' {
      ParagraphsShape(s[2..]);
      var qs := Paragraphs(s[2..]);
      assert forall i :: 1 <= i < |ps| ==> ps[i] == qs[i - 1];
    } else {
      ParagraphsShape(s[1..]);
      var qs := Paragraphs(s[1..]);
      var p := [s[0]] + qs[0];
      assert ps[0] == p && forall i :: 1 <= i < |ps| ==> ps[i] == qs[i];
      assert p[1..] == qs[0];
      assert |qs[0]| > 0 ==> qs[0][0] == s[1];
      assert NoBlankLine(p);
      if |ps| > 1 {
        assert OccursAt(s[1..], "\n\n", |qs[0]|);
        assert s[1..][|qs[0]|..|qs[0]| + 2][0] == '\n';
        assert qs[0] == [] ==> s[1] == '\n';
        assert p[|p| - 1] != '\n';
      }
    }
  }
}
