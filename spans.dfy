/** The four delimited inline patterns of `parseMarkdown`, each applied with the
    `g` flag: fenced code (script.js:5), inline code (:8), bold (:16), italic (:19).
    Each is a scanner over the text that tries a match at every position from left
    to right and resumes after the end of each match, as `String.prototype.replace`
    does with a global regular expression. */
module Spans {
  import opened Text

  /** `delim (content) delim` rewritten to `open content close`. The closing
      delimiter is always the nearest one after the opener: the non-greedy
      `*?` patterns take the shortest content, and in `` `([^`]+)` `` the content
      cannot hold the delimiter at all. `crossesLines` is false where the content
      is `.*?` (no line terminator); `nonEmpty` is true where it is `+`. */
  datatype SpanRule = SpanRule(delim: string, open: string, close: string, crossesLines: bool, nonEmpty: bool)

  // script.js:5, /```([\s\S]*?)```/g
  const Fence := SpanRule("```", "<pre><code>", "</code></pre>", true, false)
  // script.js:8, /`([^`]+)`/g
  const Tick := SpanRule("`", "<code>", "</code>", true, true)
  // script.js:16, /\*\*(.*?)\*\*/g
  const Bold := SpanRule("**", "<strong>", "</strong>", false, false)
  // script.js:19, /\*(.*?)\*/g
  const Italic := SpanRule("*", "<em>", "</em>", false, false)

  /** The content `x` may sit between two delimiters of `r` and be taken as the
      match: no delimiter starts inside it (not even one running into the closer),
      it holds no line terminator unless `r` crosses lines, and it is non-empty
      where `r` demands so. */
  predicate Content(r: SpanRule, x: string)
    requires |r.delim| > 0
  {
    && (forall j :: 0 <= j < |x| ==> !OccursAt(x + r.delim, r.delim, j))
    && (!r.crossesLines ==> NoLineTerminator(x))
    && (r.nonEmpty ==> |x| > 0)
  }

  /** Where the closing delimiter of a match starting at index 0 of `s` lies. */
  function CloserAt(r: SpanRule, s: string): (k: Option<nat>)
    requires |r.delim| > 0
    ensures k.Some? ==> |r.delim| <= k.value && k.value + |r.delim| <= |s|
    ensures k.Some? ==> Content(r, s[|r.delim|..k.value])
    ensures k.Some? ==> s == r.delim + s[|r.delim|..k.value] + r.delim + s[k.value + |r.delim|..]
  {
    var d := r.delim;
    if !StartsWith(s, d) then None
    else match IndexOf(s, d, |d|)
      case None => None
      case Some(k) =>
        if (r.nonEmpty && k == |d|) || (!r.crossesLines && !NoLineTerminator(s[|d|..k])) then None
        else
          FirstCloserContent(r, s, k);
          Some(k)
  }

  /** The text up to the first closer is a content of `r` when the rule's own
      conditions on it hold. */
  lemma FirstCloserContent(r: SpanRule, s: string, k: nat)
    requires |r.delim| > 0 && StartsWith(s, r.delim)
    requires |r.delim| <= k && OccursAt(s, r.delim, k)
    requires forall j :: |r.delim| <= j < k ==> !OccursAt(s, r.delim, j)
    requires r.nonEmpty ==> k > |r.delim|
    requires !r.crossesLines ==> NoLineTerminator(s[|r.delim|..k])
    ensures Content(r, s[|r.delim|..k])
    ensures s == r.delim + s[|r.delim|..k] + r.delim + s[k + |r.delim|..]
  {
    var d := r.delim;
    var x := s[|d|..k];
    var xd := s[|d|..k + |d|];
    assert x + d == xd;
    forall j | 0 <= j < |x| ensures !OccursAt(x + d, d, j) {
      SliceOfSlice(s, |d|, k + |d|, j, j + |d|);
      assert !OccursAt(s, d, |d| + j);
    }
    assert s == s[..|d|] + s[|d|..k] + s[k..k + |d|] + s[k + |d|..];
  }

  /** A match starts at index 0 exactly when `s` splits into delimiter, content,
      delimiter and the rest of the text. */
  lemma CloserAtMatches(r: SpanRule, s: string)
    requires |r.delim| > 0
    ensures CloserAt(r, s).Some? <==> exists x, rest :: Content(r, x) && s == r.delim + x + r.delim + rest
  {
    var d := r.delim;
    if !StartsWith(s, d) {
      forall x, rest ensures s != d + x + d + rest {
      }
    } else {
      match IndexOf(s, d, |d|)
      case None =>
        NoCloserNoContent(r, s);
      case Some(k) =>
        if (r.nonEmpty && k == |d|) || (!r.crossesLines && !NoLineTerminator(s[|d|..k])) {
          FirstCloserOnly(r, s, k);
        }
    }
  }

  /** If `s` opens with the delimiter and has no later delimiter, no content fits. */
  lemma NoCloserNoContent(r: SpanRule, s: string)
    requires |r.delim| > 0 && StartsWith(s, r.delim)
    requires forall j :: |r.delim| <= j ==> !OccursAt(s, r.delim, j)
    ensures forall x, rest :: !(Content(r, x) && s == r.delim + x + r.delim + rest)
  {
    var d := r.delim;
    forall x, rest | s == d + x + d + rest ensures false {
      assert s[|d| + |x|..|d| + |x| + |d|] == d;
      assert OccursAt(s, d, |d| + |x|);
    }
  }

  /** Every content ends at the first closer, so if that one is refused, every one is. */
  lemma FirstCloserOnly(r: SpanRule, s: string, k: nat)
    requires |r.delim| > 0 && StartsWith(s, r.delim)
    requires |r.delim| <= k && OccursAt(s, r.delim, k)
    requires forall j :: |r.delim| <= j < k ==> !OccursAt(s, r.delim, j)
    requires (r.nonEmpty && k == |r.delim|) || (!r.crossesLines && !NoLineTerminator(s[|r.delim|..k]))
    ensures forall x, rest :: !(Content(r, x) && s == r.delim + x + r.delim + rest)
  {
    var d := r.delim;
    forall x, rest | Content(r, x) && s == d + x + d + rest ensures false {
      var n := |d| + |x|;
      if n > k {
        // The first closer would start inside x.
        var j := k - |d|;
        assert (x + d)[j..j + |d|] == s[k..k + |d|];
        assert OccursAt(x + d, d, j);
      } else if n < k {
        assert s[n..n + |d|] == d;
        assert OccursAt(s, d, n);
      }
    }
  }

  /** One global replacement of `r` over `s`, scanning from the left. */
  function ApplySpan(r: SpanRule, s: string): string
    requires |r.delim| > 0
    decreases |s|
  {
    if s == [] then []
    else match CloserAt(r, s)
      case Some(k) => r.open + s[|r.delim|..k] + r.close + ApplySpan(r, s[k + |r.delim|..])
      case None => [s[0]] + ApplySpan(r, s[1..])
  }

  /** An opener pairs with the nearest following delimiter: the text between
      them is wrapped in `open`/`close`, unchanged, and scanning resumes after
      the closer. */
  lemma {:induction false} SpanPairs(r: SpanRule, x: string, rest: string)
    requires |r.delim| > 0 && Content(r, x)
    ensures ApplySpan(r, r.delim + x + r.delim + rest) == r.open + x + r.close + ApplySpan(r, rest)
  {
    var d := r.delim;
    var s := d + x + d + rest;
    CloserAtMatches(r, s);
    var k := CloserAt(r, s).value;
    SamePairing(r, x, rest, s[|d|..k], s[k + |d|..]);
  }

  /** Two splittings of one text into delimiter, content, delimiter, rest agree. */
  lemma SamePairing(r: SpanRule, x: string, rest: string, y: string, rest': string)
    requires |r.delim| > 0 && Content(r, x) && Content(r, y)
    requires r.delim + x + r.delim + rest == r.delim + y + r.delim + rest'
    ensures x == y && rest == rest'
  {
    var d := r.delim;
    var s := d + x + d + rest;
    if |x| < |y| {
      assert (y + d)[|x|..|x| + |d|] == s[|d| + |x|..|d| + |x| + |d|];
      assert OccursAt(y + d, d, |x|);
    } else if |y| < |x| {
      assert (x + d)[|y|..|y| + |d|] == s[|d| + |y|..|d| + |y| + |d|];
      assert OccursAt(x + d, d, |y|);
    }
    assert x == s[|d|..|d| + |x|];
    assert rest == s[|d| + |x| + |d|..];
  }

  /** Text holding no character that begins the delimiter passes through untouched. */
  lemma {:induction false} SpanSkip(r: SpanRule, t: string, rest: string)
    requires |r.delim| > 0 && r.delim[0] !in t
    ensures ApplySpan(r, t + rest) == t + ApplySpan(r, rest)
  {
    if t != [] {
      var s := t + rest;
      assert s[0] == t[0];
      assert !StartsWith(s, r.delim);
      assert CloserAt(r, s) == None;
      assert ApplySpan(r, s) == [s[0]] + ApplySpan(r, s[1..]);
      assert s[1..] == t[1..] + rest;
      assert r.delim[0] !in t[1..];
      SpanSkip(r, t[1..], rest);
      calc {
        ApplySpan(r, s);
        [s[0]] + ApplySpan(r, t[1..] + rest);
        [t[0]] + (t[1..] + ApplySpan(r, rest));
        { assert t == [t[0]] + t[1..]; }
        t + ApplySpan(r, rest);
      }
    } else {
      assert t + rest == rest;
    }
  }

  /** Where no delimiter opens the text, its first character is kept as it is. */
  lemma SpanStep(r: SpanRule, s: string)
    requires |r.delim| > 0 && s != [] && !StartsWith(s, r.delim)
    ensures ApplySpan(r, s) == [s[0]] + ApplySpan(r, s[1..])
  {
  }

  /** Without two delimiters at least one delimiter's length apart, nothing can
      pair, so an unpaired delimiter is left as it is. */
  lemma {:induction false} SpanUnpaired(r: SpanRule, s: string)
    requires |r.delim| > 0
    requires forall i, j :: OccursAt(s, r.delim, i) && i + |r.delim| <= j ==> !OccursAt(s, r.delim, j)
    ensures ApplySpan(r, s) == s
  {
    var d := r.delim;
    if s != [] {
      CloserOccurs(r, s);
      assert forall j :: OccursAt(s, d, 0) && |d| <= j ==> !OccursAt(s, d, j);
      assert CloserAt(r, s).None?;
      forall i, j | OccursAt(s[1..], d, i) && i + |d| <= j ensures !OccursAt(s[1..], d, j) {
        assert s[1..][i..i + |d|] == s[i + 1..i + 1 + |d|];
        assert OccursAt(s, d, i + 1);
        if OccursAt(s[1..], d, j) {
          assert s[1..][j..j + |d|] == s[j + 1..j + 1 + |d|];
          assert OccursAt(s, d, j + 1);
        }
      }
      SpanUnpaired(r, s[1..]);
    }
  }

  /** A match found at index 0 opens and closes with the delimiter. */
  lemma CloserOccurs(r: SpanRule, s: string)
    requires |r.delim| > 0
    ensures CloserAt(r, s).Some? ==> OccursAt(s, r.delim, 0) && OccursAt(s, r.delim, CloserAt(r, s).value)
  {
    var d := r.delim;
    if CloserAt(r, s).Some? {
      var k := CloserAt(r, s).value;
      var x := s[|d|..k];
      var rest := s[k + |d|..];
      assert s == d + x + d + rest;
      assert s[..|d|] == d;
      assert s[k..k + |d|] == d;
    }
  }

  /** An unpaired delimiter: one opener with no further delimiter after it. */
  lemma SpanLoneOpener(r: SpanRule, x: string)
    requires |r.delim| > 0
    requires forall j :: !OccursAt(x, r.delim, j)
    ensures ApplySpan(r, r.delim + x) == r.delim + x
  {
    var d := r.delim;
    var s := d + x;
    forall i, j | OccursAt(s, d, i) && i + |d| <= j ensures !OccursAt(s, d, j) {
      if j + |d| <= |s| {
        var k := j - |d|;
        assert x == s[|d|..|s|];
        SliceOfSlice(s, |d|, |s|, k, k + |d|);
        assert |d| + k == j && |d| + (k + |d|) == j + |d|;
        assert x[k..k + |d|] == s[j..j + |d|];
        assert !OccursAt(x, d, k);
      }
    }
    SpanUnpaired(r, s);
  }

  /** A rule whose content cannot cross lines finds no match in `d m d` when
      `m` holds a line terminator and no character that begins `d`. */
  lemma NoCloserAcrossLines(r: SpanRule, m: string)
    requires |r.delim| > 0 && !r.crossesLines
    requires r.delim[0] !in m && !NoLineTerminator(m)
    ensures CloserAt(r, r.delim + m + r.delim).None?
  {
    var d := r.delim;
    var s := d + m + d;
    var e := |d| + |m|;
    assert s[e..e + |d|] == d;
    forall j | |d| <= j < e ensures !OccursAt(s, d, j) {
      assert s[j] == m[j - |d|] && m[j - |d|] in m;
      if j + |d| <= |s| {
        assert s[j..j + |d|][0] == s[j];
      }
    }
    assert OccursAt(s, d, e);
    var k := IndexOf(s, d, |d|);
    assert k.Some?;
    assert k.value == e;
    assert s[|d|..e] == m;
  }

  /** Text holding no character that begins the delimiter is left as it is. */
  lemma SpanNone(r: SpanRule, s: string)
    requires |r.delim| > 0 && r.delim[0] !in s
    ensures ApplySpan(r, s) == s
  {
    SpanSkip(r, s, []);
    assert s + [] == s;
  }
}
