/** The order `Array.prototype.sort()` puts strings in when given no comparator
    (script.js:63 and :164): character by character, a proper prefix first. */
module Order {

  /** `a` sorts no later than `b`. */
  predicate Below(a: string, b: string)
    decreases |a|
  {
    a == [] || (b != [] && (a[0] < b[0] || (a[0] == b[0] && Below(a[1..], b[1..]))))
  }

  lemma {:induction false} BelowRefl(a: string)
    ensures Below(a, a)
    decreases |a|
  {
    if a != [] {
      BelowRefl(a[1..]);
    }
  }

  lemma {:induction false} BelowTotal(a: string, b: string)
    ensures Below(a, b) || Below(b, a)
    decreases |a|
  {
    if a != [] && b != [] && a[0] == b[0] {
      BelowTotal(a[1..], b[1..]);
    }
  }

  lemma {:induction false} BelowAntisym(a: string, b: string)
    requires Below(a, b) && Below(b, a)
    ensures a == b
    decreases |a|
  {
    if a != [] && b != [] {
      BelowAntisym(a[1..], b[1..]);
      assert a == [a[0]] + a[1..] && b == [b[0]] + b[1..];
    }
  }

  lemma {:induction false} BelowTrans(a: string, b: string, c: string)
    requires Below(a, b) && Below(b, c)
    ensures Below(a, c)
    decreases |a|
  {
    if a != [] && a[0] == b[0] && b[0] == c[0] {
      BelowTrans(a[1..], b[1..], c[1..]);
    }
  }

  predicate Ascending(s: seq<string>) {
    forall i, j :: 0 <= i < j < |s| ==> Below(s[i], s[j])
  }

  predicate Descending(s: seq<string>) {
    forall i, j :: 0 <= i < j < |s| ==> Below(s[j], s[i])
  }

  /** `x` sorts no later than any element of `s`. */
  predicate LowerBound(x: string, s: seq<string>) {
    forall i :: 0 <= i < |s| ==> Below(x, s[i])
  }

  /** `x` placed before the first element it sorts no later than. */
  function Insert(x: string, s: seq<string>): (r: seq<string>)
    requires Ascending(s)
    ensures Ascending(r)
    ensures multiset(r) == multiset(s) + multiset{x}
    decreases |s|
  {
    if s == [] then [x]
    else if Below(x, s[0]) then
      BoundedBySmallest(x, s);
      assert s == [s[0]] + s[1..];
      [x] + s
    else
      var r' := Insert(x, s[1..]);
      BelowTotal(x, s[0]);
      assert s == [s[0]] + s[1..];
      BoundOfElements(s[0], r', s[1..], x);
      [s[0]] + r'
  }

  /** What sorts no later than the first element of an ascending sequence sorts
      no later than all of it, and heads it in ascending order. */
  lemma BoundedBySmallest(x: string, s: seq<string>)
    requires Ascending(s) && s != [] && Below(x, s[0])
    ensures Ascending([x] + s)
  {
    forall i | 0 <= i < |s| ensures Below(x, s[i]) {
      if i > 0 {
        BelowTrans(x, s[0], s[i]);
      }
    }
  }

  /** A lower bound of `t` and of `y` is a lower bound of any rearrangement of
      `t` with `y`, and heads it in ascending order. */
  lemma BoundOfElements(x: string, r: seq<string>, t: seq<string>, y: string)
    requires Ascending(r) && LowerBound(x, t) && Below(x, y)
    requires multiset(r) == multiset(t) + multiset{y}
    ensures Ascending([x] + r)
  {
    forall i | 0 <= i < |r| ensures Below(x, r[i]) {
      assert r[i] in multiset(r);
      if r[i] != y {
        assert r[i] in multiset(t);
        assert r[i] in t;
      }
    }
  }

  /** script.js:164 `files.sort()`, as the sequence it leaves behind. */
  function Sort(s: seq<string>): (r: seq<string>)
    ensures Ascending(r)
    ensures multiset(r) == multiset(s)
    decreases |s|
  {
    if s == [] then []
    else
      assert s == [s[0]] + s[1..];
      Insert(s[0], Sort(s[1..]))
  }

  /** Only one ascending arrangement of a multiset of strings exists, so any
      sort that puts its elements in ascending order gives the result of `Sort`. */
  lemma {:induction false} AscendingUnique(a: seq<string>, b: seq<string>)
    requires Ascending(a) && Ascending(b) && multiset(a) == multiset(b)
    ensures a == b
    decreases |a|
  {
    if a == [] {
      assert |b| == |multiset(b)| == 0;
    } else {
      SmallestFirst(a, b);
      SmallestFirst(b, a);
      BelowAntisym(a[0], b[0]);
      DropHead(a);
      DropHead(b);
      AscendingUnique(a[1..], b[1..]);
      assert |a| == |b| by { assert |a| == |multiset(a)|; }
      assert forall k :: 0 <= k < |a| ==> a[k] == b[k] by {
        forall k | 0 <= k < |a| ensures a[k] == b[k] {
          if k > 0 { assert a[k] == a[1..][k - 1] && b[k] == b[1..][k - 1]; }
        }
      }
    }
  }

  /** The head of an ascending sequence sorts no later than anything in it. */
  lemma SmallestFirst(a: seq<string>, b: seq<string>)
    requires Ascending(b) && a != [] && multiset(a) == multiset(b)
    ensures b != [] && Below(b[0], a[0])
  {
    assert a[0] in multiset(b);
    var i :| 0 <= i < |b| && b[i] == a[0];
    if i == 0 {
      BelowRefl(b[0]);
    }
  }

  lemma DropHead(a: seq<string>)
    requires Ascending(a) && a != []
    ensures Ascending(a[1..])
    ensures multiset(a[1..]) == multiset(a) - multiset{a[0]}
  {
    assert a == [a[0]] + a[1..];
  }

  /** `Array.prototype.reverse()` as the sequence it leaves behind. */
  function Reverse(s: seq<string>): (r: seq<string>)
    ensures |r| == |s|
    ensures forall i :: 0 <= i < |s| ==> r[i] == s[|s| - 1 - i]
    decreases |s|
  {
    if s == [] then [] else Reverse(s[1..]) + [s[0]]
  }

  /** Reversing an ascending sequence gives a descending one with the same elements. */
  lemma {:induction false} ReverseAscending(s: seq<string>)
    requires Ascending(s)
    ensures Descending(Reverse(s))
    ensures multiset(Reverse(s)) == multiset(s)
    decreases |s|
  {
    if s != [] {
      ReverseAscending(s[1..]);
      assert s == [s[0]] + s[1..];
    }
  }
}
