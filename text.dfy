/** Character and substring vocabulary shared by every scanner of the model.
    Strings are `seq<char>`; one Dafny `char` is one Unicode scalar value, so a
    character above U+FFFF is one `char` where JavaScript sees two code units. */
module Text {

  datatype Option<T> = None | Some(value: T)

  /** The characters JavaScript treats as line terminators: the ones `.` refuses
      to match and the ones `^` and `$` anchor at under the `m` flag. */
  predicate IsLineTerminator(c: char) {
    c == '\n' || c == '\r' || c == '\U{2028}' || c == '\U{2029}'
  }

  predicate NoLineTerminator(s: string) {
    forall i :: 0 <= i < |s| ==> !IsLineTerminator(s[i])
  }

  /** `d` occurs in `s` starting at index `i`. */
  predicate OccursAt(s: string, d: string, i: int) {
    0 <= i && i + |d| <= |s| && s[i..i + |d|] == d
  }

  predicate StartsWith(s: string, p: string) {
    |p| <= |s| && s[..|p|] == p
  }

  predicate EndsWith(s: string, p: string) {
    |p| <= |s| && s[|s| - |p|..] == p
  }

  /** Index of the first occurrence of `d` in `s` at or after `from`. */
  function IndexOf(s: string, d: string, from: nat): (k: Option<nat>)
    requires |d| > 0
    ensures k.Some? ==> from <= k.value && OccursAt(s, d, k.value)
    ensures k.Some? ==> forall j :: from <= j < k.value ==> !OccursAt(s, d, j)
    ensures k.None? ==> forall j :: from <= j ==> !OccursAt(s, d, j)
    decreases |s| - from
  {
    if from + |d| > |s| then None
    else if s[from..from + |d|] == d then Some(from)
    else IndexOf(s, d, from + 1)
  }

  /** Index of the last occurrence of `d` in `s` that starts before `upto`. */
  function LastIndexOf(s: string, d: string, upto: nat): (k: Option<nat>)
    requires |d| > 0
    ensures k.Some? ==> k.value < upto && OccursAt(s, d, k.value)
    ensures k.Some? ==> forall j :: k.value < j < upto ==> !OccursAt(s, d, j)
    ensures k.None? ==> forall j :: 0 <= j < upto ==> !OccursAt(s, d, j)
  {
    if upto == 0 then None
    else if OccursAt(s, d, upto - 1) then Some(upto - 1)
    else LastIndexOf(s, d, upto - 1)
  }

  /** Length of the first line of `s`: the index of its first line terminator, or `|s|`. */
  function LineEnd(s: string): (e: nat)
    ensures e <= |s| && NoLineTerminator(s[..e])
    ensures e < |s| ==> IsLineTerminator(s[e])
  {
    if s == [] || IsLineTerminator(s[0]) then 0 else 1 + LineEnd(s[1..])
  }

  lemma LineEndOfLine(line: string, tail: string)
    requires NoLineTerminator(line)
    requires tail == [] || IsLineTerminator(tail[0])
    ensures LineEnd(line + tail) == |line|
  {
    if line != [] {
      assert (line + tail)[1..] == line[1..] + tail;
      LineEndOfLine(line[1..], tail);
    }
  }

  lemma SliceOfSlice(s: string, a: nat, b: nat, i: nat, j: nat)
    requires a <= b <= |s| && i <= j <= b - a
    ensures s[a..b][i..j] == s[a + i..a + j]
  {
    assert forall m :: 0 <= m < j - i ==> s[a..b][i..j][m] == s[a + i..a + j][m];
  }

  lemma NoLineTerminatorConcat(x: string, y: string)
    requires NoLineTerminator(x) && NoLineTerminator(y)
    ensures NoLineTerminator(x + y)
  {
    forall i | 0 <= i < |x + y| ensures !IsLineTerminator((x + y)[i]) {
      if i >= |x| { assert (x + y)[i] == y[i - |x|]; }
    }
  }

  lemma ConcatAssoc(a: string, b: string, c: string)
    ensures a + b + c == a + (b + c)
  {
  }
}
