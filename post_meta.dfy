/** The date and the title `loadBlogPosts` reads off a blog file name
    (script.js:74-79). */
module PostMeta {
  import opened Text

  /** `\d` without the `u` flag: an ASCII digit. */
  predicate IsDigit(c: char) {
    '0' <= c <= '9'
  }

  /** `w` has the shape `\d{4}-\d{2}-\d{2}`. */
  predicate IsDate(w: string) {
    && |w| == 10
    && (forall i :: 0 <= i < 10 && i != 4 && i != 7 ==> IsDigit(w[i]))
    && w[4] == '-' && w[7] == '-'
  }

  /** A date starts at index `p` of `s`. */
  predicate DateAt(s: string, p: int) {
    0 <= p && p + 10 <= |s| && IsDate(s[p..p + 10])
  }

  /** The leftmost index at or after `from` where a date starts. */
  function FirstDate(s: string, from: nat): (p: Option<nat>)
    ensures p.Some? ==> from <= p.value && DateAt(s, p.value)
    ensures p.Some? ==> forall q :: from <= q < p.value ==> !DateAt(s, q)
    ensures p.None? ==> forall q :: from <= q ==> !DateAt(s, q)
    decreases |s| - from
  {
    if from + 10 > |s| then None
    else if IsDate(s[from..from + 10]) then Some(from)
    else FirstDate(s, from + 1)
  }

  /** script.js:74-75: the first date in the name, or `undated`. */
  function ExtractDate(file: string): (date: string)
    ensures IsDate(date) <==> exists p :: DateAt(file, p)
    ensures !IsDate(date) ==> date == "undated"
  {
    match FirstDate(file, 0)
    case Some(p) => file[p..p + 10]
    case None => "undated"
  }

  /** The date read off a name is the one that starts leftmost. */
  lemma ExtractDateLeftmost(file: string, p: nat)
    requires DateAt(file, p) && forall q :: 0 <= q < p ==> !DateAt(file, q)
    ensures ExtractDate(file) == file[p..p + 10]
  {
  }

  /** The capture `(.+)` of `/\d{4}-\d{2}-\d{2}-(.+)\.(md|txt)$/` for a match
      starting at `p`, if one starts there. Without the `m` flag `$` is the end
      of the name, so the capture runs from after the date and its hyphen up to
      the final `.md` or `.txt`; `.` refuses line terminators and `+` an empty
      capture. */
  function TitleAt(file: string, p: nat): (x: Option<string>)
    ensures x.Some? ==> |x.value| > 0 && NoLineTerminator(x.value)
    ensures x.Some? ==> DateAt(file, p) && (file == file[..p + 10] + "-" + x.value + ".md" || file == file[..p + 10] + "-" + x.value + ".txt")
  {
    if !(DateAt(file, p) && p + 11 <= |file| && file[p + 10] == '-') then None
    else
      var rest := file[p + 11..];
      assert file == file[..p + 10] + "-" + rest;
      if |rest| > 3 && EndsWith(rest, ".md") && NoLineTerminator(rest[..|rest| - 3]) then
        assert rest == rest[..|rest| - 3] + ".md";
        Some(rest[..|rest| - 3])
      else if |rest| > 4 && EndsWith(rest, ".txt") && NoLineTerminator(rest[..|rest| - 4]) then
        assert rest == rest[..|rest| - 4] + ".txt";
        Some(rest[..|rest| - 4])
      else None
  }

  /** The capture of the leftmost match starting at or after `from`. */
  function FirstTitle(file: string, from: nat): (x: Option<string>)
    ensures x.None? ==> forall q :: from <= q ==> TitleAt(file, q).None?
    ensures x.Some? ==> exists p :: from <= p && TitleAt(file, p) == x && forall q :: from <= q < p ==> TitleAt(file, q).None?
    decreases |file| - from
  {
    if from >= |file| then
      assert forall q :: from <= q ==> !DateAt(file, q);
      None
    else match TitleAt(file, from)
      case Some(x) => Some(x)
      case None => FirstTitle(file, from + 1)
  }

  /** `replace(/-/g, ' ')`: every hyphen becomes a space. */
  function Dehyphenate(s: string): (r: string)
    ensures |r| == |s| && '-' !in r
    ensures forall i :: 0 <= i < |s| && s[i] != '-' ==> r[i] == s[i]
    ensures forall i :: 0 <= i < |s| && s[i] == '-' ==> r[i] == ' '
    decreases |s|
  {
    if s == [] then [] else [if s[0] == '-' then ' ' else s[0]] + Dehyphenate(s[1..])
  }

  /** script.js:78-79: the capture with its hyphens made spaces, or else the
      whole name as it is. */
  function ExtractTitle(file: string): (title: string)
    ensures title == file <==> FirstTitle(file, 0).None?
    ensures FirstTitle(file, 0).Some? ==> |title| > 0 && '-' !in title
  {
    match FirstTitle(file, 0)
    case Some(x) => Dehyphenate(x)
    case None => file
  }

  /** A name of the form `date-slug.md` or `date-slug.txt` gives back its
      date, and its slug with the hyphens made spaces as its title. */
  lemma DatedName(file: string, date: string, slug: string, ext: string)
    requires IsDate(date) && |slug| > 0 && NoLineTerminator(slug)
    requires ext == ".md" || ext == ".txt"
    requires file == date + "-" + slug + ext
    ensures ExtractDate(file) == date
    ensures ExtractTitle(file) == Dehyphenate(slug)
  {
    var rest := slug + ext;
    ConcatAssoc(date + "-", slug, ext);
    DatedPrefix(file, date, rest);
    ExtractDateLeftmost(file, 0);
    SlugCapture(file, rest, slug, ext);
    assert ExtractTitle(file) == Dehyphenate(slug);
  }

  lemma DatedPrefix(file: string, date: string, rest: string)
    requires IsDate(date) && file == date + "-" + rest
    ensures DateAt(file, 0) && file[..10] == date && file == file[..10] + "-" + rest
  {
    assert file[..10] == date;
  }

  /** With a date at the start of the name, the capture is what lies between
      the date's hyphen and the extension. */
  lemma SlugCapture(file: string, rest: string, slug: string, ext: string)
    requires DateAt(file, 0) && file == file[..10] + "-" + rest
    requires rest == slug + ext && |slug| > 0 && NoLineTerminator(slug)
    requires ext == ".md" || ext == ".txt"
    ensures TitleAt(file, 0) == Some(slug)
    ensures FirstTitle(file, 0) == Some(slug)
  {
    assert file[11..] == rest;
    if ext == ".md" {
      assert rest[..|rest| - 3] == slug;
    } else {
      assert rest[|rest| - 1] == 't';
      assert rest[..|rest| - 4] == slug;
    }
  }

  /** The converse of `TitleAt`'s contract: wherever a date, its hyphen, a
      non-empty single-line slug and a final `.md` or `.txt` start, the pattern
      matches there and captures the slug. */
  lemma TitleAtShape(file: string, p: nat, x: string, ext: string)
    requires DateAt(file, p) && p + 11 <= |file| && file[p + 10] == '-'
    requires file[p + 11..] == x + ext && (ext == ".md" || ext == ".txt")
    requires |x| > 0 && NoLineTerminator(x)
    ensures TitleAt(file, p) == Some(x)
  {
    var rest := file[p + 11..];
    if ext == ".md" {
      assert rest[..|rest| - 3] == x;
    } else {
      assert rest[|rest| - 1] == 't';
      assert rest[..|rest| - 4] == x;
    }
  }

  /** A date-slug name behind a date-free prefix, such as
      `notes-2024-01-15-x.txt`: the first date and the first title match both
      start after the prefix. */
  lemma PrefixedName(file: string, pre: string, date: string, slug: string, ext: string)
    requires IsDate(date) && |slug| > 0 && NoLineTerminator(slug)
    requires ext == ".md" || ext == ".txt"
    requires file == pre + date + "-" + slug + ext
    requires forall q :: 0 <= q < |pre| ==> !DateAt(file, q)
    ensures ExtractDate(file) == date
    ensures ExtractTitle(file) == Dehyphenate(slug)
  {
    ConcatAssoc(pre + date + "-", slug, ext);
    PrefixedDate(file, pre, date, slug + ext);
    FirstDateSlug(file, |pre|, slug, ext);
  }

  /** The first date starts at `p` and is followed by `-`, the slug and the
      extension up to the end of the name. */
  lemma FirstDateSlug(file: string, p: nat, slug: string, ext: string)
    requires DateAt(file, p) && p + 11 <= |file| && file[p + 10] == '-'
    requires file[p + 11..] == slug + ext && (ext == ".md" || ext == ".txt")
    requires |slug| > 0 && NoLineTerminator(slug)
    requires forall q :: 0 <= q < p ==> !DateAt(file, q)
    ensures ExtractDate(file) == file[p..p + 10]
    ensures ExtractTitle(file) == Dehyphenate(slug)
  {
    ExtractDateLeftmost(file, p);
    TitleAtShape(file, p, slug, ext);
    forall q | 0 <= q < p ensures TitleAt(file, q).None? {
    }
    FirstTitleAt(file, 0, p, slug);
  }

  lemma PrefixedDate(file: string, pre: string, date: string, rest: string)
    requires IsDate(date) && file == pre + date + "-" + rest
    ensures DateAt(file, |pre|) && file[|pre|..|pre| + 10] == date
    ensures file[|pre| + 10] == '-' && file[|pre| + 11..] == rest
  {
    assert file == pre + (date + "-" + rest);
  }

  /** The search for the title match stops at the first position that matches. */
  lemma {:induction false} FirstTitleAt(file: string, from: nat, p: nat, x: string)
    requires from <= p && TitleAt(file, p) == Some(x)
    requires forall q :: from <= q < p ==> TitleAt(file, q).None?
    ensures FirstTitle(file, from) == Some(x)
    decreases p - from
  {
    if from < p {
      assert TitleAt(file, from).None?;
      FirstTitleAt(file, from + 1, p, x);
      assert FirstTitle(file, from) == FirstTitle(file, from + 1);
    } else {
      assert DateAt(file, from) && from < |file|;
    }
  }

  /** A name with no date in it is `undated` and keeps itself as its title. */
  lemma UndatedName(file: string)
    requires forall p :: !DateAt(file, p)
    ensures ExtractDate(file) == "undated"
    ensures ExtractTitle(file) == file
  {
  }

  /** A title comes from the capture only when the name ends in `.md` or
      `.txt`; any other name is its own title. */
  lemma OtherExtension(file: string)
    requires !EndsWith(file, ".md") && !EndsWith(file, ".txt")
    ensures ExtractTitle(file) == file
  {
    forall p: nat ensures TitleAt(file, p).None? {
    }
  }
}
