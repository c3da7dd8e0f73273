/** The file lists of the blog page (script.js:49-63) and of the media
    archive (script.js:108-164), and the loop that turns blog files into posts
    (script.js:68-97). The directory listing arrives as the sequence of the
    `href` attributes of its links, in document order. */
module Listing {
  import opened Text
  import Order
  import PostMeta
  import Escape
  import Markdown

  /** `link.getAttribute('href')`: `None` where the link has no `href`. */
  type Href = Option<string>

  /** The test `href && …`: a missing attribute and the empty string are falsy. */
  predicate Present(h: Href) {
    h.Some? && h.value != ""
  }

  /** The hrefs the `forEach` pushes, in document order: the present ones that
      `keep` accepts. */
  function Kept(keep: string -> bool, links: seq<Href>): (files: seq<string>)
    ensures |files| <= |links|
    ensures forall i :: 0 <= i < |files| ==> files[i] != "" && keep(files[i])
    decreases |links|
  {
    if links == [] then []
    else
      var last := links[|links| - 1];
      Kept(keep, links[..|links| - 1]) + if Present(last) && keep(last.value) then [last.value] else []
  }

  /** A name is kept exactly when some link carries it and `keep` accepts it. */
  lemma {:induction false} KeptMembers(keep: string -> bool, links: seq<Href>, h: string)
    ensures h in Kept(keep, links) <==> h != "" && keep(h) && exists i :: 0 <= i < |links| && links[i] == Some(h)
    decreases |links|
  {
    if links != [] {
      var init := links[..|links| - 1];
      KeptMembers(keep, init, h);
      if exists i :: 0 <= i < |links| && links[i] == Some(h) {
        var i :| 0 <= i < |links| && links[i] == Some(h);
        if i < |links| - 1 {
          assert init[i] == Some(h);
        }
      }
      if exists i :: 0 <= i < |init| && init[i] == Some(h) {
        var i :| 0 <= i < |init| && init[i] == Some(h);
        assert links[i] == Some(h);
      }
    }
  }

  /** The `forEach` of script.js:49-55 and :147-156: each link is looked at in
      turn and its href pushed when it passes the test. */
  method Gather(keep: string -> bool, links: seq<Href>) returns (files: seq<string>)
    ensures files == Kept(keep, links)
  {
    files := [];
    var i := 0;
    while i < |links|
      invariant 0 <= i <= |links|
      invariant files == Kept(keep, links[..i])
    {
      var href := links[i];
      if Present(href) && keep(href.value) {
        files := files + [href.value];
      }
      i := i + 1;
      assert links[..i][..i - 1] == links[..i - 1];
    }
    assert links[..|links|] == links;
  }

  /** script.js:51: a blog post is a `.md` or a `.txt` file. */
  predicate IsBlogFile(h: string) {
    EndsWith(h, ".md") || EndsWith(h, ".txt")
  }

  /** script.js:49-63: the blog files of the listing, `sort()`ed and then
      `reverse()`d, so newest first when names start with their date. */
  method CollectBlogFiles(links: seq<Href>) returns (files: seq<string>)
    ensures Order.Descending(files)
    ensures multiset(files) == multiset(Kept(IsBlogFile, links))
  {
    files := Gather(IsBlogFile, links);
    var sorted := Order.Sort(files);
    Order.ReverseAscending(sorted);
    files := Order.Reverse(sorted);
  }

  /** The four media categories of script.js:108-128. */
  datatype Category = Video | Audio | Image | Executable

  /** The extension lists of script.js:110-126, as written: the first
      executable extension holds a space. */
  function Extensions(c: Category): (exts: seq<string>)
    ensures |exts| > 0 && forall i :: 0 <= i < |exts| ==> |exts[i]| > 1 && exts[i][0] == '.'
  {
    match c
    case Video => [".mp4", ".webm", ".avi", ".mov"]
    case Audio => [".mp3", ".wav", ".flac", ".ogg"]
    case Image => [".jpg", ".jpeg", ".png", ".gif", ".webp", ".svg"]
    case Executable => [". exe", ".sh", ".bin", ".app", ".jar"]
  }

  function LowerChar(c: char): char {
    if 'A' <= c <= 'Z' then (c as int + 32) as char else c
  }

  /** `toLowerCase`, on ASCII letters. */
  function ToLower(s: string): (r: string)
    ensures |r| == |s| && forall i :: 0 <= i < |s| ==> r[i] == LowerChar(s[i])
    decreases |s|
  {
    if s == [] then [] else [LowerChar(s[0])] + ToLower(s[1..])
  }

  /** `extensions.some(ext => lowerHref.endsWith(ext))`. */
  predicate EndsWithAny(s: string, exts: seq<string>) {
    exists i :: 0 <= i < |exts| && EndsWith(s, exts[i])
  }

  /** script.js:150-154: not a `? ` link, not the parent directory, and a
      listed extension whatever the case of the name. */
  predicate IsMediaFile(exts: seq<string>, h: string) {
    !StartsWith(h, "? ") && h != "../" && EndsWithAny(ToLower(h), exts)
  }

  /** script.js:147-164: the files of one category, `sort()`ed ascending. */
  method CollectMediaFiles(c: Category, links: seq<Href>) returns (files: seq<string>)
    ensures Order.Ascending(files)
    ensures multiset(files) == multiset(Kept(h => IsMediaFile(Extensions(c), h), links))
  {
    files := Gather(h => IsMediaFile(Extensions(c), h), links);
    files := Order.Sort(files);
  }

  lemma {:induction false} ToLowerIdempotent(s: string)
    ensures ToLower(ToLower(s)) == ToLower(s)
  {
    var l := ToLower(s);
    assert forall i :: 0 <= i < |s| ==> ToLower(l)[i] == LowerChar(LowerChar(s[i])) == l[i];
  }

  /** The media test depends on the case of a name only through its exclusions,
      and these read no letter: a name is listed exactly when its lower-case
      form is. */
  lemma MediaCaseInsensitive(exts: seq<string>, h: string)
    ensures IsMediaFile(exts, h) <==> IsMediaFile(exts, ToLower(h))
  {
    var l := ToLower(h);
    ToLowerIdempotent(h);
    if |h| >= 2 {
      assert l[..2] == [LowerChar(h[0]), LowerChar(h[1])];
      assert h[..2] == [h[0], h[1]];
    }
    if |h| == 3 {
      assert l == [LowerChar(h[0]), LowerChar(h[1]), LowerChar(h[2])];
      assert h == [h[0], h[1], h[2]];
    }
  }

  /** A name ending in `.exe`, in any case, is not an executable: the list has
      `. exe` with a space instead. */
  lemma ExeNotExecutable(h: string)
    requires EndsWith(ToLower(h), ".exe")
    ensures !IsMediaFile(Extensions(Executable), h)
  {
    NoExeExtension(ToLower(h));
  }

  lemma NoExeExtension(l: string)
    requires EndsWith(l, ".exe")
    ensures !EndsWithAny(l, Extensions(Executable))
  {
    assert l[|l| - 4..][0] == '.' && l[|l| - 4..][3] == 'e';
    NotEndingAt(l, ". exe", 4);
    NotEndingAt(l, ".sh", 1);
    NotEndingAt(l, ".bin", 1);
    NotEndingAt(l, ".app", 1);
    NotEndingAt(l, ".jar", 1);
    var exts := Extensions(Executable);
    assert exts[0] == ". exe" && exts[1] == ".sh" && exts[2] == ".bin";
    assert exts[3] == ".app" && exts[4] == ".jar" && |exts| == 5;
  }

  /** `s` does not end with `e` if they differ `k` characters from their ends. */
  lemma NotEndingAt(s: string, e: string, k: nat)
    requires 0 < k <= |e| && |s| >= k && s[|s| - k] != e[|e| - k]
    ensures !EndsWith(s, e)
  {
    if |e| <= |s| {
      assert s[|s| - |e|..][|e| - k] == s[|s| - k];
    }
  }

  /** What one blog post shows (script.js:86-95): its title, escaped, its
      date and its rendered content. */
  datatype Post = Post(title: string, date: string, content: string)

  function PostOf(file: string, text: string): (p: Post)
    ensures '<' !in p.title && '>' !in p.title
    ensures PostMeta.IsDate(p.date) || p.date == "undated"
    ensures StartsWith(p.content, "<p>") && EndsWith(p.content, "</p>")
  {
    Post(Escape.EscapeHtml(PostMeta.ExtractTitle(file)), PostMeta.ExtractDate(file), Markdown.ParseMarkdown(text))
  }

  /** The posts of `files`, in order: one for each file whose fetch succeeds. */
  function Posts(files: seq<string>, fetch: string -> Option<string>): (posts: seq<Post>)
    ensures |posts| <= |files|
    decreases |files|
  {
    if files == [] then []
    else
      var file := files[|files| - 1];
      Posts(files[..|files| - 1], fetch) + match fetch(file) case Some(text) => [PostOf(file, text)] case None => []
  }

  /** When every fetch succeeds there is exactly one post per file, the i-th
      built from the i-th file and its text. */
  lemma AllPostsLoaded(files: seq<string>, fetch: string -> Option<string>)
    requires forall i :: 0 <= i < |files| ==> fetch(files[i]).Some?
    ensures |Posts(files, fetch)| == |files|
    ensures forall i :: 0 <= i < |files| ==> Posts(files, fetch)[i] == PostOf(files[i], fetch(files[i]).value)
  {
    PostsCount(files, fetch);
    forall i | 0 <= i < |files| ensures Posts(files, fetch)[i] == PostOf(files[i], fetch(files[i]).value) {
      PostLoaded(files, fetch, i);
    }
  }

  lemma {:induction false} PostsCount(files: seq<string>, fetch: string -> Option<string>)
    requires forall i :: 0 <= i < |files| ==> fetch(files[i]).Some?
    ensures |Posts(files, fetch)| == |files|
    decreases |files|
  {
    if files != [] {
      var n := |files| - 1;
      PostsCount(files[..n], fetch);
      PostsStep(files, n, fetch);
      assert files[..n + 1] == files;
    }
  }

  /** The `i`-th post is built from the `i`-th file, when every fetch succeeds. */
  lemma {:induction false} PostLoaded(files: seq<string>, fetch: string -> Option<string>, i: nat)
    requires forall i :: 0 <= i < |files| ==> fetch(files[i]).Some?
    requires i < |files|
    ensures i < |Posts(files, fetch)| && Posts(files, fetch)[i] == PostOf(files[i], fetch(files[i]).value)
    decreases |files|
  {
    var n := |files| - 1;
    var init := files[..n];
    PostsCount(init, fetch);
    PostsStep(files, n, fetch);
    assert files[..n + 1] == files;
    var ps, qs := Posts(files, fetch), Posts(init, fetch);
    var last := PostOf(files[n], fetch(files[n]).value);
    assert ps == qs + [last];
    assert |qs| == n;
    if i < n {
      PostLoaded(init, fetch, i);
      assert ps[i] == qs[i] && files[i] == init[i];
    } else {
      assert i == n && ps[n] == last;
    }
  }

  /** One more file adds its post, if its fetch succeeds, at the end. */
  lemma PostsStep(files: seq<string>, i: nat, fetch: string -> Option<string>)
    requires i < |files|
    ensures Posts(files[..i + 1], fetch) == Posts(files[..i], fetch) + if fetch(files[i]).Some? then [PostOf(files[i], fetch(files[i]).value)] else []
  {
    assert files[..i + 1][..i] == files[..i];
  }

  /** script.js:68-101: the `for…of` over the sorted files. `fetch(file)` is
      `None` when fetching the file fails; the `catch` then skips that file. */
  method LoadPosts(files: seq<string>, fetch: string -> Option<string>) returns (posts: seq<Post>)
    ensures posts == Posts(files, fetch)
  {
    posts := [];
    var i := 0;
    while i < |files|
      invariant 0 <= i <= |files|
      invariant posts == Posts(files[..i], fetch)
    {
      PostsStep(files, i, fetch);
      var file := files[i];
      var text := fetch(file);
      if text.Some? {
        posts := posts + [PostOf(file, text.value)];
      }
      i := i + 1;
    }
    assert files[..|files|] == files;
  }
}
