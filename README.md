# A verified model of the blog and media-archive script

The site's `script.js` does four things this project models:

- It renders blog posts written in a small Markdown dialect to HTML with `parseMarkdown`. This is a fixed chain of regular-expression replacements.
- It escapes text for HTML with `escapeHtml`.
- It reads a date and a title off each blog file name.
- It builds two file lists from directory listings:
  - the blog files, sorted newest first;
  - the media files of each category, sorted ascending.

Each regular expression of `parseMarkdown` is modelled as an explicit scanner over `seq<char>`. Like `String.prototype.replace` with a global pattern, each scanner tries a match at every position from left to right and resumes after the end of each match. `parseMarkdown` is then the composition of the scanners, stage by stage.

The modules:

- `Text`: shared string notions.
  - `.` of a JavaScript regular expression refuses four line terminators: `\n`, `\r`, U+2028 and U+2029.
  - With the `m` flag, `^` and `$` hold at those line terminators.
- `Spans`: the four delimited patterns, with a scanner of their own:
  - fenced code and inline code (script.js:5, 8);
  - bold and italic (script.js:16, 19).

  The non-greedy `*?` and the class `[^`]` both make the closer the nearest delimiter after the opener. `.` keeps bold and italic content on one line.
- `Lines`: the line-anchored patterns `/^P (.*?)$/gm`, one scanner that follows `^` with the `m` flag:
  - the three headers (script.js:11-13);
  - the blockquote (script.js:22);
  - the list item (script.js:25).

  The main result: one global scan is the same as rewriting each line on its own.
- `Blocks`: the two whole-text stages at the end.
  - The single, greedy `<ul>` wrap (script.js:26). The pattern has no `g` flag and uses `.*` under the `s` flag, so it replaces once, from the first `<li>` to the last `</li>`.
  - The paragraph breaks (script.js:29). These come with an independent split-and-join description of "every blank line, left to right, without overlap".
- `Markdown`: `parseMarkdown` as the composition of the stages, with lemmas for each stage and for its precedence quirks:
  - code contents are not shielded from later stages;
  - `###` runs before `#`;
  - bold runs before italic;
  - quotes are not merged;
  - one `<ul>` spans disjoint item runs.
- `Escape`: `escapeHtml` (script.js:185-194). It comes with a decoder that proves no information is lost.
- `Order`: the default order of `Array.prototype.sort()` on strings, plus `sort` and `reverse` as the sequences they leave behind. It proves the order is total and that the sorted result is unique.
- `PostMeta`: the date regular expression `/(\d{4}-\d{2}-\d{2})/` and the title regular expression `/\d{4}-\d{2}-\d{2}-(.+)\.(md|txt)$/` of script.js:74-79.
- `Listing`: the `forEach` loops that collect file names (script.js:49-55, 147-156) and the sorts applied to the result (script.js:63, 164). It also has the `for…of` loop that turns blog files into posts (script.js:68-101).
  - The directory listing arrives as the sequence of the `href` attributes of its links. `None` stands for a link without one.
  - `fetch` is a function parameter that returns `None` where fetching fails.

The loops of the source are methods with loop invariants (`Gather`, `LoadPosts`). Each is proved equal to a specification function (`Kept`, `Posts`), and the properties are proved about that function.

The list stage wraps once: the pattern `/(<li>.*<\/li>)/s` has no `g` flag, its `.*` is greedy and, under the `s` flag, crosses lines. So the one `<ul>…</ul>` it inserts runs from the first `<li>` to the last `</li>`, and any text between two separate runs of items goes inside it. `Markdown.ListRuns` proves this for two item lines around a line that is no item.

## Model

| member | source | states |
|---|---|---|
| Spans.CloserAt | script.js:5-19 | The closer of a match opening at index 0 lies at least one delimiter further on. The text between is admissible content for the pattern: no delimiter starts inside it, it stays on one line for `.`, and it is non-empty for `+`. The text splits as delimiter, content, delimiter, rest. |
| Spans.CloserAtMatches | script.js:5-19 | A match opens at index 0 exactly when the text splits into delimiter, admissible content, delimiter and rest (both directions). |
| Spans.ApplySpan | script.js:5-19 | Computes one global replacement of a delimited pattern: at each position it takes the match `Spans.CloserAt` finds there, or copies one character. `Spans.SpanPairs`, `Spans.SpanSkip`, `Spans.SpanUnpaired`, `Spans.SpanLoneOpener` and `Spans.SpanNone` characterise it. |
| Spans.SpanPairs | script.js:5-19 | An opener pairs with the nearest following delimiter. The content is wrapped in the replacement's tags unchanged, and scanning resumes after the closer. |
| Spans.SpanSkip | script.js:5-19 | Text holding no character that begins the delimiter is copied through, and scanning goes on after it. |
| Spans.SpanUnpaired | script.js:5 | When no two delimiters stand at least one delimiter's length apart, the text is left as it is. |
| Spans.SpanLoneOpener | script.js:5 | A fence with no later fence is left as it is. |
| Spans.SpanNone | script.js:5-19 | Text without the delimiter's first character is unchanged. |
| Spans.NoCloserAcrossLines | script.js:16-19 | For bold and italic, text made of a delimiter, a middle part that holds a line terminator and no delimiter character, and a closing delimiter has no match at index 0. The general fact, that the content of any bold or italic match is on one line, is part of `Spans.CloserAt`'s contract. |
| Lines.ApplyIsPerLine | script.js:11-25 | One global `^…$` scan with the `m` flag equals rewriting every line on its own: `P rest` becomes `<tag>rest</tag>`. |
| Lines.ScanAfterPerLine | script.js:11-13 | A further line scan over text that was already rewritten line by line is the per-line rewrite with the new rule appended. So the chain of header passes is per-line too. |
| Lines.ScanLines | script.js:11-25 | Computes one global `^P (.*?)$` replacement with the `m` flag, carrying whether `^` holds at the current position. `Lines.ScanOneLine`, `Lines.ScanSkipLine` and `Lines.ScanUntouched` characterise it. |
| Lines.Apply | script.js:11-25 | The scan started at a line start, as `replace` starts it. `Lines.ApplyIsPerLine` proves it equal to the per-line rewrite `Lines.PerLine`. |
| Lines.ScanOneLine | script.js:11-25 | At a line start, the scan rewrites exactly the current line and goes on after its terminator. |
| Lines.ScanSkipLine | script.js:11-25 | Away from a line start, a stretch without line terminators is copied through, because `^` cannot hold inside it. |
| Lines.ScanUntouched | script.js:11-25 | Text in which no line starts with the prefix's first character is left as it is. |
| Lines.RewriteKeepsLine | script.js:11-25 | Rewriting a line never introduces a line terminator. |
| Lines.RewriteOne | script.js:11-25 | A line `P T` becomes `<tag>T</tag>`. |
| Lines.RewriteNone | script.js:11-25 | A line not starting with `P` is unchanged. |
| Blocks.ListSpan | script.js:26 | The one match runs from the first `<li>` to the last `</li>` after it. There is no match exactly when no `<li>` is followed by a `</li>`. |
| Blocks.WrapList | script.js:26 | The text changes exactly when the pattern has a match. `Blocks.WrapWhole` and `Blocks.NoItemNoWrap` characterise the result. |
| Blocks.WrapWhole | script.js:26 | Text from a leading `<li>` to a trailing `</li>` is wrapped whole in one `<ul>…</ul>`, whatever lies between. |
| Blocks.NoItemNoWrap | script.js:26 | Text holding no `<li>` is not wrapped. |
| Blocks.BreakLeavesNoBlankLine | script.js:29 | No blank line survives the paragraph stage. |
| Blocks.BreakIdentity | script.js:29 | Text without a blank line is unchanged by the paragraph stage. |
| Blocks.BreakParagraphs | script.js:29 | Computes the `/\n\n/g` replacement. `Blocks.BreakLeavesNoBlankLine`, `Blocks.BreakIdentity` and `Blocks.BreakIsJoin` characterise it. |
| Blocks.BreakSkip | script.js:29 | Text without a newline is copied through by the paragraph stage. |
| Blocks.BreakNone | script.js:29 | Text without a newline is left as it is. |
| Blocks.Paragraphs | script.js:29 | Cutting at blank lines: the first piece is a prefix of the text, and a blank line follows it when there are more pieces. |
| Blocks.ParagraphsJoin | script.js:29 | The pieces joined with `\n\n` give the text back. |
| Blocks.ParagraphsShape | script.js:29 | No piece holds a blank line, and every piece but the last ends in something other than a newline. So each cut is at the leftmost blank line left, without overlap. |
| Blocks.BreakIsJoin | script.js:29 | The paragraph stage is the pieces joined with `</p><p>`. |
| Markdown.ParseMarkdown | script.js:1-33 | The page starts with `<p>` and ends with `</p>`. |
| Markdown.PageOfParagraphs | script.js:29-30 | The page is `<p>` + (the list stage's output cut at blank lines, joined with `</p><p>`) + `</p>`. |
| Markdown.Code | script.js:5-8 | The fenced-code pass, then the inline-code pass. `Markdown.FenceWhole`, `Markdown.InlineCode` and `Markdown.CodeUntouched` characterise it. |
| Markdown.Headers | script.js:11-13 | The `###`, `##` and `#` passes in that order. `Markdown.HeadersPerLine` proves it equal to the three header rules applied line by line. |
| Markdown.Emphasis | script.js:16-19 | The bold pass, then the italic pass. `Markdown.BoldBeforeItalic`, `Markdown.BoldAndItalic` and `Markdown.EmphasisUntouched` characterise it. |
| Markdown.Quotes | script.js:22 | The blockquote pass. `Markdown.QuotesNotMerged` and `Markdown.QuotesUntouched` characterise it. |
| Markdown.Lists | script.js:25-26 | The list-item pass, then the single `<ul>` wrap. `Markdown.ListRuns` and `Markdown.ListsUntouched` characterise it. |
| Markdown.Body | script.js:5-26 | Every stage before the paragraph breaks, in the source's order. `Markdown.PageOfParagraphs` ties it to the page. |
| Markdown.EmptyDocument | script.js:29-30 | The empty document gives `<p></p>`. |
| Markdown.NoBlankLineLeft | script.js:29-30 | No page holds a blank line. |
| Markdown.PlainText | script.js:1-33 | Markup-free single-paragraph text is only wrapped in `<p>…</p>`. |
| Markdown.TwoParagraphs | script.js:29-30 | `a` and `b` separated by a blank line become `<p>a</p><p>b</p>`. |
| Markdown.HeadersPerLine | script.js:11-13 | The three header passes act line by line, applying `###`, `##` and `#` in that order. |
| Markdown.HeaderLevel3 | script.js:11-13 | `### T` gives `<h3>T</h3>` and never an `<h1>` or `<h2>`. |
| Markdown.HeaderLevel2 | script.js:11-13 | `## T` gives `<h2>T</h2>`. |
| Markdown.HeaderLevel1 | script.js:11-13 | `# T` gives `<h1>T</h1>`. |
| Markdown.NotAHeader | script.js:11-13 | A line not starting with `#` is untouched by the header passes. |
| Markdown.HeaderLines | script.js:11-13 | Three header lines of different levels are each rewritten to their own level. |
| Markdown.HeaderDocument | script.js:1-33 | The document `# T` renders as `<p><h1>T</h1></p>`. |
| Markdown.BoldBeforeItalic | script.js:16-19 | `**x**` becomes `<strong>x</strong>` before the italic rule runs, and leaves no `*` for `<em>`. |
| Markdown.BoldAndItalic | script.js:16-19 | `**x** m *y*` gives `<strong>x</strong> m <em>y</em>`. |
| Markdown.BoldNotAcrossLines | script.js:16 | `**a` and `b**` on two lines are left as they are by the bold rule. |
| Markdown.ItalicNotAcrossLines | script.js:19 | `*a` and `b*` on two lines are left as they are by the italic rule. |
| Markdown.FenceWhole | script.js:5 | A fenced block without backticks becomes `<pre><code>…</code></pre>` with its text unchanged. |
| Markdown.InlineCode | script.js:8 | A non-empty backtick-free `` `x` `` becomes `<code>x</code>`, and scanning resumes after it. |
| Markdown.CodeUntouched | script.js:5-8 | Text without a backtick is untouched by the code stages. |
| Markdown.HeadersUntouched | script.js:11-13 | Text in which no line starts with `#` is untouched by the header stages. |
| Markdown.EmphasisUntouched | script.js:16-19 | Text without `*` is untouched by bold and italic. |
| Markdown.QuotesUntouched | script.js:22 | Text in which no line starts with `>` is untouched by the quote stage. |
| Markdown.ListsUntouched | script.js:25-26 | Text with no line starting with `-` and no `<li>` is untouched by the list stages. |
| Markdown.QuotesNotMerged | script.js:22 | Two consecutive `> ` lines become two separate `<blockquote>` elements. |
| Markdown.ListRuns | script.js:25-26 | Two item lines around a line that is no item give a single `<ul>` from the first `<li>` to the last `</li>`, with the middle line inside it. |
| Markdown.FencedBlankLine | script.js:5-30 | A fenced block holding a blank line is cut by the paragraph stage: `</p><p>` appears inside `<pre><code>`. |
| Escape.Entity | script.js:186-192 | Each of `&<>"'` maps to an entity that starts with `&` and ends with `;`. Every other character maps to itself. |
| Escape.EscapeHtml | script.js:193 | The output holds no raw `<`, `>`, `"` or `'`, and is at least as long as the input. |
| Escape.UnescapeEscape | script.js:185-194 | Reading the entities back gives the original text, so escaping loses nothing. |
| Escape.EscapeInjective | script.js:185-194 | Two different texts never escape to the same markup. |
| Escape.EscapeConcat | script.js:193 | Escaping works character by character: it distributes over concatenation. |
| Escape.EscapePlain | script.js:193 | Text without any of the five characters is unchanged. |
| Order.BelowRefl | script.js:164 | The sort order is reflexive. |
| Order.BelowTotal | script.js:164 | Any two names are comparable. |
| Order.BelowAntisym | script.js:164 | Names that sort no later than each other are equal. |
| Order.BelowTrans | script.js:164 | The sort order is transitive. |
| Order.Sort | script.js:164 | `sort()` leaves the names in ascending order, as a permutation of the input. |
| Order.AscendingUnique | script.js:164 | Only one ascending arrangement of a multiset of names exists, so the sorted result does not depend on how the sort works. |
| Order.Reverse | script.js:63 | `reverse()` puts the element from position `|s|-1-i` at position `i`. |
| Order.ReverseAscending | script.js:63 | Reversing an ascending list gives a descending list with the same elements. |
| PostMeta.FirstDate | script.js:74 | Finds the leftmost `dddd-dd-dd` at or after a position, or reports that there is none. |
| PostMeta.ExtractDate | script.js:74-75 | The date is a `dddd-dd-dd` exactly when the name holds one; otherwise it is `undated`. |
| PostMeta.ExtractDateLeftmost | script.js:74-75 | The date is the leftmost match in the name. |
| PostMeta.TitleAt | script.js:78 | A match at a position captures a non-empty, single-line slug, and the name from there is date, `-`, slug, then `.md` or `.txt` at the very end. The converse is `PostMeta.TitleAtShape`. |
| PostMeta.FirstTitle | script.js:78 | The capture of the leftmost match, or none when no position matches. |
| PostMeta.TitleAtShape | script.js:78 | Wherever a date, `-`, a non-empty single-line slug and a final `.md` or `.txt` start, the pattern matches there and captures the slug. |
| PostMeta.FirstTitleAt | script.js:78 | The title search stops at the first position where the pattern matches. |
| PostMeta.Dehyphenate | script.js:79 | Every `-` becomes a space, and every other character is kept. |
| PostMeta.ExtractTitle | script.js:78-79 | The title is the whole name exactly when the pattern matches nowhere. Otherwise it is a non-empty title without hyphens. |
| PostMeta.DatedName | script.js:74-79 | `date-slug.md` and `date-slug.txt` give that date, and the slug with its hyphens made spaces as the title. |
| PostMeta.PrefixedName | script.js:74-79 | A name made of a date-free prefix, then `date-slug.md` or `date-slug.txt`, gives that date, and the slug with its hyphens made spaces as the title. So `notes-2024-01-15-x.txt` is titled `x`. |
| PostMeta.FirstDateSlug | script.js:74-79 | When the leftmost date of a name is followed by `-`, a non-empty single-line slug and `.md` or `.txt` up to the end, the date is that one and the title is the slug with its hyphens made spaces. |
| PostMeta.UndatedName | script.js:74-79 | A name with no date is `undated` and keeps itself as its title. |
| PostMeta.OtherExtension | script.js:78-79 | A name not ending in `.md` or `.txt` is its own title. |
| Listing.Kept | script.js:49-55 | The pushed names are no more than the links, and each is non-empty and passes the test. |
| Listing.Present | script.js:51-52 | The `href &&` test: a link without the attribute and an empty `href` are both skipped. `Listing.KeptMembers` states its effect on the collected names. |
| Listing.KeptMembers | script.js:50-54 | A name is collected exactly when some link carries it, it is non-empty and it passes the test. |
| Listing.IsBlogFile | script.js:52 | A blog file ends in `.md` or `.txt`. `Listing.CollectBlogFiles` keeps exactly the names that pass it. |
| Listing.Gather | script.js:49-55 | The `forEach` loop pushes exactly the collected names, in document order. |
| Listing.CollectBlogFiles | script.js:49-63 | The blog list is a permutation of the `.md`/`.txt` hrefs, in descending order. |
| Listing.Extensions | script.js:110-126 | Each category has a non-empty list of extensions starting with `.`, as written, `. exe` included. |
| Listing.ToLower | script.js:151 | Lower-casing maps each character on its own and keeps the length. |
| Listing.IsMediaFile | script.js:150-152 | Not a `? ` link, not `../`, and a listed extension after lower-casing. `Listing.MediaCaseInsensitive` and `Listing.ExeNotExecutable` characterise it. |
| Listing.CollectMediaFiles | script.js:147-164 | The media list is a permutation of the hrefs that pass the category's test, in ascending order. |
| Listing.MediaCaseInsensitive | script.js:150-153 | A name passes the media test exactly when its lower-case form does. |
| Listing.ExeNotExecutable | script.js:124 | A name ending in `.exe`, in any case, is not listed as an executable, because the list holds `. exe`. |
| Listing.PostOf | script.js:74-95 | A post's title holds no raw `<` or `>`, its date is a date or `undated`, and its content is wrapped in `<p>…</p>`. |
| Listing.Posts | script.js:68-101 | There are no more posts than files. |
| Listing.AllPostsLoaded | script.js:68-101 | When every fetch succeeds there is one post per file, in order, the i-th built from the i-th file. |
| Listing.LoadPosts | script.js:68-101 | The `for…of` loop builds exactly the posts of the files whose fetch succeeds, in order. A failed fetch is skipped. |

## Left out

- Network and page I/O are not modelled:
  - `fetch` and `response.text()`, and the async/await sequencing (script.js:41-42, 70-71, 139-140). A post's fetch is a function parameter of `LoadPosts`.
  - `DOMParser` and `querySelectorAll('a')` (script.js:45-47, 143-145). The model takes the sequence of `href` attributes as input.
  - The DOM and template construction: `getElementById`, `createElement`, `innerHTML` and `appendChild` (script.js:37, 85-97, 135, 166-177).
- The outer `try`/`catch` blocks, `console.error`, and the "no posts", "no files" and error messages (script.js:57-60, 98-105, 158-161, 179-182) are logging and display. The per-post `catch` is modelled as a skipped file.
- The loop over the four categories in `loadMediaArchive` (script.js:129-131) only calls `loadMediaCategory` once per category. `Listing.CollectMediaFiles` takes the category as a parameter instead.
- The general regular-expression engine is not modelled. Only the specific patterns are, as scanners.
- Listing.ToLower: only ASCII letters are lowered. JavaScript's `toLowerCase` also maps other Unicode letters, which can change whether a non-ASCII name ends in a listed extension.
- Order.Below: characters are compared by code point. JavaScript compares UTF-16 code units, which differs only between characters above U+FFFF and those in U+E000-U+FFFF.
- Order.Sort and Order.Reverse: `sort()` and `reverse()` work in place on the array. The model gives the sequences they leave behind, so aliasing of the array is not modelled.
- Listing.Posts: its own contract bounds only the count. What it contains is stated by `Listing.AllPostsLoaded` and `Listing.LoadPosts`.
