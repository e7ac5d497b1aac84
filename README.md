# nothugo static site builder, modelled in Dafny

nothugo turns a directory tree of Markdown files into a static HTML site.
It walks the source directory, skipping hidden entries, non-regular files
and the templates and destination directories. Each `.md` file it reaches
is converted to HTML, poured into a page template and written to the
mirrored place in the destination directory; each other file it reaches is
copied there. Then every destination directory that received a Markdown
page, or one of whose immediate sub-directories did, gets an `index.html`
listing its pages and those sub-directories, unless a copied `index.html`
is already there.

The model covers:

- **heading.go** (`heading.dfy`): `firstHeading`, which reads an HTML token
  stream and returns the text inside the first `<h1>`. `FirstHeadingSpec`
  says in one expression what the token loop returns. The method
  `FirstHeading` is that loop, and it is proved equal to the expression.
- **anchor.go** (`anchor.dfy`): `createAnchors` and `nodeText`. The walk
  gives every `h1`..`h6` an `id` made from the slug of its text. The slug
  is made unique within the document by probing `slug-1` .. `slug-99`. The
  walk is written as a function over the tree and proved to be a fold of
  the probe over the heading slugs in walk order. From that fold the model
  proves:
  - the ids are distinct exactly when the probe never runs out;
  - repeated slugs are numbered `-1`, `-2`, ... ;
  - nothing but the `id` attributes changes.
- **linkrewrite.go** (`linkrewrite.dfy`): `rewriteLinks`, which turns
  relative `.md` links into `.html` links. The model proves which links
  change and that only they change. It also proves that, given a URL
  printer and parser that round-trip, no rewritable link is left and a
  second pass changes nothing.
- **main.go** (`render.dfy`, `build.dfy`):
  - `fileNameToTitle` and `latestMtime`;
  - the modification-time rule of `renderFile`, and `renderFile` itself;
  - `renderIndex`, with its README rule;
  - `validate`;
  - the `walkFunc` closure of `run`, as a class `SiteIndex` whose fields
    are the closure's `dirsIndex` and `skipIndex` maps plus the files
    produced so far;
  - the synthesis loop over the recorded directories, and `run` itself.

Everything outside the program's own logic is a function-typed parameter,
gathered in `Render.Env` for `main.go`. That covers the filesystem, the
Markdown converters, the HTML tokenizer, parser and renderer, the slug
function, URL parsing and printing, and template execution. For these the
model keeps only what each call returns and what is written where. Paths
are cleaned absolute paths held as sequences of segments. Times are
integers. The walk's input is the sequence of entries `filepath.Walk`
reports, in lexical order.

Two edge cases behave differently from what a reader of the program's
description might expect; the model follows the code:

- **Exhausted suffixes.** If a slug and all 99 suffixed forms are taken,
  one would expect the heading to get no new id. The code
  (anchor.go:51-69) instead gives the heading the bare, duplicate slug as
  its `id`. `Anchor.ChooseId` states this.
- **A failed walk.** When `filepath.Walk` fails, `run` returns a nil error
  and writes no index (main.go:210-212). `Build.BuildSite` states this.

## Model

| member | source | states |
|---|---|---|
| Html.RenderAll | anchor.go:79-84 | rendering the children succeeds exactly when every child renders |
| Html.RenderChildren | linkrewrite.go:52-57 | the render loop yields the concatenated renderings, or the first error |
| Heading.FirstHeading | heading.go:15-45 | the token loop with its `inHeading` flag returns what FirstHeadingSpec prescribes for the stream |
| Heading.HeadingText | heading.go:28-41 | with no end or `<h1>` before it, `<h1>`, body, `</h1>` yields the text of the body's text tokens; inner tags are skipped and nothing after `</h1>` is read |
| Heading.StopsBeforeClose | heading.go:23-27 | an end-of-input token before any `</h1>` gives "" with no error, even inside an open `<h1>`; any other error token gives its error |
| Heading.CloseBeforeOpen | heading.go:32-41 | a `</h1>` met before any `<h1>` returns "" at once |
| Heading.HeadingExample | heading_test.go:5-15 | the tokens of the test document give "Header text" |
| Anchor.CollectText | anchor.go:88-101 | the recursion appending text-node data returns NodeText of the node |
| Anchor.NodeTextIsPreorderText | anchor.go:88-101 | a node's text is the data of the text nodes of its subtree, concatenated in pre-order |
| Anchor.FreeSuffix | anchor.go:54-61 | the first suffix from `i` whose candidate is unseen, every earlier one taken; 100 when none is free |
| Anchor.ChooseId | anchor.go:50-62 | an unseen slug is kept; a seen one gets the first free `slug-k`, k < 100, all earlier suffixes being taken; when all are taken the bare slug is reused; the id is added to `seen`; the id was already seen iff the suffixes are exhausted |
| Anchor.Uniquify | anchor.go:50-62 | the probe loop with its early exit returns ChooseId's id and new `seen` set |
| Anchor.SetIdProperties | anchor.go:63-69 | after setting, the first `id` is the new one; an `id` is added only when there was none, so repeated runs never duplicate it; other attributes are kept in order |
| Anchor.SetIdAttr | anchor.go:63-69 | the attribute loop overwrites the first `id` or appends one, as SetId does |
| Anchor.Walk | anchor.go:32-70 | the recursive walk returns AnnotateNode's tree and `seen` set: headings are annotated and not entered; other elements have their children walked left to right |
| Anchor.AssignAllSeen | anchor.go:50-62 | one id is handed out per heading, and the final `seen` is the initial set plus exactly those ids |
| Anchor.AssignAllAt | anchor.go:50-62 | the k-th heading gets ChooseId of its slug against the ids of the headings before it |
| Anchor.AssignAllDistinct | anchor.go:50-62 | the ids handed out are pairwise distinct and new to `seen` if and only if no heading finds its suffixes exhausted |
| Anchor.WalkFollowsAssign | anchor.go:32-70 | the tree walk gives each heading it reaches, in walk order, the id AssignAll gives its slug, and ends with AssignAll's `seen` |
| Anchor.AnchorsAreUnique | anchor.go:30-71 | on a fragment and an empty `seen`: every reached heading has an id, one per heading; `seen` ends as exactly those ids; they are distinct iff the suffixes never run out |
| Anchor.WalkOnlyTouchesIds | anchor.go:32-70 | apart from heading `id` attributes, the annotated tree equals the input: tags, other attributes, text, comments, heading contents |
| Anchor.CreateAnchors | anchor.go:17-85 | a parse error is returned; otherwise the result is the rendering of the fragment's nodes after the walk with an empty `seen` |
| Anchor.SuffixedInjective | anchor.go:55 | candidates `slug-i` for different i in 1..99 differ, and none equals the bare slug |
| Anchor.RepeatedSlug | anchor.go:50-62 | k ≤ 100 headings with the same slug get `slug`, `slug-1`, ... , `slug-(k-1)` in order |
| Anchor.ExampleFirstHeading | anchor_test.go:5-15 | the test's `<h1 class="foo">` keeps its class and gains `id="some-header"` |
| Anchor.ExampleParagraph | anchor.go:40-45 | a paragraph without headings is walked and left as it was |
| Anchor.ExampleSecondHeading | anchor_test.go:5-15 | the `<h2>` whose slug is taken gets `some-header-1` |
| Anchor.AnchorExample | anchor_test.go:5-15 | the whole test fragment gets exactly the two expected ids |
| LinkRewrite.Retarget | linkrewrite.go:40 | the path's ".md" becomes ".html"; scheme, host and all other components are kept; the rule no longer applies |
| LinkRewrite.HrefRule | linkrewrite.go:36-41 | for a round-tripping URL parser: an href changes iff it parses with no scheme, no host and a ".md" path; it then parses to the retargeted URL; the rule no longer applies, so a second rewrite is the identity |
| LinkRewrite.RewriteAttrs | linkrewrite.go:34-44 | the attribute count, keys and namespaces are kept; only the value of the first `href` may change, and it becomes NewHref of the old value |
| LinkRewrite.RewriteHrefAttr | linkrewrite.go:34-44 | the loop that stops at the first `href` computes RewriteAttrs |
| LinkRewrite.AttrsRule | linkrewrite.go:34-44 | attributes whose first href is not rewritable come back unchanged; with a round-tripping parser that is the only way to come back unchanged, and afterwards no rewritable href remains |
| LinkRewrite.RewriteTree | linkrewrite.go:32-49 | the recursive walk returns RewriteNode of the tree |
| LinkRewrite.UnchangedIffNoLinks | linkrewrite.go:32-49 | a tree with no rewritable `<a>` link is returned unchanged; with a round-tripping parser, an unchanged tree had none |
| LinkRewrite.NoLinksLeft | linkrewrite.go:46-48 | with a round-tripping parser no rewritable link survives, the descendants of `<a>` elements included |
| LinkRewrite.RewriteIdempotent | linkrewrite.go:32-49 | rewriting an already rewritten tree changes nothing |
| LinkRewrite.OnlyHrefsChange | linkrewrite.go:32-49 | everything except the first href value of `<a>` elements is preserved |
| LinkRewrite.RewriteLinks | linkrewrite.go:15-58 | input without ".md" bytes is returned as it is; otherwise the result is the rendering of the rewritten fragment, or the parse or render error |
| LinkRewrite.ExampleAbsoluteLink | linkrewrite_test.go:7-17 | the link with a host, `//example.com/foo.md`, is kept |
| LinkRewrite.ExampleRelativeLink | linkrewrite_test.go:7-17 | the relative link `/bar.md` becomes `/bar.html` |
| LinkRewrite.LinkExample | linkrewrite_test.go:7-17 | in the test paragraph only the second link changes |
| Render.ReplaceHyphens | main.go:457 | same length; each '-' becomes ' ' and every other character is kept |
| Render.TitleOfName | main.go:450-455 | the title is the name minus a trailing ".md"; a name with a space is otherwise kept; in a name without one, exactly the hyphens become spaces and no hyphen remains |
| Render.TitleOfHyphenatedName | main.go:450-455 | "go-notes.md" gives "go notes" |
| Render.TitleOfSpacedName | main.go:450-455 | "my notes-2.md" gives "my notes-2", hyphen kept |
| Render.HeadingOr | main.go:293-296 | the title is the first `<h1>` text when it is read without error and not empty, otherwise the fallback |
| Render.LatestOf | main.go:437-447 | succeeds iff every stat succeeds; the result bounds every mtime and is at least the zero time |
| Render.LatestIsAttained | main.go:437-447 | the latest mtime is one of the files' mtimes or the zero time; a failure is the first stat error |
| Render.LatestMtime | main.go:432-448 | the loop returns the glob error, or LatestOf of the matched names |
| Render.Stamp | main.go:311-316 | the stamp is the later of the template mtime and the source mtime; no stamp when the source cannot be stat'ed |
| Render.Convert | main.go:405-428 | the converter chosen at main.go:128-141: goldmark without the cmark-gfm binary; with it, cmark's error is passed through, and otherwise the result is createAnchors of cmark's output, any of its errors wrapped as CreatingAnchors |
| Render.RenderFile | main.go:280-318 | source equal to destination fails; on success the file at `dst` holds the executed template, whose title is the converted HTML's first `<h1>` or else the file-name title, stamped by Stamp |
| Render.RenderedNotOlder | main.go:311-316 | a rendered page is never stamped older than its source or the templates |
| Render.NoReadme | main.go:325-341 | without a README.md page the index has no content and keeps every page |
| Render.AfterReadme | main.go:328-332 | once README content is non-empty, every further page is kept as a page |
| Render.FirstReadme | main.go:325-341 | the first README.md with non-empty HTML becomes the content and is dropped from the page list |
| Render.EmptyReadme | main.go:325-341 | a first README.md whose HTML is empty is dropped from the pages and leaves the content empty, so the result is that of the list without it |
| Render.IndexPage | main.go:324-359 | the index is written to `dir/index.html`, with no stamp |
| Render.IndexWithoutReadme | main.go:342-358 | without a README the title is "<dir> index" and the content is empty |
| Render.IndexTitle | main.go:342-347 | with README HTML, the title is its first `<h1>`, else "<dir> index" |
| Render.IndexEmptyReadme | main.go:325-358 | with only an empty-HTML README, the index is titled "<dir> index", has no content and lists every other page |
| Render.RenderIndex | main.go:324-359 | the README loop, template execution and write give IndexPage |
| Build.ValidateRule | main.go:94-112 | validation succeeds iff the three paths resolve and the source is neither the destination nor the templates directory; the destination clash is reported first |
| Build.CopyFile | main.go:234-237 | copying a file onto itself fails; a success copies `src` to `dst` |
| Build.CategoryRule | main.go:177-191 | only the parent directory's categories change: one entry for the directory, appended only if the last differs |
| Build.VisitPrunes | main.go:158-164 | hidden, template and output directories are pruned with no change |
| Build.VisitIgnores | main.go:165-168 | non-regular and hidden files are skipped with no change |
| Build.VisitCopies | main.go:193-199 | a non-Markdown file adds no page or category; the copy is appended to the outputs when it succeeds, and the walk stops on its error; an `index.html` puts its directory in `skip` |
| Build.VisitRenders | main.go:177-208 | a Markdown file outside the output root first records its directory as a category of the parent (CategoryRule), rendered or not; it appends exactly one page `{title, base, source}` to its directory and the written page to the outputs when it renders, nothing otherwise, and the walk stops on failure |
| Build.AddPageConsistent | main.go:201-208 | recording a rendered page and its written file keeps the state consistent |
| Build.AddCopyConsistent | main.go:193-199 | a copy keeps the state consistent when a copied `index.html` has its directory in `skip` |
| Build.AddCategoryConsistent | main.go:181-190 | adding a category never puts two equal names side by side |
| Build.VisitConsistent | main.go:153-209 | walkFunc preserves Consistent: no adjacent repeated categories, every copied `index.html` has its directory in `skip` |
| Build.WalkConsistent | main.go:210 | the whole walk preserves Consistent |
| Build.PrunedUntouched | main.go:158-164 | nothing inside a pruned directory is rendered, copied or recorded |
| Build.SiteIndex.constructor | main.go:143-151 | the walk starts with no directories, no skipped directories, no outputs |
| Build.SiteIndex.Visit | main.go:153-209 | one call of walkFunc changes the state and returns as VisitSpec says |
| Build.SiteIndex.Walk | main.go:210-212 | the walk loop reaches WalkSpec's state and error and keeps Consistent |
| Build.Synthesize | main.go:214-221 | indexes distinct recorded directories outside `skip` in some order; each written file is that directory's index; on success all are done; an error is that of one not done |
| Build.SynthesisWritesIndexes | main.go:214-221 | each written file is some non-skipped directory's index; without an error every such index is written; an error is one such directory's failure |
| Build.BuildSite | main.go:143-222 | the walk's outputs come first; a failed walk returns nil and writes no index; otherwise the files after them are the indexes of the non-skipped directories as SynthesisWritesIndexes states; the state stays consistent and no index is written over a copied `index.html` |
| Build.Run | main.go:114-223 | validate and template errors return with no output; then the mtime error with no output; after that, the result is what BuildSite gives for the latest template mtime |

## Left out

- The command line is not part of this model: `main`, flag parsing, usage, `serve` (the HTTP server) and `example.go`.
- Each external effect is a function parameter, because only the program's own logic is modelled:
  - the cmark-gfm process (with its timeout);
  - goldmark's Markdown conversion;
  - the HTML tokenizer, fragment parser and renderer;
  - the slug function;
  - URL parsing and printing;
  - template parsing and execution;
  - stat, read, write and copy.
- Inside `copyFile`, only the same-path check is modelled. The stat, same-file, unlink, mkdir, hard-link, copy and chtimes steps are one opaque effect.
- Paths are cleaned absolute segment lists, so `filepath.Abs`/`Join` normalisation is not modelled. The error branch of `filepath.Rel` (main.go:169-172) is left out because relative paths are given directly.
- `filepath.Walk` is its sequence of entries in lexical order. A directory read failure appears only as an entry's error.
- In-place updates of the HTML tree are modelled as a returned tree, so aliasing of `*html.Node` is not captured.
- The `reuse` buffer of `createAnchors` is not modelled; the rendered output is the same.
- Times are integers with no time zones or monotonic readings.
- Render.RenderFile: the error of `os.Chtimes` (main.go:315) is ignored by the code, so the model records the stamp as set even when that call fails.
- `rewriteLinks` is modelled, but `run` never calls it, so no page in the model is link-rewritten.
- The value of `htmlSuffix` is defined outside the modelled files; the model uses ".html", which linkrewrite_test.go implies.
- The URL type is reduced to scheme, host, path and one field for the rest.
- Heading.FirstHeading: a token stream that ends without an end-of-input token is read as if it had one.
- LinkRewrite.HrefRule: the "no rewritable link is left" and idempotence results hold only for a URL parser that round-trips the printer, which `net/url` does not promise for every URL.
- Build.Synthesize: Go's map iteration order is unspecified, so the contract fixes no order of the indexes.
