# markdown-merge core, modelled in Dafny

This project models the core of a tool that merges a directory of Markdown
files into one document (`packages/core/src`). The tool works in five stages.

1. **Discovery.** It walks the input directory. It keeps each `.md` file that no
   ignore pattern matches, and it does not enter a directory that a pattern
   matches.
2. **Ordering.** It orders the files by one of three strategies:
   - by relative path;
   - by creation time;
   - by an `index.json` manifest. Listed files come first, in manifest order.
     Excluded paths are dropped. The remaining files follow, sorted by path.
3. **Layout.** It groups the files under directory headings. It does this by
   adding a heading node the first time each ancestor directory appears.
4. **Sections.** For every node it builds a section:
   - it rewrites relative links and images so that they resolve from the
     output directory;
   - it takes the title from the first H1, or from the file name;
   - it moves the headings down by the file's depth plus the global offset;
   - it makes a slug anchor for the section.
5. **Assembly.** It makes the anchors unique and patches the sections to
   match. Then it prepends a numbered table of contents and joins the sections
   with the separator.

The project has one module per source file, plus the helpers the source takes
from the JavaScript runtime and from `node:path`:

| file | module | models |
|---|---|---|
| `common.dfy` | `Common` | `Option`/`Result`, the JavaScript `\s` and `\w` classes, and string helpers (`split`, `join`, `indexOf`, `trim`, `repeat`, number formatting) |
| `types.dfy` | `Types` | the records of `types.ts` |
| `posix_path.dfy` | `PosixPath` | the parts of `node:path` the core uses: `normalize`, `posix.join`, `relative` and `dirname`, on `/`-separated paths. Resolved directories are lists of names. |
| `toc.dfy` | `Toc` | `toc.ts`. `uniqueAnchors` and `generateToc` are methods with loops, each proved equal to a specification function. |
| `paths.dfy` | `Paths` | `paths.ts`. Each regular-expression pass is a scan that cuts the text into kept text and link targets. |
| `merge_layout.dfy` | `MergeLayout` | `offsetHeadings`, `getFileDepth` and `groupByDirectory` of `merge.ts`. `groupByDirectory` is a method with its two loops. |
| `merge_document.dfy` | `MergeDocument` | `merge` itself: the options and their defaults, the auto-ignore of the output file, the per-node loop, the anchor patch loop and the final assembly |
| `order.dfy` | `Ordering` | `order.ts`. `orderByIndex` is a method with its three loops. |
| `discover.dfy` | `Discovery` | `discover.ts`. `walk` is a method of a `FileCollector` class whose `result` field is the list the source pushes to. |

Inputs and outputs are handled as follows:

- The file system is passed in as values. The directory tree is a
  `seq<Entry>`. The file contents are a `map` from absolute path to text. The
  manifest is an `Option<IndexConfig>`.
- `merge` returns `Result<string, string>`. The error text is what the
  source throws.
- Every operation with a loop is a method. Each method's `ensures` ties its
  result to a specification function, and lemmas state what that function
  promises.

Two behaviours of the code are easy to miss:

- Entries of the manifest's `exclude` list are compared as they are written.
  Only `order` entries go through `path.normalize` (`order.ts:54` and
  `order.ts:60`).
- `uniqueAnchors` separates anchors that were equal on input. It does not make
  all anchors unique, and running it a second time can change them again.
  `Toc.UniqueAnchorsNotGloballyUnique` shows this.

The merge runs `rewritePaths` and the auto-ignore of the output file as the
code writes them (`Paths.RewritePathsAsWritten`,
`MergeDocument.EffectiveIgnoreAsWritten`). Each of the two has a corrected
version (`Paths.RewritePaths`, `MergeDocument.EffectiveIgnore`). These exist
only as the intended halves of the two rows under "## Findings", and the model
proves where each one agrees with the code.

## Model

| member | source | states |
|---|---|---|
| Common.IndexOf | packages/core/src/paths.ts:68 | the position found holds the character and no earlier position does; no position is found exactly when the character is absent |
| Common.Split | packages/core/src/merge.ts:62 | splitting gives at least one part, and no part holds the separator |
| Common.JoinSplit | packages/core/src/discover.ts:11 | joining the parts of a split with the same separator gives back the string |
| Common.SplitJoin | packages/core/src/toc.ts:70 | splitting a join of parts that lack the separator gives back the parts |
| Common.TrimStart | packages/core/src/toc.ts:10 | the result is a suffix that does not start with whitespace, and only whitespace was dropped |
| Common.TrimEnd | packages/core/src/toc.ts:10 | the result is a prefix that does not end with whitespace, and only whitespace was dropped |
| Common.Lower | packages/core/src/toc.ts:24 | the length is kept and every character is lower-cased |
| Common.RepeatCharAt | packages/core/src/merge.ts:30 | repeating one character `n` times gives `n` copies of it |
| Common.NatToStringInjective | packages/core/src/toc.ts:40 | different counts are written as different decimal strings |
| Toc.FirstH1 | packages/core/src/toc.ts:8 | the position found is the first line start where `#`, whitespace and a character other than a line terminator follow; no earlier line start matches; no result means no line start matches |
| Toc.CaptureStart | packages/core/src/toc.ts:8 | the title group starts at the last position the greedy `\s+` permits, after at least one whitespace character |
| Toc.ExtractTitleOfLeadingH1 | packages/core/src/toc.ts:8-11 | a document whose first line is `# title` gets that line's text, trimmed, as its title |
| Toc.NoTitleFromSubheading | packages/core/src/toc.ts:8 | a `##` heading never matches the H1 pattern |
| Toc.ExtractTitleFallbackExamples | packages/core/tests/toc.test.ts:17-31 | without an H1, `my-file.md` gives `My File` and `materials/seq.md` gives `Seq` (the `_` case is stated by `Toc.HumanizeShape`) |
| Toc.StripExt | packages/core/src/toc.ts:13 | a trailing `.md` in any letter case is removed, and nothing else is |
| Toc.StripDirOneLine | packages/core/src/toc.ts:13 | on a one-line path, the result has no `/` and is the text after a `/` (or the whole path when there is none) |
| Toc.HumanizeShape | packages/core/src/toc.ts:14-16 | the length is kept; every `-` and `_` becomes a space; every word starts with a character that is not lower-case; other characters are unchanged up to letter case |
| Toc.HumanizeIdempotent | packages/core/src/merge.ts:42-46 | title-casing a name twice gives the same as doing it once |
| Toc.SlugifyIsSlug | packages/core/src/toc.ts:22-29 | a slug holds only lower-case letters, digits, `_` and `-`, never two `-` in a row, and no `-` at either end |
| Toc.SlugifyOfSlug | packages/core/src/toc.ts:22-29 | a string that already is a slug is its own slug |
| Toc.SlugifyIdempotent | packages/core/src/toc.ts:22-29 | slugifying twice gives the same as slugifying once |
| Toc.SlugifyTwoWords | packages/core/src/toc.ts:22-29 | two `\w` words, with a gap of whitespace and dropped punctuation between them and such gaps around them, give the lower-cased words joined by one `-` |
| Toc.SlugifyExampleWords | packages/core/tests/toc.test.ts:35-37 | `Hardware Requirements` becomes `hardware-requirements` |
| Toc.SlugifyExamplePunctuation | packages/core/tests/toc.test.ts:39-41 | `Hello, World!` becomes `hello-world` |
| Toc.SlugifyExampleSpaces | packages/core/tests/toc.test.ts:43-45 | `foo   bar` becomes `foo-bar` |
| Toc.UniqueAnchors | packages/core/src/toc.ts:34-44 | the loop with its map of counts returns the specification: entry `i` is suffixed with the number of earlier entries with the same anchor |
| Toc.UniqueAnchorRule | packages/core/src/toc.ts:37-42 | an entry keeps its anchor exactly when no earlier entry had it; otherwise its anchor gets `-k`, where `k` is the number of earlier entries with that anchor |
| Toc.UniqueAnchorsKeepsFields | packages/core/src/toc.ts:40 | title, source file, depth and directory flag are unchanged |
| Toc.UniqueAnchorsSeparatesEqual | packages/core/src/toc.ts:37-41 | two entries with equal anchors on input get different anchors |
| Toc.UniqueAnchorsOfDistinct | packages/core/src/toc.ts:39-42 | entries whose anchors are pairwise different come back unchanged |
| Toc.UniqueAnchorsOfRepeated | packages/core/tests/toc.test.ts:49-61 | three `intro` anchors become `intro`, `intro-1` and `intro-2` |
| Toc.UniqueAnchorsNotGloballyUnique | packages/core/src/toc.ts:37-41 | anchors `a`, `a`, `a-1` become `a`, `a-1`, `a-1`, so the result is not always unique |
| Toc.GenerateToc | packages/core/src/toc.ts:50-71 | the loop over entries returns the heading line, a blank line and one numbered line per entry, joined by newlines |
| Toc.TocSplitsIntoLines | packages/core/src/toc.ts:70 | when titles and anchors hold no newline, splitting the table at newlines gives back exactly those lines |
| Toc.TocNumber | packages/core/src/toc.ts:58-63 | counting from the entry after the last shallower one, the `k`-th entry at a depth is shown with number `k` (at least 1); deeper entries in between do not count |
| Toc.CounterSinceShallower | packages/core/src/toc.ts:62-63 | the number at depth `d` counts the entries at depth `d` since the last entry shallower than `d`, so numbering restarts after a shallower entry |
| Toc.TocResetsAfterShallower | packages/core/tests/toc.test.ts:113-124 | after `A`, `A1`, `A2` and `B`, the entry `B1` is numbered `1` with one level of indentation |
| Paths.RewriteSinglePath | packages/core/src/paths.ts:55-81 | targets starting with `http://`, `https://`, `//`, `#` or `data:` are kept; a target whose part before `#` is empty is kept; otherwise the result is the prefix joined with the part before `#`, followed by the unchanged fragment |
| Paths.FragmentSplit | packages/core/src/paths.ts:68-70 | the file part followed by the fragment is the target; the file part has no `#`; a non-empty fragment starts with `#` |
| Paths.SkippedTargetsTest | packages/core/tests/paths.test.ts:29-57 | an absolute URL, an anchor and a data URI are kept as they are |
| Paths.RewritePathsSameDir | packages/core/src/paths.ts:12-15 | there is no prefix exactly when the source and output directories are equal, and then the content is returned unchanged |
| Paths.PrefixFromAncestor | packages/core/src/paths.ts:14 | when the output directory is an ancestor of the source directory, the prefix is the path between them |
| Paths.RewritePathsMoved | packages/core/src/paths.ts:14-50 | with a prefix, the content goes through the Markdown passes and then the `<img src>` and `<a href>` passes, all calling the rewriter for that prefix |
| Paths.RewritePassesPreserveText | packages/core/src/paths.ts:18-50 | with a rewriter that changes nothing, every pass gives back the content, so the passes change only link targets |
| Paths.ImagePassOfOne | packages/core/src/paths.ts:18-24 | the image pass over `![alt](href)` gives `![alt](rw(href))` |
| Paths.ImageRewrittenOnce | packages/core/src/paths.ts:18-34 | the fused Markdown scan over `![alt](href)` gives `![alt](rw(href))` |
| Paths.LinkRewrittenOnce | packages/core/src/paths.ts:28-34 | the fused Markdown scan over `[text](href)` gives `[text](rw(href))` |
| Paths.MarkdownPiecesWithoutBracket | packages/core/src/paths.ts:18-34 | text without `[` goes through the fused Markdown scan unchanged |
| Paths.ImagePiecesWithoutBracket | packages/core/src/paths.ts:18-24 | text without `[` goes through the image pass unchanged |
| Paths.LinkPiecesWithoutBracket | packages/core/src/paths.ts:28-34 | text without `[` goes through the link pass unchanged |
| Paths.MarkdownAsWrittenWithoutBracket | packages/core/src/paths.ts:18-34 | text without `[` goes through both Markdown passes as written unchanged |
| Paths.RewritePathsAgreeWithoutBracket | packages/core/src/paths.ts:7-53 | on content without `[`, the rewriter as written and the fused one give the same result |
| Paths.LinkPassOfImage | packages/core/src/paths.ts:28-34 | the link pass leaves `![alt](h)` unchanged when neither `alt` nor `h` holds `[`, since the lookbehind refuses the `[` after `!` |
| Paths.ImagePassOfLink | packages/core/src/paths.ts:18-24 | the image pass leaves `[text](href)` unchanged when neither part holds `[` |
| Paths.LinkPassOfOne | packages/core/src/paths.ts:28-34 | the link pass over `[text](href)` gives `[text](rw(href))` |
| Paths.ImageAsWrittenOnce | packages/core/src/paths.ts:18-34 | the two Markdown passes as written turn `![alt](href)` into `![alt](rw(href))` when no `[` lies in `alt` or in `rw(href)` |
| Paths.LinkAsWrittenOnce | packages/core/src/paths.ts:18-34 | the two Markdown passes as written turn `[text](href)` into `[text](rw(href))` when no `[` lies in `text` or `href` |
| Paths.RewritePathsOfImage | packages/core/src/paths.ts:7-53 | a document that is one image without `[` in its alt text or rewritten target gets its target rewritten once, by the code as written and by the fused scan |
| Paths.FusedRewriteOfImage | packages/core/src/paths.ts:7-53 | the corrected rewriter rewrites the target of a one-image document once, whatever brackets the alt text holds |
| Paths.RewritePathsOfLink | packages/core/src/paths.ts:7-53 | a document that is one link without `[` in its text or target gets its target rewritten once, by the code as written and by the fused scan |
| Paths.FusedRewriteOfLink | packages/core/src/paths.ts:7-53 | the corrected rewriter rewrites the target of a one-link document once |
| Paths.HtmlPassesWithoutTag | packages/core/src/paths.ts:37-50 | text without `<` goes through the HTML passes unchanged |
| Paths.TagPassOfElement | packages/core/src/paths.ts:37-50 | an HTML pass over `<tag attr="value">tail` rewrites the value and keeps the rest |
| Paths.OtherTagPass | packages/core/src/paths.ts:37-50 | an HTML pass for a different tag leaves such an element unchanged |
| Paths.RewritePathsOfImgElement | packages/core/src/paths.ts:37-42 | `<img src="value">tail` gets its value rewritten once, by the code as written and by the fused scan |
| Paths.RewritePathsOfAnchorElement | packages/core/src/paths.ts:45-50 | `<a href="value">tail` gets its value rewritten once, by the code as written and by the fused scan |
| Paths.ImageTest | packages/core/tests/paths.test.ts:5-9 | `![alt](./images/diagram.png)` moved from `docs/sub` to `docs` becomes `![alt](sub/images/diagram.png)`, with the code as written and with the fused scan |
| Paths.FragmentTest | packages/core/tests/paths.test.ts:41-45 | `[link](./page.md#section)` becomes `[link](sub/page.md#section)`, with the code as written and with the fused scan |
| Paths.HtmlImageTest | packages/core/tests/paths.test.ts:17-21 | `<img src="./photo.jpg">` becomes `<img src="sub/photo.jpg">`, with the code as written and with the fused scan |
| Paths.HtmlAnchorTest | packages/core/tests/paths.test.ts:23-27 | `<a href="./page.md">link</a>` becomes `<a href="sub/page.md">link</a>`, with the code as written and with the fused scan |
| Paths.LinkPassInsideImage | packages/core/src/paths.ts:28-34 | the link pass, run over `![a[b](h)`, matches the `[b](h)` inside it |
| Paths.DoubleRewriteAsWritten | packages/core/src/paths.ts:18-34 | with the two passes as written, `![a[b](x.png)` moved by `sub` becomes `![a[b](sub/sub/x.png)` |
| Paths.SingleRewriteCorrected | packages/core/src/paths.ts:18-34 | with one scan, `![a[b](x.png)` becomes `![a[b](sub/x.png)` |
| PosixPath.NormalizeIdempotent | packages/core/src/order.ts:60 | normalizing a path twice gives the same as normalizing it once |
| PosixPath.PosixJoinPlain | packages/core/src/paths.ts:75-78 | joining two paths of plain names concatenates their names |
| PosixPath.PosixJoinDotPlain | packages/core/src/paths.ts:75-78 | a leading `./` on the second path is dropped by the join |
| PosixPath.RelativeEmptyIff | packages/core/src/paths.ts:14-15 | the relative path between two resolved directories is empty exactly when they are equal |
| PosixPath.RelativeFromAncestor | packages/core/src/discover.ts:59-60 | the path from an ancestor is the `/`-joined remaining names |
| PosixPath.DirnameOfSegments | packages/core/src/merge.ts:36 | the directory of a path of plain names drops the last name, and is `.` for a single name |
| PosixPath.DirnameOfName | packages/core/src/merge.ts:36-37 | a plain file name has directory `.` |
| MergeLayout.NewLevel | packages/core/src/merge.ts:29 | the new level is `min(level + offset, 6)`: at most both, and equal to one of them; a positive offset raises a level below 6 |
| MergeLayout.OffsetHeadingsIdentity | packages/core/src/merge.ts:27 | an offset of zero or less, or content without `#`, leaves the content unchanged |
| MergeLayout.HeadingAtStart | packages/core/src/merge.ts:28 | one to six `#` followed by whitespace, at the start of the content, are a heading |
| MergeLayout.OffsetHeadingLine | packages/core/src/merge.ts:28-30 | the line `#…# text` becomes the same text under `NewLevel` hashes and one space |
| MergeLayout.OffsetSplitsAtLineBreak | packages/core/src/merge.ts:28 | headings move line by line: the result for `line`, a line break and `rest` is the result for each part around the break |
| MergeLayout.BareHeadingJoinsNextLine | packages/core/src/merge.ts:28-30 | a line holding only hashes takes its following newline as the `\s`, so the replacement joins it to the next line |
| MergeLayout.DirParts | packages/core/src/merge.ts:58-62 | the directory names of a path are as many as its depth |
| MergeLayout.FileDepthOfSegments | packages/core/src/merge.ts:35-39 | a path of `n` plain names has depth `n - 1` and its directory names are the first `n - 1` |
| MergeLayout.DirPartsOfPlainPath | packages/core/src/merge.ts:58-62 | the directory names are the path split at `/` without its last name |
| MergeLayout.PushAncestors | packages/core/src/merge.ts:62-76 | the inner loop appends a heading node for each ancestor not seen before, and records all of them as seen |
| MergeLayout.GroupByDirectory | packages/core/src/merge.ts:53-89 | the loop returns the node list of the specification |
| MergeLayout.GroupKeepsFiles | packages/core/src/merge.ts:79-85 | the file nodes, in order, carry exactly the input files in their input order |
| MergeLayout.GroupFileNodes | packages/core/src/merge.ts:79-84 | every file node's depth is its file's depth |
| MergeLayout.GroupIsGrouped | packages/core/src/merge.ts:60-77 | every directory is headed once; a heading comes before its subdirectories and files; a heading's depth is its position in the path and its name is the last name of the path |
| MergeLayout.SeenAreAncestors | packages/core/src/merge.ts:68-69 | every directory marked as seen is an ancestor of some file |
| MergeLayout.GroupOfFlat | packages/core/src/merge.ts:128-133 | when no file is in a subdirectory, grouping gives the flat list of depth-0 file nodes |
| MergeDocument.SourceDirOfChild | packages/core/src/merge.ts:162 | a file's source directory is the directory it was found in |
| MergeDocument.ProcessDirectory | packages/core/src/merge.ts:140-155 | the body for a directory node returns its section and entry from the specification, or the error for a negative level |
| MergeDocument.ProcessFile | packages/core/src/merge.ts:156-183 | the body for a file node returns its section and entry from the specification, with the links rewritten by `rewritePaths` as written, or the read error |
| MergeDocument.ProcessNode | packages/core/src/merge.ts:139-184 | the body runs the directory or file case by node kind |
| MergeDocument.DirectoryHeading | packages/core/src/merge.ts:142-155 | a directory heading fails exactly when its level is negative; otherwise its level is `min(depth + 1 + offset, 6)`, its title is the title-cased name, and the section ends with that heading |
| MergeDocument.FileHeadingMoved | packages/core/src/merge.ts:159-182 | a file whose rewritten content is one heading line gets a section of the anchor and that line moved down by depth plus offset; its title is read before the move |
| MergeDocument.NodePartShape | packages/core/src/merge.ts:139-183 | every section opens with the anchor tag of its entry and a blank line; the anchor is a slug; depth, directory flag and source file come from the node |
| MergeDocument.PartsInNodeOrder | packages/core/src/merge.ts:139-184 | the loop succeeds exactly when every node succeeds, and then part `i` is node `i`'s section and entry |
| MergeDocument.PartsFirstError | packages/core/src/merge.ts:139-184 | a failure is the error of the first node that fails |
| MergeDocument.ReplaceAtStart | packages/core/src/merge.ts:192-195 | a tag at the start of a section is the occurrence that is replaced |
| MergeDocument.ReplaceAbsent | packages/core/src/merge.ts:192-195 | a section without the tag is left as it is |
| MergeDocument.PatchAnchors | packages/core/src/merge.ts:190-197 | the patch loop returns the patched sections of the specification |
| MergeDocument.PatchedCarryUniqueAnchors | packages/core/src/merge.ts:187-197 | each patched section opens with the anchor tag of its de-duplicated entry, and the rest of the section is unchanged |
| MergeDocument.PatchedOpening | packages/core/src/merge.ts:187-197 | every patched section starts with the tag of its table-of-contents anchor |
| MergeDocument.UniqueAnchorsKeepSlugChars | packages/core/src/toc.ts:39-41 | suffixing keeps anchors made of slug characters |
| MergeDocument.DocumentWithToc | packages/core/src/merge.ts:200-203 | with a table of contents, the document starts with its heading |
| MergeDocument.DocumentWithoutToc | packages/core/src/merge.ts:200-204 | without one, the document starts with the first section's anchor tag |
| MergeDocument.DocumentClosing | packages/core/src/merge.ts:204 | the document ends with the last patched section |
| MergeDocument.Assemble | packages/core/src/merge.ts:135-204 | the node loop, the anchor patch and the assembly return the specification's document or the first error |
| MergeDocument.ProcessNodes | packages/core/src/merge.ts:135-197 | the loop over the nodes returns the sections and entries of the parts in node order, or the error of the first node that throws |
| MergeDocument.AssembledInNodeOrder | packages/core/src/merge.ts:139-197 | entries and sections are one per node, in node order, and each section opens with the anchor of its entry |
| MergeDocument.AssembledOpening | packages/core/src/merge.ts:199-204 | the document starts with the table-of-contents heading when asked for, and otherwise with an anchor tag or is empty |
| MergeDocument.EffectiveIgnore | packages/core/src/merge.ts:112-117 | the corrected auto-ignore list equals the code as written whenever the input directory is not the root |
| MergeDocument.OutputInsideIgnored | packages/core/src/merge.ts:112-117 | an output path inside the input directory adds its relative path to the ignore list: always in the corrected list, and in the list as written when the input directory is not the root |
| MergeDocument.OutputNeverDiscovered | packages/core/src/merge.ts:112-120 | an output file inside the input directory is never among the discovered files: with the ignore list as written when the input directory is not the root, and with the corrected list always |
| MergeDocument.RootOutputNotIgnoredAsWritten | packages/core/src/merge.ts:114 | with input directory `/`, the output `/merged.md` is not auto-ignored as written; it is in the corrected list |
| MergeDocument.EmptyInputFails | packages/core/src/merge.ts:120-123 | when discovery finds no file, merging fails with `No .md files found in ` and the input directory |
| MergeDocument.MergeNodesKeepOrder | packages/core/src/merge.ts:128-133 | the merge nodes carry the ordered files in order, with at least one node per file |
| MergeDocument.Merge | packages/core/src/merge.ts:94-213 | the whole merge, with the auto-ignore test and `rewritePaths` as written, returns the specification's result |
| MergeDocument.MergeFiles | packages/core/src/merge.ts:125-204 | ordering the discovered files, building flat or grouped nodes and assembling them returns the specification's result for a non-empty file list |
| MergeDocument.MergedDocumentOpening | packages/core/src/merge.ts:199-204 | a merged document starts with the table-of-contents heading by default, and otherwise with an anchor tag or is empty |
| Ordering.SortByCorrect | packages/core/src/order.ts:24-30 | the sort is a permutation, is sorted by the comparison, and keeps the input order of tied elements, as `Array.prototype.sort` does |
| Ordering.OrderByFilenameCorrect | packages/core/src/order.ts:23-27 | ordering by file name permutes the files, sorts them by path, and keeps equal paths in input order |
| Ordering.OrderByCreatedCorrect | packages/core/src/order.ts:29-31 | ordering by creation permutes the files, sorts them by creation time, and keeps files created at the same time in input order |
| Ordering.OrderFiles | packages/core/src/order.ts:8-21 | each strategy gives its own order; `index` without a manifest gives the manifest error |
| Ordering.OrderByIndex | packages/core/src/order.ts:33-75 | without a manifest the result is the error naming `index.json` under the input directory; with one, the loops return the manifest order of the specification |
| Ordering.FileMapOf | packages/core/src/order.ts:49 | the map built from the files is the specification's map, keyed by relative path |
| Ordering.DeleteExcluded | packages/core/src/order.ts:51-56 | the map left after deleting each exclude entry is the specification's map without those keys |
| Ordering.TakeManifestOrder | packages/core/src/order.ts:58-66 | the manifest loop returns the listed entries in manifest order and the map of the entries left over |
| Ordering.ListedTwoOfThree | packages/core/src/order.ts:58-66 | with three files and a manifest naming the third then the first, the loop takes those two in that order and leaves the second |
| Ordering.IndexErrorNamesManifest | packages/core/src/order.ts:44-46 | the error starts with `index.json not found or invalid at ` and ends with the strategy sentence |
| Ordering.IndexOrderCorrect | packages/core/src/order.ts:49-74 | no path appears twice; every file is an input file whose path is not excluded; every file that is not excluded has its path present; listed files come in manifest order before unlisted ones, and unlisted ones are sorted by name |
| Ordering.IndexOrderDistinctInput | packages/core/src/order.ts:49-56 | with distinct input paths, the result holds exactly the files that are not excluded |
| Ordering.ManifestSplitOrdered | packages/core/src/order.ts:58-72 | the listed files followed by the sorted rest are ranked by manifest position and then by name |
| Ordering.ManifestSplitPermutes | packages/core/src/order.ts:58-72 | the listed files followed by the sorted rest are a permutation of the file map |
| Ordering.NormalizeName | packages/core/src/order.ts:60 | a plain file name is its own normal form |
| Ordering.IndexOrderExample | packages/core/tests/order.test.ts:23-29 | with manifest order `gamma.md`, `alpha.md`, the files alpha, beta, gamma come out as gamma, alpha, beta |
| Discovery.LiteralPattern | packages/core/src/discover.ts:9-23 | a pattern without wildcards matches exactly itself |
| Discovery.SelfMatch | packages/core/src/discover.ts:9-23 | every pattern matches its own text, in the token model where only `*`, `?`, `.` and NUL are special |
| Discovery.StarWithinSegment | packages/core/src/discover.ts:18 | `*` matches exactly the texts without `/` |
| Discovery.DoubleStarAnyPath | packages/core/src/discover.ts:17-19 | `**` matches exactly the texts without line terminators, across `/` |
| Discovery.QuestionOneChar | packages/core/src/discover.ts:20 | `?` matches exactly one character that is not `/` |
| Discovery.AnchoredExample | packages/core/src/discover.ts:22 | the match is anchored at both ends |
| Discovery.PrefixStar | packages/core/src/discover.ts:18 | `pre*` matches exactly the texts that start with `pre` and have no `/` after it |
| Discovery.DirectoryGlob | packages/core/src/discover.ts:9-23 | a path matches `dir/**` exactly when it starts with `dir/` and holds no line terminator after it; no other path matches |
| Discovery.IgnoredByItself | packages/core/src/discover.ts:28-34 | a path listed as a pattern is ignored |
| Discovery.IgnoredUnderAnyDirectory | packages/core/src/discover.ts:32 | a pattern that matches a path also ignores it under any directory, through the `**/` form |
| Discovery.FileCollector.Walk | packages/core/src/discover.ts:49-81 | the walk appends the specification's files to `result` and changes nothing else |
| Discovery.Discover | packages/core/src/discover.ts:39-47 | discovery returns the files the walk of the whole tree collects |
| Discovery.DiscoverSound | packages/core/src/discover.ts:39-81 | every discovered file is a `.md` file that the tree lists at its relative path, with the listed `birthtimeMs` and `mtimeMs`, that no pattern matches, below directories that no pattern matches, with its absolute and relative paths; without recursion, only top-level files |
| Discovery.ListedFileFound | packages/core/src/discover.ts:66-79 | a `.md` file that no pattern matches is discovered, with its timestamps |
| Discovery.ListedDirectoryEntered | packages/core/src/discover.ts:62-65 | when recursing, a directory that no pattern matches contributes all that its own walk finds |
| Discovery.DirectoryPatternPrunes | packages/core/tests/discover.test.ts:54-63 | `name/**` prunes the top-level directory `name` entirely |
| Discovery.PrefixPatternDropsFile | packages/core/tests/discover.test.ts:43-52 | `pre*` drops a top-level file whose name starts with `pre` |
| Discovery.NamePatternDropsNestedFile | packages/core/src/discover.ts:28-34 | a bare file name pattern also drops that file inside any subdirectory |

## Left out

- File system, `fs.stat`, `fs.mkdir` and `fs.writeFile`: the directory tree, the timestamps and the file contents are arguments, and the document is returned. Writing the output file is not modelled.
- `fs.readdir` order: the tree lists each directory's items in the order the walk visits them.
- `JSON.parse` of `index.json`: the manifest arrives parsed or absent. A manifest without an `order` list, which throws a `TypeError`, is not modelled. An absent `exclude` list is the empty list.
- `path.resolve` and the working directory: the input directory and the output path arrive resolved, as lists of names. Paths use `/` only, so `path.sep` is `/`.
- Ordering.OrderByFilename: `localeCompare` with numeric collation is a parameter, a total preorder on paths. So the claim that `file2` sorts before `file10` is not proved. `Ordering.CodeUnitLe` is one instance of that parameter.
- Ordering.OrderByCreated: timestamps are whole numbers, not floating point.
- Unicode: `\w` and `\b` are ASCII, as in JavaScript without the `u` flag. Upper- and lower-casing map only ASCII letters. `toLowerCase` on other letters is not modelled.
- Discovery.SelfMatch: holds in the token model only. The code escapes only `.`, so a name holding `(`, `+` or `[` does not match itself (`notes (a).md` builds `^notes (a)\.md$`). `Discovery.IgnoredByItself`, `MergeDocument.OutputInsideIgnored` and `MergeDocument.OutputNeverDiscovered` rest on it.
- Discovery.IgnoredByItself: within the same token model as `Discovery.SelfMatch`.
- Discovery.Tokens: regular-expression metacharacters in ignore patterns other than `.`, `*` and `?` are treated as literal characters. Patterns that build an invalid regular expression, which throw, are not modelled.
- Asynchronous execution: the model is sequential, in the order the awaits run.
- The command-line front end, the editor extension and the build configuration.
- Toc.TocLines: its own contract states only the line count. Its content is stated by `Toc.TocSplitsIntoLines`, `Toc.TocNumber` and `Toc.TocResetsAfterShallower`.
- MergeDocument.OutputNeverDiscovered: with the ignore list as written, the output is proved absent only when the input directory is not the root. At the root the code does not ignore the output (the second row under "## Findings").
- MergeDocument.MergeSpec: a `headingOffset` that is not a whole number is not modelled. A negative level makes `"#".repeat` throw a `RangeError`, and that error is modelled.

## Findings

| source | as written | input that shows it | evidently intended | confidence | as-written member | corrected member |
|---|---|---|---|---|---|---|
| packages/core/src/paths.ts:28-34 | the link pass runs over the output of the image pass. Its lookbehind protects only a `[` right after `!`, so a link nested in an image's alt text is rewritten a second time. | `![a[b](x.png)` in `docs/sub`, merged into `docs`, becomes `![a[b](sub/sub/x.png)` | each target is rewritten once: `![a[b](sub/x.png)` | medium, not executed | Paths.DoubleRewriteAsWritten | Paths.SingleRewriteCorrected |
| packages/core/src/merge.ts:114 | the output is auto-ignored only if it starts with the input directory plus `/`. For the root directory that prefix is `//`, which no resolved path starts with. | input directory `/`, output path `/merged.md` | the output file inside the input directory is ignored | low, not executed | MergeDocument.RootOutputNotIgnoredAsWritten | MergeDocument.OutputInsideIgnored |
