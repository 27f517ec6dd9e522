/** The second half of `merge` (`packages/core/src/merge.ts`): one section and
    one table-of-contents entry per node, anchor de-duplication and the
    patching of section anchors, the final document, and the pipeline from
    options to document with its reads and writes replaced by inputs. */
module MergeDocument {
  import opened Common
  import opened PosixPath
  import opened Types
  import opened Toc
  import opened Paths
  import opened Ordering
  import opened Discovery
  import opened MergeLayout

  // ---------------------------------------------------------------------
  // One node: its section and its table-of-contents entry
  // ---------------------------------------------------------------------

  /** `<a id="${anchor}"></a>` */
  function AnchorTag(anchor: string): string {
    "<a id=\"" + anchor + "\"></a>"
  }

  /** What a node's section depends on besides the node: the text of every
      file by absolute path (what `fs.readFile` returns), the output
      directory and the global heading offset. */
  datatype Setting = Setting(contents: map<string, string>, outputDir: AbsPath, headingOffset: int)

  /** A section of the document and its table-of-contents entry. */
  datatype Part = Part(section: string, entry: TocEntry)

  /** The message of the `RangeError` that `"#".repeat(level)` throws for a
      negative count. */
  function InvalidCount(level: int): string
    requires level < 0
  {
    "Invalid count value: -" + NatToString(-level)
  }

  /** The message `fs.readFile` rejects with when the file is gone. */
  function ReadError(path: string): string {
    "ENOENT: no such file or directory, open '" + path + "'"
  }

  /** `path.dirname(file.absolutePath)`, as a directory. Discovery builds
      every absolute path as `/` followed by `/`-joined names. */
  function SourceDir(absolutePath: string): AbsPath {
    var body := if absolutePath != [] && absolutePath[0] == '/' then absolutePath[1..] else absolutePath;
    Parent(AbsPath(Split(body, '/')))
  }

  /** The directory of a discovered file is the directory it was listed in. */
  lemma {:induction false} SourceDirOfChild(dir: AbsPath, name: string)
    requires Resolved(dir) && IsName(name)
    ensures SourceDir(AbsString(Child(dir, name))) == dir
  {
    var segs := dir.segments + [name];
    assert AbsString(Child(dir, name))[1..] == Join(segs, "/");
    forall i | 0 <= i < |segs| ensures '/' !in segs[i] {
      if i < |dir.segments| {
        assert IsName(dir.segments[i]);
      }
    }
    SplitJoin(segs, '/');
    assert segs[..|segs| - 1] == dir.segments;
  }

  /** The body of the loop over the nodes in `merge` for a directory node:
      an anchor and a heading one level below the directory's depth plus the
      global offset, capped at 6, or the error `repeat` throws for a negative
      level. */
  function DirPart(depth: nat, name: string, st: Setting): Result<Part, string> {
    var title := Humanize(name);
    var anchor := Slugify(title);
    var level := NewLevel(depth + 1, st.headingOffset);
    if level < 0 then Err(InvalidCount(level))
    else
      Ok(Part(AnchorTag(anchor) + "\n\n" + Repeat("#", level) + " " + title,
              TocEntry(title, anchor, name + "/", Some(depth), true)))
  }

  /** The body of the loop for a file node: an anchor and the file's text
      with relative links rewritten and headings moved down by the file's
      depth plus the global offset, its title read before the move; or the
      error of the read. */
  function FilePart(depth: nat, file: FileEntry, st: Setting): Result<Part, string> {
    if file.absolutePath !in st.contents then Err(ReadError(file.absolutePath))
    else
      var content := RewritePathsAsWritten(st.contents[file.absolutePath], SourceDir(file.absolutePath), st.outputDir);
      Ok(FileSection(content, file.relativePath, depth, depth + st.headingOffset))
  }

  /** The part of a file whose links are already rewritten: its title comes
      from the content before its headings move down by `offset`. */
  function FileSection(content: string, relativePath: string, depth: nat, offset: int): Part {
    var title := ExtractTitle(content, relativePath);
    var anchor := Slugify(title);
    Part(AnchorTag(anchor) + "\n\n" + OffsetHeadings(content, offset),
         TocEntry(title, anchor, relativePath, Some(depth), false))
  }

  /** The body of the loop for one node: the section and the entry it
      pushes, or the error it throws. */
  function NodePart(node: MergeNode, st: Setting): Result<Part, string> {
    match node
    case DirNode(depth, name) => DirPart(depth, name, st)
    case FileNode(depth, _, file) => FilePart(depth, file, st)
  }

  /** The loop body as a function value. */
  function Body(st: Setting): MergeNode -> Result<Part, string> {
    node => NodePart(node, st)
  }

  /** The loop over the nodes with the body `body`: one part per node in
      node order, or the error of the first node that throws. */
  function PartsWith(nodes: seq<MergeNode>, body: MergeNode -> Result<Part, string>): Result<seq<Part>, string> {
    if nodes == [] then Ok([])
    else
      match PartsWith(nodes[..|nodes| - 1], body)
      case Err(e) => Err(e)
      case Ok(ps) =>
        match body(nodes[|nodes| - 1])
        case Err(e) => Err(e)
        case Ok(p) => Ok(ps + [p])
  }

  /** The loop over the nodes of `merge`. */
  function Parts(nodes: seq<MergeNode>, st: Setting): Result<seq<Part>, string> {
    PartsWith(nodes, Body(st))
  }

  /** The loop succeeds exactly when the body does on every node, and then
      part `i` is the body's result on node `i`: sections and entries stay in
      node order, one each. */
  lemma {:induction false} PartsInNodeOrder(nodes: seq<MergeNode>, body: MergeNode -> Result<Part, string>)
    ensures PartsWith(nodes, body).Ok? <==> forall i :: 0 <= i < |nodes| ==> body(nodes[i]).Ok?
    ensures PartsWith(nodes, body).Ok? ==>
      var ps := PartsWith(nodes, body).value;
      |ps| == |nodes| && forall i :: 0 <= i < |nodes| ==> body(nodes[i]) == Ok(ps[i])
  {
    if nodes != [] {
      var init := nodes[..|nodes| - 1];
      PartsInNodeOrder(init, body);
      forall i | 0 <= i < |init| ensures init[i] == nodes[i] { }
    }
  }

  /** When the loop fails, it fails with the error of the first node on
      which the body throws. */
  lemma {:induction false} PartsFirstError(nodes: seq<MergeNode>, body: MergeNode -> Result<Part, string>)
    requires PartsWith(nodes, body).Err?
    ensures exists i :: 0 <= i < |nodes| && body(nodes[i]) == Err(PartsWith(nodes, body).error)
                        && forall j :: 0 <= j < i ==> body(nodes[j]).Ok?
  {
    var init := nodes[..|nodes| - 1];
    forall i | 0 <= i < |init| ensures init[i] == nodes[i] { }
    if PartsWith(init, body).Err? {
      PartsFirstError(init, body);
      var i :| 0 <= i < |init| && body(init[i]) == Err(PartsWith(init, body).error)
               && forall j :: 0 <= j < i ==> body(init[j]).Ok?;
      assert body(nodes[i]) == Err(PartsWith(nodes, body).error);
    } else {
      PartsInNodeOrder(init, body);
      var i := |nodes| - 1;
      assert forall j :: 0 <= j < i ==> body(init[j]).Ok?;
      assert body(nodes[i]) == Err(PartsWith(nodes, body).error);
    }
  }

  /** A directory's section starts with the anchor of its entry and a blank
      line, the anchor is a slug, and the entry records the directory's
      depth and name with a trailing `/`. */
  lemma {:induction false} DirPartShape(depth: nat, name: string, st: Setting)
    requires DirPart(depth, name, st).Ok?
    ensures var p := DirPart(depth, name, st).value;
      && StartsWith(p.section, AnchorTag(p.entry.anchor) + "\n\n")
      && IsSlug(p.entry.anchor)
      && p.entry.depth == Some(depth) && p.entry.isDirectory && p.entry.sourceFile == name + "/"
  {
    var p := DirPart(depth, name, st).value;
    SlugifyIsSlug(p.entry.title);
    var tag := AnchorTag(p.entry.anchor) + "\n\n";
    var level := NewLevel(depth + 1, st.headingOffset);
    assert p.section == tag + (Repeat("#", level) + " " + p.entry.title);
  }

  /** A file's section starts with the anchor of its entry and a blank line,
      the anchor is a slug, and the entry records the file's depth and
      relative path. */
  lemma {:induction false} FilePartShape(depth: nat, file: FileEntry, st: Setting)
    requires FilePart(depth, file, st).Ok?
    ensures var p := FilePart(depth, file, st).value;
      && StartsWith(p.section, AnchorTag(p.entry.anchor) + "\n\n")
      && IsSlug(p.entry.anchor)
      && p.entry.depth == Some(depth) && !p.entry.isDirectory && p.entry.sourceFile == file.relativePath
  {
    var content := RewritePathsAsWritten(st.contents[file.absolutePath], SourceDir(file.absolutePath), st.outputDir);
    FileSectionShape(content, file.relativePath, depth, depth + st.headingOffset);
  }

  /** A file's part starts with its anchor and a blank line whatever the
      content; the anchor is a slug. */
  lemma {:induction false} FileSectionShape(content: string, relativePath: string, depth: nat, offset: int)
    ensures var p := FileSection(content, relativePath, depth, offset);
      && StartsWith(p.section, AnchorTag(p.entry.anchor) + "\n\n")
      && IsSlug(p.entry.anchor)
      && p.entry.depth == Some(depth) && !p.entry.isDirectory && p.entry.sourceFile == relativePath
  {
    var title := ExtractTitle(content, relativePath);
    var anchor := Slugify(title);
    var tag := AnchorTag(anchor) + "\n\n";
    var rest := OffsetHeadings(content, offset);
    SlugifyIsSlug(title);
    assert (tag + rest)[..|tag|] == tag;
  }

  /** Every section starts with the anchor of its entry and a blank line, the
      anchor is a slug, and the entry records the node's depth, kind and
      source. */
  lemma {:induction false} NodePartShape(node: MergeNode, st: Setting)
    requires NodePart(node, st).Ok?
    ensures var p := NodePart(node, st).value;
      && StartsWith(p.section, AnchorTag(p.entry.anchor) + "\n\n")
      && IsSlug(p.entry.anchor)
      && p.entry.depth == Some(node.depth)
      && p.entry.isDirectory == node.DirNode?
      && p.entry.sourceFile == (if node.DirNode? then node.name + "/" else node.file.relativePath)
  {
    match node
    case DirNode(depth, name) => DirPartShape(depth, name, st);
    case FileNode(depth, _, file) => FilePartShape(depth, file, st);
  }

  /** Every part the loop produces starts with the anchor of its own entry. */
  lemma {:induction false} PartsAnchored(nodes: seq<MergeNode>, st: Setting)
    requires Parts(nodes, st).Ok?
    ensures Anchored(Parts(nodes, st).value)
  {
    var ps := Parts(nodes, st).value;
    PartsInNodeOrder(nodes, Body(st));
    forall i | 0 <= i < |ps| ensures StartsWith(ps[i].section, AnchorTag(ps[i].entry.anchor) + "\n\n") {
      NodePartShape(nodes[i], st);
    }
  }

  /** A directory node fails exactly when its heading level would be
      negative; otherwise its heading has `min(depth + 1 + offset, 6)` marks,
      at least one when the offset is not negative, and its title is the
      humanized directory name. */
  lemma {:induction false} DirectoryHeading(depth: nat, name: string, st: Setting)
    ensures DirPart(depth, name, st).Err? <==> depth + 1 + st.headingOffset < 0
    ensures DirPart(depth, name, st).Ok? ==>
      var level := if depth + 1 + st.headingOffset < 6 then depth + 1 + st.headingOffset else 6;
      && level >= 0
      && (st.headingOffset >= 0 ==> 1 <= level)
      && EndsWith(DirPart(depth, name, st).value.section, Repeat("#", level) + " " + Humanize(name))
      && DirPart(depth, name, st).value.entry.title == Humanize(name)
  {
    if DirPart(depth, name, st).Ok? {
      var level := NewLevel(depth + 1, st.headingOffset);
      var section := DirPart(depth, name, st).value.section;
      var tail := Repeat("#", level) + " " + Humanize(name);
      assert section == (AnchorTag(Slugify(Humanize(name))) + "\n\n") + tail;
    }
  }

  /** A file whose rewritten text is a single heading line of `n` marks gets
      that heading moved down by its depth plus the global offset (capped at
      6), while its entry keeps the title read before the move. */
  lemma {:induction false} FileHeadingMoved(depth: nat, file: FileEntry, st: Setting, n: nat, c: char, text: string)
    requires file.absolutePath in st.contents
    requires RewritePathsAsWritten(st.contents[file.absolutePath], SourceDir(file.absolutePath), st.outputDir)
             == Repeat("#", n) + [c] + text
    requires 1 <= n <= 6 && depth + st.headingOffset > 0
    requires IsSpace(c) && !IsLineTerminator(c) && NoLineBreak(text)
    ensures FilePart(depth, file, st).Ok?
    ensures var p := FilePart(depth, file, st).value;
      && p.section == AnchorTag(p.entry.anchor) + "\n\n"
                      + Repeat("#", NewLevel(n, depth + st.headingOffset)) + " " + text
      && p.entry.title == ExtractTitle(Repeat("#", n) + [c] + text, file.relativePath)
  {
    var content := RewritePathsAsWritten(st.contents[file.absolutePath], SourceDir(file.absolutePath), st.outputDir);
    assert FilePart(depth, file, st) == Ok(FileSection(content, file.relativePath, depth, depth + st.headingOffset));
    FileSectionOfHeading(file.relativePath, depth, depth + st.headingOffset, n, c, text);
  }

  lemma {:induction false} FileSectionOfHeading(relativePath: string, depth: nat, offset: int, n: nat, c: char, text: string)
    requires 1 <= n <= 6 && offset > 0
    requires IsSpace(c) && !IsLineTerminator(c) && NoLineBreak(text)
    ensures var content := Repeat("#", n) + [c] + text;
      var p := FileSection(content, relativePath, depth, offset);
      && p.section == AnchorTag(p.entry.anchor) + "\n\n" + Repeat("#", NewLevel(n, offset)) + " " + text
      && p.entry.title == ExtractTitle(content, relativePath)
  {
    OffsetHeadingLine(n, c, text, offset);
    SectionAround(Repeat("#", n) + [c] + text, relativePath, depth, offset, Repeat("#", NewLevel(n, offset)), text);
  }

  /** A file section is its anchor tag, a blank line and the moved text. */
  lemma {:induction false} SectionAround(content: string, relativePath: string, depth: nat, offset: int, marks: string, text: string)
    requires OffsetHeadings(content, offset) == marks + " " + text
    ensures var p := FileSection(content, relativePath, depth, offset);
      && p.section == AnchorTag(p.entry.anchor) + "\n\n" + marks + " " + text
      && p.entry.title == ExtractTitle(content, relativePath)
  {
    var p := FileSection(content, relativePath, depth, offset);
    var tag := AnchorTag(p.entry.anchor) + "\n\n";
    assert p.section == tag + (marks + " " + text);
  }

  // ---------------------------------------------------------------------
  // Patching the section anchors
  // ---------------------------------------------------------------------

  /** `pattern` occurs in `s` at position `k`. */
  predicate OccursAt(s: string, pattern: string, k: nat) {
    k + |pattern| <= |s| && s[k..k + |pattern|] == pattern
  }

  /** The first position at or after `from` where `pattern` occurs in `s`. */
  function FindFrom(s: string, pattern: string, from: nat): (r: Option<nat>)
    requires from <= |s|
    ensures r.Some? ==> from <= r.value && OccursAt(s, pattern, r.value)
    ensures forall k: nat :: from <= k && (r.None? || k < r.value) ==> !OccursAt(s, pattern, k)
    decreases |s| - from
  {
    if from + |pattern| > |s| then None
    else if s[from..from + |pattern|] == pattern then Some(from)
    else FindFrom(s, pattern, from + 1)
  }

  /** `s.replace(pattern, replacement)` with a string pattern: the first
      occurrence is replaced, and `s` is returned when there is none. */
  function ReplaceFirst(s: string, pattern: string, replacement: string): string {
    match FindFrom(s, pattern, 0)
    case None => s
    case Some(i) => s[..i] + replacement + s[i + |pattern|..]
  }

  /** A text that starts with the pattern gets the replacement in its place. */
  lemma {:induction false} ReplaceAtStart(s: string, pattern: string, replacement: string)
    requires StartsWith(s, pattern)
    ensures ReplaceFirst(s, pattern, replacement) == replacement + s[|pattern|..]
  {
    assert OccursAt(s, pattern, 0);
    assert FindFrom(s, pattern, 0) == Some(0);
  }

  /** A text without the pattern is returned unchanged. */
  lemma {:induction false} ReplaceAbsent(s: string, pattern: string, replacement: string)
    requires forall k: nat :: !OccursAt(s, pattern, k)
    ensures ReplaceFirst(s, pattern, replacement) == s
  {
    assert FindFrom(s, pattern, 0).None?;
  }

  /** The entries as the loop pushed them. */
  function Entries(ps: seq<Part>): (es: seq<TocEntry>)
    ensures |es| == |ps|
  {
    seq(|ps|, i requires 0 <= i < |ps| => ps[i].entry)
  }

  /** The sections as the loop pushed them. */
  function Sections(ps: seq<Part>): (ss: seq<string>)
    ensures |ss| == |ps|
  {
    seq(|ps|, i requires 0 <= i < |ps| => ps[i].section)
  }

  /** Section `i` after the patch loop, given entry `i` after `uniqueAnchors`. */
  function Patched(p: Part, unique: TocEntry): string {
    if unique.anchor != p.entry.anchor then ReplaceFirst(p.section, AnchorTag(p.entry.anchor), AnchorTag(unique.anchor))
    else p.section
  }

  /** All sections after the patch loop. */
  function PatchedSections(ps: seq<Part>): (ss: seq<string>)
    ensures |ss| == |ps|
  {
    var unique := UniqueAnchorsSpec(Entries(ps));
    seq(|ps|, i requires 0 <= i < |ps| => Patched(ps[i], unique[i]))
  }

  /** Every section starts with the anchor of its own entry. */
  predicate Anchored(ps: seq<Part>) {
    forall i :: 0 <= i < |ps| ==> StartsWith(ps[i].section, AnchorTag(ps[i].entry.anchor) + "\n\n")
  }

  /** After patching, section `i` carries the anchor of the `i`-th entry of
      the de-duplicated table of contents, and nothing else in it changed. */
  lemma {:induction false} PatchedCarryUniqueAnchors(ps: seq<Part>)
    requires Anchored(ps)
    ensures forall i :: 0 <= i < |ps| ==>
      PatchedSections(ps)[i]
        == AnchorTag(UniqueAnchorsSpec(Entries(ps))[i].anchor) + ps[i].section[|AnchorTag(ps[i].entry.anchor)|..]
  {
    var unique := UniqueAnchorsSpec(Entries(ps));
    forall i | 0 <= i < |ps|
      ensures PatchedSections(ps)[i] == AnchorTag(unique[i].anchor) + ps[i].section[|AnchorTag(ps[i].entry.anchor)|..]
    {
      var tag := AnchorTag(ps[i].entry.anchor);
      assert StartsWith(ps[i].section, tag + "\n\n");
      assert ps[i].section[..|tag|] == tag;
      if unique[i].anchor != ps[i].entry.anchor {
        ReplaceAtStart(ps[i].section, tag, AnchorTag(unique[i].anchor));
      } else {
        assert ps[i].section == tag + ps[i].section[|tag|..];
      }
    }
  }

  /** Every anchor after `uniqueAnchors` is made of slug characters when
      every anchor before it was: a `-` and a decimal count are all it adds.
      So no replacement text holds a `$`, and `replace` inserts it literally. */
  lemma {:induction false} UniqueAnchorsKeepSlugChars(es: seq<TocEntry>)
    requires forall i, j :: 0 <= i < |es| && 0 <= j < |es[i].anchor| ==> IsSlugChar(es[i].anchor[j])
    ensures forall i, j :: 0 <= i < |es| && 0 <= j < |UniqueAnchorsSpec(es)[i].anchor|
                           ==> IsSlugChar(UniqueAnchorsSpec(es)[i].anchor[j])
  {
    forall i, j | 0 <= i < |es| && 0 <= j < |UniqueAnchorsSpec(es)[i].anchor|
      ensures IsSlugChar(UniqueAnchorsSpec(es)[i].anchor[j])
    {
      var a := es[i].anchor;
      var k := CountAnchor(es[..i], a);
      if k > 0 {
        var digits := NatToString(k);
        assert UniqueAnchorsSpec(es)[i].anchor == a + "-" + digits;
        if j > |a| {
          assert UniqueAnchorsSpec(es)[i].anchor[j] == digits[j - |a| - 1];
        }
      }
    }
  }

  // ---------------------------------------------------------------------
  // The document
  // ---------------------------------------------------------------------

  /** The table of contents and a blank line when `toc` is set, then the
      patched sections joined by the separator. */
  function Document(ps: seq<Part>, toc: bool, separator: string): string {
    (if toc then Join(TocLines(UniqueAnchorsSpec(Entries(ps))), "\n") + "\n\n" else "")
    + Join(PatchedSections(ps), separator)
  }

  /** The document for a node list, or the error of the first node that throws. */
  function Assembled(nodes: seq<MergeNode>, st: Setting, toc: bool, separator: string): Result<string, string> {
    match Parts(nodes, st)
    case Err(e) => Err(e)
    case Ok(ps) => Ok(Document(ps, toc, separator))
  }

  /** A non-empty join starts with its first part and ends with its last. */
  lemma {:induction false} JoinEnds(parts: seq<string>, sep: string)
    requires parts != []
    ensures StartsWith(Join(parts, sep), parts[0])
    ensures EndsWith(Join(parts, sep), parts[|parts| - 1])
  {
    if |parts| > 1 {
      var first := parts[0];
      var last := parts[|parts| - 1];
      var rest := Join(parts[1..], sep);
      JoinEnds(parts[1..], sep);
      assert parts[1..][|parts[1..]| - 1] == last;
      var whole := first + sep + rest;
      assert Join(parts, sep) == whole;
      assert whole[..|first|] == first;
      assert |last| <= |rest| && rest[|rest| - |last|..] == last;
      assert whole[|whole| - |last|..] == rest[|rest| - |last|..];
    }
  }

  /** Text added after a prefix keeps it; text added before a suffix keeps it. */
  lemma {:induction false} ConcatEnds(a: string, b: string, p: string)
    ensures StartsWith(a, p) ==> StartsWith(a + b, p)
    ensures EndsWith(b, p) ==> EndsWith(a + b, p)
  {
    if StartsWith(a, p) {
      assert (a + b)[..|p|] == a[..|p|];
    }
    if EndsWith(b, p) {
      assert (a + b)[|a + b| - |p|..] == b[|b| - |p|..];
    }
  }

  /** The table of contents opens with its heading line. */
  lemma {:induction false} TocOpensWithHeading(es: seq<TocEntry>)
    ensures StartsWith(Join(TocLines(es), "\n"), "# Table of Contents\n")
  {
    var lines := TocLines(es);
    var rest := Join(lines[1..], "\n");
    assert Join(lines, "\n") == "# Table of Contents\n" + rest;
    ConcatEnds("# Table of Contents\n", rest, "# Table of Contents\n");
  }

  /** The first entry keeps its anchor, so the first section is not patched. */
  lemma {:induction false} FirstSectionUnpatched(ps: seq<Part>)
    requires ps != []
    ensures PatchedSections(ps)[0] == ps[0].section
  {
    assert UniqueAnchorsSpec(Entries(ps))[0] == Entries(ps)[0];
  }

  /** A prefix of a prefix is a prefix. */
  lemma {:induction false} StartsWithTrans(s: string, p: string, q: string)
    requires StartsWith(s, p) && StartsWith(p, q)
    ensures StartsWith(s, q)
  {
    assert s[..|q|] == p[..|q|];
  }

  /** With a table of contents the document opens with its heading. */
  lemma {:induction false} DocumentWithToc(ps: seq<Part>, separator: string)
    ensures StartsWith(Document(ps, true, separator), "# Table of Contents\n")
  {
    var t := Join(TocLines(UniqueAnchorsSpec(Entries(ps))), "\n");
    var body := Join(PatchedSections(ps), separator);
    assert Document(ps, true, separator) == t + ("\n\n" + body);
    TocOpensWithHeading(UniqueAnchorsSpec(Entries(ps)));
    ConcatEnds(t, "\n\n" + body, "# Table of Contents\n");
  }

  /** Without a table of contents a document of no section is empty. */
  lemma {:induction false} DocumentWithoutTocEmpty(separator: string)
    ensures Document([], false, separator) == ""
  {
    assert PatchedSections([]) == [];
  }

  /** Without a table of contents the document opens with the first section,
      whose anchor is never renamed. */
  lemma {:induction false} DocumentWithoutToc(ps: seq<Part>, separator: string)
    requires Anchored(ps) && ps != []
    ensures StartsWith(Document(ps, false, separator), AnchorTag(ps[0].entry.anchor) + "\n\n")
    ensures StartsWith(Document(ps, false, separator), "<a id=\"")
  {
    var sections := PatchedSections(ps);
    var body := Join(sections, separator);
    assert Document(ps, false, separator) == body;
    JoinEnds(sections, separator);
    FirstSectionUnpatched(ps);
    var tag := AnchorTag(ps[0].entry.anchor) + "\n\n";
    StartsWithTrans(body, sections[0], tag);
    var open := "<a id=\"";
    assert tag[..|open|] == open;
    StartsWithTrans(body, tag, open);
  }

  /** The last section closes the document. */
  lemma {:induction false} DocumentClosing(ps: seq<Part>, toc: bool, separator: string)
    requires ps != []
    ensures EndsWith(Document(ps, toc, separator), PatchedSections(ps)[|ps| - 1])
  {
    var sections := PatchedSections(ps);
    var body := Join(sections, separator);
    var head := if toc then Join(TocLines(UniqueAnchorsSpec(Entries(ps))), "\n") + "\n\n" else "";
    assert Document(ps, toc, separator) == head + body;
    JoinEnds(sections, separator);
    ConcatEnds(head, body, sections[|ps| - 1]);
  }

  /** An error in the first `k` nodes is the error of the whole loop. */
  lemma {:induction false} PartsPrefixErr(nodes: seq<MergeNode>, k: nat, body: MergeNode -> Result<Part, string>)
    requires k <= |nodes| && PartsWith(nodes[..k], body).Err?
    ensures PartsWith(nodes, body) == PartsWith(nodes[..k], body)
    decreases |nodes|
  {
    if k == |nodes| {
      assert nodes[..k] == nodes;
    } else {
      var init := nodes[..|nodes| - 1];
      assert init[..k] == nodes[..k];
      PartsPrefixErr(init, k, body);
    }
  }

  /** The body of the loop over the nodes for a directory node. */
  method ProcessDirectory(depth: nat, name: string, st: Setting) returns (r: Result<Part, string>)
    ensures r == DirPart(depth, name, st)
  {
    var dirTitle := Humanize(name);
    var dirAnchor := Slugify(dirTitle);
    var level := if depth + 1 + st.headingOffset < 6 then depth + 1 + st.headingOffset else 6;
    if level < 0 {
      return Err(InvalidCount(level));
    }
    var hashes := Repeat("#", level);
    var entry := TocEntry(dirTitle, dirAnchor, name + "/", Some(depth), true);
    r := Ok(Part(AnchorTag(dirAnchor) + "\n\n" + hashes + " " + dirTitle, entry));
  }

  /** The body of the loop over the nodes for a file node. */
  method ProcessFile(depth: nat, file: FileEntry, st: Setting) returns (r: Result<Part, string>)
    ensures r == FilePart(depth, file, st)
  {
    if file.absolutePath !in st.contents {
      return Err(ReadError(file.absolutePath));
    }
    var content := st.contents[file.absolutePath];
    var sourceDir := SourceDir(file.absolutePath);
    content := RewritePathsAsWritten(content, sourceDir, st.outputDir);
    var title := ExtractTitle(content, file.relativePath);
    var totalOffset := depth + st.headingOffset;
    if totalOffset > 0 {
      content := OffsetHeadings(content, totalOffset);
    }
    var anchor := Slugify(title);
    var entry := TocEntry(title, anchor, file.relativePath, Some(depth), false);
    r := Ok(Part(AnchorTag(anchor) + "\n\n" + content, entry));
  }

  /** The body of the loop over the nodes, for one node. */
  method ProcessNode(node: MergeNode, st: Setting) returns (r: Result<Part, string>)
    ensures r == NodePart(node, st)
  {
    match node
    case DirNode(depth, name) => r := ProcessDirectory(depth, name, st);
    case FileNode(depth, _, file) => r := ProcessFile(depth, file, st);
  }

  /** The patch loop: section `i` gets the `i`-th de-duplicated anchor in
      place of its own when the two differ. */
  method PatchAnchors(sections: seq<string>, tocEntries: seq<TocEntry>, uniqueTocEntries: seq<TocEntry>,
                      ghost ps: seq<Part>) returns (patched: seq<string>)
    requires sections == Sections(ps) && tocEntries == Entries(ps)
    requires uniqueTocEntries == UniqueAnchorsSpec(tocEntries)
    ensures patched == PatchedSections(ps)
  {
    patched := sections;
    for i := 0 to |uniqueTocEntries|
      invariant |patched| == |ps|
      invariant forall j :: 0 <= j < i ==> patched[j] == PatchedSections(ps)[j]
      invariant forall j :: i <= j < |ps| ==> patched[j] == ps[j].section
    {
      if uniqueTocEntries[i].anchor != tocEntries[i].anchor {
        patched := patched[i := ReplaceFirst(patched[i], AnchorTag(tocEntries[i].anchor),
                                              AnchorTag(uniqueTocEntries[i].anchor))];
      }
    }
  }

  /** The loop over the nodes of `merge`: the sections and entries of the
      parts in node order, or the error of the first node that throws. */
  method ProcessNodes(nodes: seq<MergeNode>, st: Setting) returns (r: Result<(seq<string>, seq<TocEntry>), string>)
    ensures Parts(nodes, st).Err? ==> r == Err(Parts(nodes, st).error)
    ensures Parts(nodes, st).Ok? ==>
      r == Ok((Sections(Parts(nodes, st).value), Entries(Parts(nodes, st).value)))
  {
    var sections: seq<string> := [];
    var tocEntries: seq<TocEntry> := [];
    for i := 0 to |nodes|
      invariant Parts(nodes[..i], st).Ok?
      invariant sections == Sections(Parts(nodes[..i], st).value)
      invariant tocEntries == Entries(Parts(nodes[..i], st).value)
    {
      ghost var ps := Parts(nodes[..i], st).value;
      var part := ProcessNode(nodes[i], st);
      PartsStep(nodes, i, st);
      if part.Err? {
        r := Err(part.error);
        PartsPrefixErr(nodes, i + 1, Body(st));
        return;
      }
      SectionsEntriesSnoc(ps, part.value);
      tocEntries := tocEntries + [part.value.entry];
      sections := sections + [part.value.section];
    }
    assert nodes[..|nodes|] == nodes;
    r := Ok((sections, tocEntries));
  }

  /** One more turn of the node loop: the next node's error, or its part
      appended. */
  lemma {:induction false} PartsStep(nodes: seq<MergeNode>, i: nat, st: Setting)
    requires i < |nodes| && Parts(nodes[..i], st).Ok?
    ensures NodePart(nodes[i], st).Err? ==> Parts(nodes[..i + 1], st) == Err(NodePart(nodes[i], st).error)
    ensures NodePart(nodes[i], st).Ok? ==>
      Parts(nodes[..i + 1], st) == Ok(Parts(nodes[..i], st).value + [NodePart(nodes[i], st).value])
  {
    assert nodes[..i + 1][..i] == nodes[..i];
    assert Body(st)(nodes[i]) == NodePart(nodes[i], st);
  }

  /** Pushing a part pushes its section and its entry. */
  lemma {:induction false} SectionsEntriesSnoc(ps: seq<Part>, p: Part)
    ensures Sections(ps + [p]) == Sections(ps) + [p.section]
    ensures Entries(ps + [p]) == Entries(ps) + [p.entry]
  {
  }

  /** The loop over the nodes, the patch loop and the final concatenation of
      `merge`. */
  method Assemble(nodes: seq<MergeNode>, st: Setting, toc: bool, separator: string) returns (r: Result<string, string>)
    ensures r == Assembled(nodes, st, toc, separator)
  {
    var collected := ProcessNodes(nodes, st);
    if collected.Err? {
      return Err(collected.error);
    }
    var (sections, tocEntries) := collected.value;
    ghost var ps := Parts(nodes, st).value;

    var uniqueTocEntries := UniqueAnchors(tocEntries);
    sections := PatchAnchors(sections, tocEntries, uniqueTocEntries, ps);

    ghost var head := if toc then Join(TocLines(UniqueAnchorsSpec(Entries(ps))), "\n") + "\n\n" else "";
    var result := "";
    if toc {
      var t := GenerateToc(uniqueTocEntries);
      result := result + t + "\n\n";
      assert result == head;
    }
    result := result + Join(sections, separator);
    assert result == head + Join(PatchedSections(ps), separator);
    r := Ok(result);
  }

  // ---------------------------------------------------------------------
  // The merge pipeline
  // ---------------------------------------------------------------------

  /** `MergeOptions`, with the input and output paths already resolved. A
      field left out by the caller is `None`. */
  datatype MergeOptions = MergeOptions(
    inputDir: AbsPath,
    outputPath: Option<AbsPath>,
    order: Option<OrderStrategy>,
    toc: Option<bool>,
    recursive: Option<bool>,
    separator: Option<string>,
    headingOffset: Option<int>,
    ignore: Option<seq<string>>)

  /** A destructuring default: it applies only when the field is missing. */
  function OrDefault<T>(field: Option<T>, default: T): T {
    match field
    case None => default
    case Some(v) => v
  }

  const DefaultSeparator := "\n---\n\n"

  /** The directory relative links are rewritten against: the output file's
      directory, or the input directory when nothing is written. */
  function OutputDir(opts: MergeOptions): AbsPath {
    match opts.outputPath
    case None => opts.inputDir
    case Some(out) => Parent(out)
  }

  /** The auto-ignore of the output file as written: it is added when the
      output path starts with the input directory and a separator. For the
      root directory that prefix is `//`, which no resolved path starts with. */
  function EffectiveIgnoreAsWritten(inputDir: AbsPath, outputPath: Option<AbsPath>, ignore: seq<string>): seq<string> {
    if outputPath.Some? && StartsWith(AbsString(outputPath.value), AbsString(inputDir) + "/")
    then ignore + [Relative(inputDir, outputPath.value)]
    else ignore
  }

  /** The prefix of every path strictly inside `inputDir`. */
  function InsidePrefix(inputDir: AbsPath): string {
    if inputDir.segments == [] then "/" else AbsString(inputDir) + "/"
  }

  /** The auto-ignore of the output file with the root directory handled:
      outside the root it is the code as written. */
  function EffectiveIgnore(inputDir: AbsPath, outputPath: Option<AbsPath>, ignore: seq<string>): (r: seq<string>)
    ensures inputDir.segments != [] ==> r == EffectiveIgnoreAsWritten(inputDir, outputPath, ignore)
  {
    if outputPath.Some? && StartsWith(AbsString(outputPath.value), InsidePrefix(inputDir))
    then ignore + [Relative(inputDir, outputPath.value)]
    else ignore
  }

  /** Merging the root directory into `/merged.md`: the code as written does
      not ignore the output file, so a second run would merge the first run's
      result; the corrected test ignores it. */
  lemma {:induction false} RootOutputNotIgnoredAsWritten()
    ensures EffectiveIgnoreAsWritten(AbsPath([]), Some(AbsPath(["merged.md"])), []) == []
    ensures EffectiveIgnore(AbsPath([]), Some(AbsPath(["merged.md"])), []) == ["merged.md"]
  {
    var out := AbsPath(["merged.md"]);
    assert AbsString(out) == "/merged.md";
    assert AbsString(out)[1] == 'm';
    assert AbsString(out)[..2] != "//";
    assert StartsWith(AbsString(out), "/");
    RelativeFromAncestor(AbsPath([]), out);
    assert out.segments[0..] == ["merged.md"];
  }

  /** An output file strictly inside the input directory is added to the
      ignore list under its path relative to that directory: by the corrected
      test always, and by the test as written whenever the input directory is
      not the root. */
  lemma {:induction false} OutputInsideIgnored(inputDir: AbsPath, rest: seq<string>, ignore: seq<string>)
    requires rest != []
    ensures EffectiveIgnore(inputDir, Some(AbsPath(inputDir.segments + rest)), ignore)
            == ignore + [Join(rest, "/")]
    ensures inputDir.segments != [] ==>
      EffectiveIgnoreAsWritten(inputDir, Some(AbsPath(inputDir.segments + rest)), ignore) == ignore + [Join(rest, "/")]
  {
    var out := AbsPath(inputDir.segments + rest);
    assert out.segments[..|inputDir.segments|] == inputDir.segments;
    assert out.segments[|inputDir.segments|..] == rest;
    RelativeFromAncestor(inputDir, out);
    var tail := Join(rest, "/");
    if inputDir.segments == [] {
      assert AbsString(out) == "/" + tail;
      assert AbsString(out)[..1] == "/";
    } else {
      var head := Join(inputDir.segments, "/");
      JoinAppend(inputDir.segments, rest, "/");
      assert AbsString(out) == ("/" + head + "/") + tail;
      assert AbsString(out)[..|InsidePrefix(inputDir)|] == InsidePrefix(inputDir);
    }
  }

  /** The output file, when it lies inside the input directory, is never
      among the files discovered for the merge: with the ignore list as
      written when the input directory is not the root, and with the
      corrected one always. Like `Discovery.SelfMatch`, this holds in the
      token model of ignore patterns: an output name holding `(`, `+` or `[`
      is not matched by itself as a pattern in the code. */
  lemma {:induction false} OutputNeverDiscovered(inputDir: AbsPath, rest: seq<string>, tree: seq<Entry>, recursive: bool, ignore: seq<string>)
    requires rest != [] && WellNamed(tree)
    ensures var eff := EffectiveIgnoreAsWritten(inputDir, Some(AbsPath(inputDir.segments + rest)), ignore);
      inputDir.segments != [] ==>
      forall x :: x in WalkSpec(inputDir, inputDir, tree, recursive, eff) ==> x.relativePath != Join(rest, "/")
    ensures var eff := EffectiveIgnore(inputDir, Some(AbsPath(inputDir.segments + rest)), ignore);
      forall x :: x in WalkSpec(inputDir, inputDir, tree, recursive, eff) ==> x.relativePath != Join(rest, "/")
  {
    var eff := EffectiveIgnore(inputDir, Some(AbsPath(inputDir.segments + rest)), ignore);
    OutputInsideIgnored(inputDir, rest, ignore);
    assert eff[|eff| - 1] == Join(rest, "/");
    IgnoredByItself(Join(rest, "/"), eff);
    DiscoverSound(inputDir, tree, recursive, eff);
    forall x | x in WalkSpec(inputDir, inputDir, tree, recursive, eff) ensures x.relativePath != Join(rest, "/") {
      var rel :| FoundAt(tree, inputDir, x, rel, recursive, eff);
    }
  }

  /** The message of the error for an input directory without `.md` files. */
  function NoFilesError(inputDir: AbsPath): string {
    "No .md files found in " + AbsString(inputDir)
  }

  /** Grouped nodes when some file lies in a subdirectory, one depth-0 node
      per file otherwise. */
  function MergeNodes(ordered: seq<FileEntry>): seq<MergeNode> {
    if HasSubdirs(ordered) then GroupNodes(ordered) else FlatNodes(ordered)
  }

  /** The file nodes carry the ordered files, in order, either way. */
  lemma {:induction false} MergeNodesKeepOrder(ordered: seq<FileEntry>)
    ensures FilesOf(MergeNodes(ordered)) == ordered
    ensures |MergeNodes(ordered)| >= |ordered|
  {
    GroupKeepsFiles(ordered);
    if !HasSubdirs(ordered) {
      GroupOfFlat(ordered);
    }
    FilesOfLength(MergeNodes(ordered));
  }

  /** There are at most as many files as nodes. */
  lemma {:induction false} FilesOfLength(nodes: seq<MergeNode>)
    ensures |FilesOf(nodes)| <= |nodes|
  {
    if nodes != [] {
      FilesOfLength(nodes[..|nodes| - 1]);
    }
  }

  /** What `merge` resolves to: the tree under the input directory, the file
      texts and the manifest (`None` when missing or invalid) stand for the
      file system, and `nameLe` for `localeCompare`. */
  function MergeSpec(opts: MergeOptions, tree: seq<Entry>, contents: map<string, string>,
                     manifest: Option<IndexConfig>, nameLe: (string, string) -> bool): Result<string, string>
  {
    var ignore := EffectiveIgnoreAsWritten(opts.inputDir, opts.outputPath, OrDefault(opts.ignore, []));
    var files := WalkSpec(opts.inputDir, opts.inputDir, tree, OrDefault(opts.recursive, true), ignore);
    if files == [] then Err(NoFilesError(opts.inputDir))
    else MergeFound(files, opts, contents, manifest, nameLe)
  }

  /** What `merge` returns once it has found `files`: they are ordered,
      grouped and assembled. */
  function MergeFound(files: seq<FileEntry>, opts: MergeOptions, contents: map<string, string>,
                      manifest: Option<IndexConfig>, nameLe: (string, string) -> bool): Result<string, string>
  {
    match Ordered(files, OrDefault(opts.order, Filename), AbsString(opts.inputDir), manifest, nameLe)
    case Err(e) => Err(e)
    case Ok(ordered) =>
      Assembled(MergeNodes(ordered), Setting(contents, OutputDir(opts), OrDefault(opts.headingOffset, 0)),
                OrDefault(opts.toc, true), OrDefault(opts.separator, DefaultSeparator))
  }

  /** `merge`, returning the document it would also write to the output path. */
  method Merge(opts: MergeOptions, tree: seq<Entry>, contents: map<string, string>,
               manifest: Option<IndexConfig>, nameLe: (string, string) -> bool) returns (r: Result<string, string>)
    ensures r == MergeSpec(opts, tree, contents, manifest, nameLe)
  {
    var recursive := OrDefault(opts.recursive, true);
    var ignore := OrDefault(opts.ignore, []);
    var resolvedInputDir := opts.inputDir;

    var effectiveIgnore := ignore;
    if opts.outputPath.Some? && StartsWith(AbsString(opts.outputPath.value), AbsString(resolvedInputDir) + "/") {
      var outputRelative := Relative(resolvedInputDir, opts.outputPath.value);
      effectiveIgnore := effectiveIgnore + [outputRelative];
    }

    assert effectiveIgnore == EffectiveIgnoreAsWritten(opts.inputDir, opts.outputPath, ignore);
    var files := Discover(resolvedInputDir, tree, recursive, effectiveIgnore);
    if |files| == 0 {
      return Err(NoFilesError(resolvedInputDir));
    }
    r := MergeFiles(files, opts, contents, manifest, nameLe);
  }

  /** The rest of `merge` once files were found: ordering, grouping into
      nodes, and the assembly of the document. */
  method MergeFiles(files: seq<FileEntry>, opts: MergeOptions, contents: map<string, string>,
                    manifest: Option<IndexConfig>, nameLe: (string, string) -> bool) returns (r: Result<string, string>)
    ensures r == MergeFound(files, opts, contents, manifest, nameLe)
  {
    var order := OrDefault(opts.order, Filename);
    var ordered := OrderFiles(files, order, AbsString(opts.inputDir), manifest, nameLe);
    assert ordered == Ordered(files, order, AbsString(opts.inputDir), manifest, nameLe);
    if ordered.Err? {
      return Err(ordered.error);
    }

    var hasSubdirs := HasSubdirs(ordered.value);
    var mergeNodes: seq<MergeNode>;
    if hasSubdirs {
      mergeNodes := GroupByDirectory(ordered.value);
    } else {
      mergeNodes := FlatNodes(ordered.value);
    }
    assert mergeNodes == MergeNodes(ordered.value);

    var setting := Setting(contents, OutputDir(opts), OrDefault(opts.headingOffset, 0));
    r := Assemble(mergeNodes, setting, OrDefault(opts.toc, true), OrDefault(opts.separator, DefaultSeparator));
  }

  /** An input directory with nothing to merge is an error naming it. */
  lemma {:induction false} EmptyInputFails(opts: MergeOptions, tree: seq<Entry>, contents: map<string, string>,
                        manifest: Option<IndexConfig>, nameLe: (string, string) -> bool)
    requires WalkSpec(opts.inputDir, opts.inputDir, tree, OrDefault(opts.recursive, true),
                      EffectiveIgnoreAsWritten(opts.inputDir, opts.outputPath, OrDefault(opts.ignore, []))) == []
    ensures MergeSpec(opts, tree, contents, manifest, nameLe).Err?
    ensures StartsWith(MergeSpec(opts, tree, contents, manifest, nameLe).error, "No .md files found in ")
    ensures EndsWith(MergeSpec(opts, tree, contents, manifest, nameLe).error, AbsString(opts.inputDir))
  {
    var e := NoFilesError(opts.inputDir);
    assert e[..|"No .md files found in "|] == "No .md files found in ";
    assert e[|e| - |AbsString(opts.inputDir)|..] == AbsString(opts.inputDir);
  }

  /** After patching, section `i` opens with the `i`-th de-duplicated
      anchor and the blank line. */
  lemma {:induction false} PatchedOpening(ps: seq<Part>, i: nat)
    requires Anchored(ps) && i < |ps|
    ensures StartsWith(PatchedSections(ps)[i], AnchorTag(UniqueAnchorsSpec(Entries(ps))[i].anchor) + "\n\n")
  {
    var old_tag := AnchorTag(ps[i].entry.anchor);
    var section0 := ps[i].section;
    var rest := section0[|old_tag|..];
    assert StartsWith(section0, old_tag + "\n\n");
    assert section0[..|old_tag|] == old_tag;
    assert section0 == old_tag + rest;
    assert rest[..2] == section0[|old_tag|..|old_tag| + 2] == "\n\n";
    var u := UniqueAnchorsSpec(Entries(ps))[i];
    var tag := AnchorTag(u.anchor);
    var section := PatchedSections(ps)[i];
    assert section == Patched(ps[i], u);
    if u.anchor != ps[i].entry.anchor {
      ReplaceAtStart(section0, old_tag, tag);
    }
    assert section == tag + rest;
    assert section[..|tag| + 2] == tag + rest[..2];
  }

  /** After assembly there is one section and one table-of-contents entry
      per node, in node order: entry `i` records node `i`'s depth, kind and
      source, and section `i` opens with entry `i`'s (de-duplicated) anchor. */
  lemma {:induction false} AssembledInNodeOrder(nodes: seq<MergeNode>, st: Setting)
    requires Parts(nodes, st).Ok?
    ensures var ps := Parts(nodes, st).value;
      var unique := UniqueAnchorsSpec(Entries(ps));
      var sections := PatchedSections(ps);
      && |sections| == |unique| == |nodes|
      && forall i :: 0 <= i < |nodes| ==>
           && unique[i].depth == Some(nodes[i].depth)
           && unique[i].isDirectory == nodes[i].DirNode?
           && unique[i].sourceFile == (if nodes[i].DirNode? then nodes[i].name + "/" else nodes[i].file.relativePath)
           && StartsWith(sections[i], AnchorTag(unique[i].anchor) + "\n\n")
  {
    var ps := Parts(nodes, st).value;
    var unique := UniqueAnchorsSpec(Entries(ps));
    var sections := PatchedSections(ps);
    PartsInNodeOrder(nodes, Body(st));
    PartsAnchored(nodes, st);
    forall i | 0 <= i < |nodes|
      ensures && unique[i].depth == Some(nodes[i].depth)
              && unique[i].isDirectory == nodes[i].DirNode?
              && unique[i].sourceFile == (if nodes[i].DirNode? then nodes[i].name + "/" else nodes[i].file.relativePath)
              && StartsWith(sections[i], AnchorTag(unique[i].anchor) + "\n\n")
    {
      NodePartShape(nodes[i], st);
      UniqueAnchorsKeepsFields(Entries(ps), i);
      PatchedOpening(ps, i);
    }
  }

  /** An assembled document opens with the table of contents when it is
      on; otherwise with the anchor of the first node's section, or it is
      empty when there is no node. */
  lemma {:induction false} AssembledOpening(nodes: seq<MergeNode>, st: Setting, toc: bool, separator: string)
    requires Assembled(nodes, st, toc, separator).Ok?
    ensures var doc := Assembled(nodes, st, toc, separator).value;
      && (toc ==> StartsWith(doc, "# Table of Contents\n"))
      && (!toc && nodes == [] ==> doc == "")
      && (!toc && nodes != [] ==> StartsWith(doc, "<a id=\""))
  {
    var ps := Parts(nodes, st).value;
    PartsAnchored(nodes, st);
    PartsInNodeOrder(nodes, Body(st));
    if toc {
      DocumentWithToc(ps, separator);
    } else if ps == [] {
      DocumentWithoutTocEmpty(separator);
    } else {
      DocumentWithoutToc(ps, separator);
    }
  }

  /** A merged document opens with the table of contents when it is on
      (the default); otherwise with a section anchor, unless index ordering
      excluded every file and the document is empty. */
  lemma {:induction false} MergedDocumentOpening(opts: MergeOptions, tree: seq<Entry>, contents: map<string, string>,
                              manifest: Option<IndexConfig>, nameLe: (string, string) -> bool)
    requires MergeSpec(opts, tree, contents, manifest, nameLe).Ok?
    ensures var doc := MergeSpec(opts, tree, contents, manifest, nameLe).value;
      if OrDefault(opts.toc, true) then StartsWith(doc, "# Table of Contents\n")
      else doc == "" || StartsWith(doc, "<a id=\"")
  {
    var ignore := EffectiveIgnoreAsWritten(opts.inputDir, opts.outputPath, OrDefault(opts.ignore, []));
    var files := WalkSpec(opts.inputDir, opts.inputDir, tree, OrDefault(opts.recursive, true), ignore);
    var ordered := Ordered(files, OrDefault(opts.order, Filename), AbsString(opts.inputDir), manifest, nameLe).value;
    var st := Setting(contents, OutputDir(opts), OrDefault(opts.headingOffset, 0));
    AssembledOpening(MergeNodes(ordered), st, OrDefault(opts.toc, true), OrDefault(opts.separator, DefaultSeparator));
  }
}
