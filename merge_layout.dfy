/** The layout half of `merge` (`packages/core/src/merge.ts`): moving
    headings down, the depth of a file, and grouping the ordered files under
    directory nodes. */
module MergeLayout {
  import opened Common
  import opened PosixPath
  import opened Types
  import opened Toc
  import opened Paths
  import opened Ordering
  import opened Discovery

  // ---------------------------------------------------------------------
  // offsetHeadings: the regular expression /^(#{1,6})\s/gm
  // ---------------------------------------------------------------------

  /** The run of `#` starting at `i`. */
  function HashRun(s: string, i: nat): (n: nat)
    requires i <= |s|
    ensures i + n <= |s|
    decreases |s| - i
  {
    if i < |s| && s[i] == '#' then 1 + HashRun(s, i + 1) else 0
  }

  /** The number of `#` the pattern captures at the start of `t`, where
      `atLineStart` says whether `t` starts a line of the whole text: one to
      six `#` followed by one whitespace character (a line break included).
      A longer run cannot match, since backtracking leaves a `#` where `\s`
      is needed. */
  function HeadingHere(t: string, atLineStart: bool): (r: Option<nat>)
    ensures r.Some? ==> 1 <= r.value <= 6 && r.value < |t| && IsSpace(t[r.value])
  {
    if !atLineStart then None
    else
      var n := HashRun(t, 0);
      if 1 <= n <= 6 && n < |t| && IsSpace(t[n]) then Some(n) else None
  }

  /** `Math.min(hashes.length + offset, 6)` */
  function NewLevel(n: nat, offset: int): (level: int)
    ensures level <= 6 && level <= n + offset
    ensures level == n + offset || level == 6
    ensures n <= 6 && offset >= 0 ==> n <= level
    ensures n < 6 && offset > 0 ==> n < level
  {
    if n + offset < 6 then n + offset else 6
  }

  /** The global replace over the rest `t` of the text: a match becomes the
      new run of `#` and a single space, any other character is copied, and
      the scan goes on after it. Whether the rest starts a line depends on
      the last character consumed. */
  function Scan(t: string, atLineStart: bool, offset: int): string
    requires offset > 0
    decreases |t|
  {
    if t == [] then []
    else match HeadingHere(t, atLineStart)
      case Some(n) => Repeat("#", NewLevel(n, offset)) + " " + Scan(t[n + 1..], IsLineTerminator(t[n]), offset)
      case None => [t[0]] + Scan(t[1..], IsLineTerminator(t[0]), offset)
  }

  /** `offsetHeadings(content, offset)` */
  function OffsetHeadings(content: string, offset: int): string {
    if offset <= 0 then content else Scan(content, true, offset)
  }

  /** A line of one to six `#` and nothing else: its line break is the
      whitespace the pattern consumes. */
  predicate BareHeading(line: string) {
    1 <= |line| <= 6 && forall k :: 0 <= k < |line| ==> line[k] == '#'
  }

  predicate NoLineBreak(s: string) {
    forall k :: 0 <= k < |s| ==> !IsLineTerminator(s[k])
  }

  /** Text without any `#` is copied. */
  lemma {:induction false} ScanWithoutMarks(t: string, atLineStart: bool, offset: int)
    requires offset > 0 && '#' !in t
    ensures Scan(t, atLineStart, offset) == t
    decreases |t|
  {
    if t != [] {
      assert HashRun(t, 0) == 0;
      assert '#' !in t[1..];
      ScanWithoutMarks(t[1..], IsLineTerminator(t[0]), offset);
      assert t == [t[0]] + t[1..];
    }
  }

  /** Content without a `#`, or a non-positive offset, is left as it is. */
  lemma {:induction false} OffsetHeadingsIdentity(content: string, offset: int)
    requires offset <= 0 || '#' !in content
    ensures OffsetHeadings(content, offset) == content
  {
    if offset > 0 {
      ScanWithoutMarks(content, true, offset);
    }
  }

  /** The rest of a line, not at its start, is copied. */
  lemma {:induction false} ScanInsideLine(t: string, offset: int)
    requires offset > 0 && NoLineBreak(t)
    ensures Scan(t, false, offset) == t
    decreases |t|
  {
    if t != [] {
      ScanInsideLine(t[1..], offset);
      assert t == [t[0]] + t[1..];
    }
  }

  lemma {:induction false} HashRunPrefix(line: string, tail: string, i: nat)
    requires i <= |line| && (tail == [] || tail[0] != '#')
    ensures HashRun(line + tail, i) == HashRun(line, i)
    decreases |line| - i
  {
    if i < |line| {
      assert (line + tail)[i] == line[i];
      HashRunPrefix(line, tail, i + 1);
    } else if tail != [] {
      assert (line + tail)[i] == tail[0];
    }
  }

  /** All `#` up to the end of the run. */
  lemma {:induction false} HashRunAll(s: string, i: nat)
    requires i <= |s| && i + HashRun(s, i) == |s|
    ensures forall k :: i <= k < |s| ==> s[k] == '#'
    decreases |s| - i
  {
    if i < |s| {
      HashRunAll(s, i + 1);
    }
  }

  /** Within a line that is not a bare heading, the pattern sees the same
      whatever line break follows the line. */
  lemma {:induction false} HeadingHerePrefix(line: string, tail: string, atLineStart: bool)
    requires line != [] && NoLineBreak(line) && (atLineStart ==> !BareHeading(line))
    requires tail != [] && IsLineTerminator(tail[0])
    ensures HeadingHere(line + tail, atLineStart) == HeadingHere(line, atLineStart)
  {
    var s := line + tail;
    HashRunPrefix(line, tail, 0);
    var n := HashRun(line, 0);
    if n < |line| {
      assert s[n] == line[n];
    } else if atLineStart {
      HashRunAll(line, 0);
      assert !(1 <= n <= 6);
    }
  }

  /** The scan of a line followed by a line break is the scan of the line,
      the line break, and the scan of what follows from a line start. */
  lemma {:induction false} ScanLine(line: string, tail: string, atLineStart: bool, offset: int)
    requires offset > 0 && NoLineBreak(line) && (atLineStart ==> !BareHeading(line))
    requires tail != [] && IsLineTerminator(tail[0])
    ensures Scan(line + tail, atLineStart, offset)
         == Scan(line, atLineStart, offset) + [tail[0]] + Scan(tail[1..], true, offset)
    decreases |line|, 1
  {
    if line == [] {
      assert line + tail == tail;
      assert HashRun(tail, 0) == 0;
    } else {
      HeadingHerePrefix(line, tail, atLineStart);
      match HeadingHere(line, atLineStart)
      case Some(n) => ScanLineHeading(line, tail, atLineStart, n, offset);
      case None => ScanLineCopy(line, tail, atLineStart, offset);
    }
  }

  /** `ScanLine` where the line starts with a heading marker. */
  lemma {:induction false} ScanLineHeading(line: string, tail: string, atLineStart: bool, n: nat, offset: int)
    requires offset > 0 && NoLineBreak(line) && line != []
    requires tail != [] && IsLineTerminator(tail[0])
    requires HeadingHere(line + tail, atLineStart) == HeadingHere(line, atLineStart) == Some(n)
    ensures Scan(line + tail, atLineStart, offset)
         == Scan(line, atLineStart, offset) + [tail[0]] + Scan(tail[1..], true, offset)
    decreases |line|, 0
  {
    var s := line + tail;
    var marker := Repeat("#", NewLevel(n, offset)) + " ";
    assert s[n + 1..] == line[n + 1..] + tail;
    assert s[n] == line[n];
    assert Scan(s, atLineStart, offset) == marker + Scan(line[n + 1..] + tail, false, offset);
    assert Scan(line, atLineStart, offset) == marker + Scan(line[n + 1..], false, offset);
    ScanLine(line[n + 1..], tail, false, offset);
  }

  /** `ScanLine` where the first character of the line is copied. */
  lemma {:induction false} ScanLineCopy(line: string, tail: string, atLineStart: bool, offset: int)
    requires offset > 0 && NoLineBreak(line) && line != []
    requires tail != [] && IsLineTerminator(tail[0])
    requires HeadingHere(line + tail, atLineStart) == HeadingHere(line, atLineStart) == None
    ensures Scan(line + tail, atLineStart, offset)
         == Scan(line, atLineStart, offset) + [tail[0]] + Scan(tail[1..], true, offset)
    decreases |line|, 0
  {
    var s := line + tail;
    assert s[1..] == line[1..] + tail;
    assert s[0] == line[0];
    assert Scan(s, atLineStart, offset) == [line[0]] + Scan(line[1..] + tail, false, offset);
    assert Scan(line, atLineStart, offset) == [line[0]] + Scan(line[1..], false, offset);
    ScanLine(line[1..], tail, false, offset);
  }

  /** A text splits at a line break that ends a line which is not a bare
      heading: the line and the rest are offset separately. */
  lemma {:induction false} OffsetSplitsAtLineBreak(line: string, t: char, rest: string, offset: int)
    requires offset > 0 && NoLineBreak(line) && !BareHeading(line) && IsLineTerminator(t)
    ensures OffsetHeadings(line + [t] + rest, offset) == OffsetHeadings(line, offset) + [t] + OffsetHeadings(rest, offset)
  {
    assert line + [t] + rest == line + ([t] + rest);
    ScanLine(line, [t] + rest, true, offset);
    assert ([t] + rest)[1..] == rest;
  }

  /** A heading line of `n` marks: the pattern captures exactly the `n` marks. */
  lemma {:induction false} HeadingAtStart(n: nat, rest: string)
    requires 1 <= n <= 6 && rest != [] && IsSpace(rest[0])
    ensures HeadingHere(Repeat("#", n) + rest, true) == Some(n)
  {
    var s := Repeat("#", n) + rest;
    assert s[n] == rest[0] && s[n] != '#';
    HashRunPrefix(Repeat("#", n), rest, 0);
    RepeatRun(n);
  }

  /** A run of `n` marks is a run of length `n`. */
  lemma {:induction false} RepeatRun(n: nat)
    ensures HashRun(Repeat("#", n), 0) == n
  {
    if n > 0 {
      var r := Repeat("#", n);
      RepeatCharAt('#', n, 0);
      assert r[1..] == Repeat("#", n - 1) by {
        forall k | 0 <= k < n - 1 ensures r[1..][k] == Repeat("#", n - 1)[k] {
          RepeatCharAt('#', n, k + 1);
          RepeatCharAt('#', n - 1, k);
        }
      }
      RepeatRun(n - 1);
      HashRunFrom(r, 1);
    }
  }

  /** The run from `i` is the run of the text from `i`. */
  lemma {:induction false} HashRunFrom(s: string, i: nat)
    requires i <= |s|
    ensures HashRun(s, i) == HashRun(s[i..], 0)
    decreases |s| - i
  {
    if i < |s| {
      HashRunFrom(s, i + 1);
      assert s[i..][1..] == s[i + 1..];
      HashRunFrom(s[i..], 1);
    }
  }

  /** One heading line: `n` marks and a space or tab become the new number
      of marks and one space; the text of the line is kept. A level-1 heading
      offset by 2 is a level-3 heading. */
  lemma {:induction false} OffsetHeadingLine(n: nat, c: char, text: string, offset: int)
    requires 1 <= n <= 6 && offset > 0
    requires IsSpace(c) && !IsLineTerminator(c) && NoLineBreak(text)
    ensures OffsetHeadings(Repeat("#", n) + [c] + text, offset)
         == Repeat("#", NewLevel(n, offset)) + " " + text
  {
    var s := Repeat("#", n) + [c] + text;
    assert s == Repeat("#", n) + ([c] + text);
    HeadingAtStart(n, [c] + text);
    assert s[n] == c && s[n + 1..] == text;
    ScanInsideLine(text, offset);
  }

  /** A line of marks alone: its line break is the whitespace the pattern
      consumes, so the offset heading runs into the next line. */
  lemma {:induction false} BareHeadingJoinsNextLine(n: nat, rest: string, offset: int)
    requires 1 <= n <= 6 && offset > 0
    ensures OffsetHeadings(Repeat("#", n) + "\n" + rest, offset)
         == Repeat("#", NewLevel(n, offset)) + " " + OffsetHeadings(rest, offset)
  {
    var s := Repeat("#", n) + "\n" + rest;
    assert s == Repeat("#", n) + ("\n" + rest);
    HeadingAtStart(n, "\n" + rest);
    assert s[n] == '\n' && s[n + 1..] == rest;
  }

  // ---------------------------------------------------------------------
  // getFileDepth
  // ---------------------------------------------------------------------

  /** `getFileDepth(relativePath)`: the number of `/`-separated segments in
      the directory part, 0 for a file directly in the input directory. */
  function GetFileDepth(relativePath: string): nat {
    var dir := Dirname(relativePath);
    if dir == "." then 0 else |Split(dir, '/')|
  }

  /** The segments of the directory part, as `groupByDirectory` splits it;
      none for a file directly in the input directory. */
  function DirParts(relativePath: string): (parts: seq<string>)
    ensures |parts| == GetFileDepth(relativePath)
  {
    var dir := Dirname(relativePath);
    if dir == "." then [] else Split(dir, '/')
  }

  /** A relative path of plain names joined by `/`, as discovery builds them. */
  predicate PlainPath(relativePath: string) {
    PlainSegments(Split(relativePath, '/'))
  }

  /** For a path of plain names, the directory segments are all names but
      the last, so the depth counts the directories above the file:
      `file.md` is at depth 0 and `sub/file.md` at depth 1. */
  lemma {:induction false} FileDepthOfSegments(rel: seq<string>)
    requires PlainSegments(rel)
    ensures DirParts(Join(rel, "/")) == rel[..|rel| - 1]
    ensures GetFileDepth(Join(rel, "/")) == |rel| - 1
  {
    DirnameOfSegments(rel);
    if |rel| > 1 {
      var init := rel[..|rel| - 1];
      if |init| == 1 {
        assert Join(init, "/") == init[0];
      } else {
        assert Join(init, "/") == init[0] + "/" + Join(init[1..], "/");
        assert Join(init, "/")[|init[0]|] == '/';
      }
      SplitJoin(init, '/');
    }
  }

  /** The same for a path given as a string. */
  lemma {:induction false} DirPartsOfPlainPath(relativePath: string)
    requires PlainPath(relativePath)
    ensures var rel := Split(relativePath, '/');
      DirParts(relativePath) == rel[..|rel| - 1]
  {
    JoinSplit(relativePath, '/');
    FileDepthOfSegments(Split(relativePath, '/'));
  }

  // ---------------------------------------------------------------------
  // groupByDirectory
  // ---------------------------------------------------------------------

  /** A directory heading or a file section, with its depth below the input
      directory. A directory node is named by its last segment, a file node
      by its relative path. */
  datatype MergeNode =
    | DirNode(depth: nat, name: string)
    | FileNode(depth: nat, name: string, file: FileEntry)

  /** `accumulated` after `k` rounds of the inner loop. An empty value is
      falsy, so a round that starts from `""` takes the segment alone. */
  function Acc(parts: seq<string>, k: nat): string
    requires k <= |parts|
  {
    if k == 0 then ""
    else
      var a := Acc(parts, k - 1);
      if a != "" then a + "/" + parts[k - 1] else parts[k - 1]
  }

  /** `seenDirs` after `k` rounds of the inner loop that started with `seen`. */
  function SeenAfter(parts: seq<string>, k: nat, seen: set<string>): set<string>
    requires k <= |parts|
  {
    if k == 0 then seen else SeenAfter(parts, k - 1, seen) + {Acc(parts, k)}
  }

  /** The directory nodes pushed in the first `k` rounds: round `k` pushes
      one exactly when its accumulated path was not seen yet. */
  function DirNodes(parts: seq<string>, k: nat, seen: set<string>): seq<MergeNode>
    requires k <= |parts|
  {
    if k == 0 then []
    else
      DirNodes(parts, k - 1, seen)
      + (if Acc(parts, k) in SeenAfter(parts, k - 1, seen) then [] else [DirNode(k - 1, parts[k - 1])])
  }

  /** The accumulated paths of those nodes, in the same order. */
  function DirKeys(parts: seq<string>, k: nat, seen: set<string>): (keys: seq<string>)
    requires k <= |parts|
    ensures |keys| == |DirNodes(parts, k, seen)|
  {
    if k == 0 then []
    else
      DirKeys(parts, k - 1, seen)
      + (if Acc(parts, k) in SeenAfter(parts, k - 1, seen) then [] else [Acc(parts, k)])
  }

  /** `seenDirs` after the files `files`. */
  function Seen(files: seq<FileEntry>): set<string> {
    if files == [] then {}
    else
      var parts := DirParts(files[|files| - 1].relativePath);
      SeenAfter(parts, |parts|, Seen(files[..|files| - 1]))
  }

  /** The node for a file. */
  function FileNodeOf(f: FileEntry): MergeNode {
    FileNode(GetFileDepth(f.relativePath), f.relativePath, f)
  }

  /** What `groupByDirectory` returns: for each file in order, the directory
      nodes of its unseen ancestors, then the file node. */
  function GroupNodes(files: seq<FileEntry>): seq<MergeNode> {
    if files == [] then []
    else
      var init := files[..|files| - 1];
      var f := files[|files| - 1];
      var parts := DirParts(f.relativePath);
      GroupNodes(init) + DirNodes(parts, |parts|, Seen(init)) + [FileNodeOf(f)]
  }

  /** A key per node: a directory node's accumulated path, a file node's
      relative path. */
  function GroupKeys(files: seq<FileEntry>): (keys: seq<string>)
    ensures |keys| == |GroupNodes(files)|
  {
    if files == [] then []
    else
      var init := files[..|files| - 1];
      var f := files[|files| - 1];
      var parts := DirParts(f.relativePath);
      GroupKeys(init) + DirKeys(parts, |parts|, Seen(init)) + [f.relativePath]
  }

  lemma {:induction false} GroupNodesSnoc(files: seq<FileEntry>)
    requires files != []
    ensures var init := files[..|files| - 1];
      var f := files[|files| - 1];
      var parts := DirParts(f.relativePath);
      && GroupNodes(files) == GroupNodes(init) + DirNodes(parts, |parts|, Seen(init)) + [FileNodeOf(f)]
      && Seen(files) == SeenAfter(parts, |parts|, Seen(init))
  {
  }

  /** One more file: its unseen ancestors' nodes, then its own node. */
  lemma {:induction false} GroupStep(files: seq<FileEntry>, j: nat)
    requires j < |files|
    ensures var parts := DirParts(files[j].relativePath);
      && GroupNodes(files[..j + 1]) == GroupNodes(files[..j]) + DirNodes(parts, |parts|, Seen(files[..j])) + [FileNodeOf(files[j])]
      && Seen(files[..j + 1]) == SeenAfter(parts, |parts|, Seen(files[..j]))
  {
    assert files[..j + 1][..j] == files[..j];
    GroupNodesSnoc(files[..j + 1]);
  }

  /** The inner loop of `groupByDirectory`: one round per directory segment,
      pushing a node for each accumulated path not seen before. */
  method PushAncestors(parts: seq<string>, nodes0: seq<MergeNode>, seen0: set<string>)
    returns (nodes: seq<MergeNode>, seenDirs: set<string>)
    ensures nodes == nodes0 + DirNodes(parts, |parts|, seen0)
    ensures seenDirs == SeenAfter(parts, |parts|, seen0)
  {
    nodes, seenDirs := nodes0, seen0;
    var accumulated := "";
    for i := 0 to |parts|
      invariant accumulated == Acc(parts, i)
      invariant seenDirs == SeenAfter(parts, i, seen0)
      invariant nodes == nodes0 + DirNodes(parts, i, seen0)
    {
      accumulated := if accumulated != "" then accumulated + "/" + parts[i] else parts[i];
      if accumulated !in seenDirs {
        seenDirs := seenDirs + {accumulated};
        nodes := nodes + [DirNode(i, parts[i])];
      }
    }
  }

  /** `groupByDirectory(ordered)` */
  method GroupByDirectory(ordered: seq<FileEntry>) returns (nodes: seq<MergeNode>)
    ensures nodes == GroupNodes(ordered)
  {
    nodes := [];
    var seenDirs: set<string> := {};
    for j := 0 to |ordered|
      invariant nodes == GroupNodes(ordered[..j])
      invariant seenDirs == Seen(ordered[..j])
    {
      var file := ordered[j];
      GroupStep(ordered, j);
      var dirPath := Dirname(file.relativePath);
      if dirPath != "." {
        var parts := Split(dirPath, '/');
        nodes, seenDirs := PushAncestors(parts, nodes, seenDirs);
      }
      var fileDepth := GetFileDepth(file.relativePath);
      nodes := nodes + [FileNode(fileDepth, file.relativePath, file)];
    }
    assert ordered[..|ordered|] == ordered;
  }

  // ---------------------------------------------------------------------
  // groupByDirectory: what the node list holds
  // ---------------------------------------------------------------------

  /** The files of the file nodes, in order. */
  function FilesOf(nodes: seq<MergeNode>): seq<FileEntry> {
    if nodes == [] then []
    else
      var last := nodes[|nodes| - 1];
      FilesOf(nodes[..|nodes| - 1]) + (if last.FileNode? then [last.file] else [])
  }

  lemma {:induction false} FilesOfAppend(a: seq<MergeNode>, b: seq<MergeNode>)
    ensures FilesOf(a + b) == FilesOf(a) + FilesOf(b)
    decreases |b|
  {
    if b != [] {
      assert (a + b)[..|a + b| - 1] == a + b[..|b| - 1];
      FilesOfAppend(a, b[..|b| - 1]);
    } else {
      assert a + b == a;
    }
  }

  lemma {:induction false} DirNodesHaveNoFiles(parts: seq<string>, k: nat, seen: set<string>)
    requires k <= |parts|
    ensures FilesOf(DirNodes(parts, k, seen)) == []
    ensures forall q :: 0 <= q < |DirNodes(parts, k, seen)| ==> DirNodes(parts, k, seen)[q].DirNode?
  {
    if k > 0 {
      DirNodesHaveNoFiles(parts, k - 1, seen);
      var step := if Acc(parts, k) in SeenAfter(parts, k - 1, seen) then [] else [DirNode(k - 1, parts[k - 1])];
      FilesOfAppend(DirNodes(parts, k - 1, seen), step);
      if step != [] {
        assert FilesOf(step) == FilesOf(step[..0]) + [];
      }
    }
  }

  /** The file nodes are the files, in their order. */
  lemma {:induction false} GroupKeepsFiles(files: seq<FileEntry>)
    ensures FilesOf(GroupNodes(files)) == files
  {
    if files != [] {
      var init := files[..|files| - 1];
      var f := files[|files| - 1];
      var parts := DirParts(f.relativePath);
      var d := DirNodes(parts, |parts|, Seen(init));
      var g := GroupNodes(init);
      GroupNodesSnoc(files);
      GroupKeepsFiles(init);
      DirNodesHaveNoFiles(parts, |parts|, Seen(init));
      FilesOfAppend(g, d);
      FilesOfSnocFile(g + d, f);
      InitLast(files);
    }
  }

  lemma {:induction false} FilesOfSnocFile(nodes: seq<MergeNode>, f: FileEntry)
    ensures FilesOf(nodes + [FileNodeOf(f)]) == FilesOf(nodes) + [f]
  {
    var b := nodes + [FileNodeOf(f)];
    assert b[..|b| - 1] == nodes;
  }

  /** Each file node sits at its file's depth and is named by its relative
      path. */
  predicate FileNodesAtDepth(nodes: seq<MergeNode>) {
    forall q :: 0 <= q < |nodes| && nodes[q].FileNode? ==> nodes[q] == FileNodeOf(nodes[q].file)
  }

  lemma {:induction false} FileNodesAtDepthAppend(a: seq<MergeNode>, b: seq<MergeNode>)
    requires FileNodesAtDepth(a) && FileNodesAtDepth(b)
    ensures FileNodesAtDepth(a + b)
  {
    forall q | 0 <= q < |a + b| && (a + b)[q].FileNode?
      ensures (a + b)[q] == FileNodeOf((a + b)[q].file)
    {
      if q < |a| {
        assert (a + b)[q] == a[q];
      } else {
        assert (a + b)[q] == b[q - |a|];
      }
    }
  }

  lemma {:induction false} GroupFileNodes(files: seq<FileEntry>)
    ensures FileNodesAtDepth(GroupNodes(files))
  {
    if files != [] {
      var init := files[..|files| - 1];
      var f := files[|files| - 1];
      var parts := DirParts(f.relativePath);
      var d := DirNodes(parts, |parts|, Seen(init));
      var g := GroupNodes(init);
      GroupNodesSnoc(files);
      GroupFileNodes(init);
      DirNodesHaveNoFiles(parts, |parts|, Seen(init));
      FileNodesAtDepthAppend(g, d);
      FileNodesAtDepthAppend(g + d, [FileNodeOf(f)]);
    }
  }

  /** The node list `merge` uses when no file is in a subdirectory. */
  function FlatNodes(files: seq<FileEntry>): (nodes: seq<MergeNode>)
    ensures |nodes| == |files|
  {
    seq(|files|, i requires 0 <= i < |files| => FileNode(0, files[i].relativePath, files[i]))
  }

  /** `ordered.some((f) => getFileDepth(f.relativePath) > 0)` */
  predicate HasSubdirs(files: seq<FileEntry>) {
    exists i :: 0 <= i < |files| && GetFileDepth(files[i].relativePath) > 0
  }

  /** Without subdirectories, grouping adds no directory node and puts every
      file at depth 0: it is the flat list. */
  lemma {:induction false} GroupOfFlat(files: seq<FileEntry>)
    requires !HasSubdirs(files)
    ensures GroupNodes(files) == FlatNodes(files)
  {
    if files != [] {
      var init := files[..|files| - 1];
      var f := files[|files| - 1];
      assert !HasSubdirs(init) by {
        forall i | 0 <= i < |init| ensures GetFileDepth(init[i].relativePath) == 0 {
          assert init[i] == files[i];
        }
      }
      GroupOfFlat(init);
      GroupStepFlat(files);
      FlatNodesSnoc(files);
    }
  }

  /** A last file at depth 0 adds its file node and nothing else. */
  lemma {:induction false} GroupStepFlat(files: seq<FileEntry>)
    requires files != [] && GetFileDepth(files[|files| - 1].relativePath) == 0
    ensures var f := files[|files| - 1];
      GroupNodes(files) == GroupNodes(files[..|files| - 1]) + [FileNode(0, f.relativePath, f)]
  {
    var f := files[|files| - 1];
    assert DirParts(f.relativePath) == [];
  }

  lemma {:induction false} FlatNodesSnoc(files: seq<FileEntry>)
    requires files != []
    ensures var f := files[|files| - 1];
      FlatNodes(files) == FlatNodes(files[..|files| - 1]) + [FileNode(0, f.relativePath, f)]
  {
  }

  /** `x` is the key of a directory node before position `p`. */
  predicate KeyBefore(nodes: seq<MergeNode>, keys: seq<string>, x: string, p: nat) {
    exists q :: 0 <= q < p && q < |nodes| && q < |keys| && nodes[q].DirNode? && keys[q] == x
  }

  /** The directory keys are distinct and are exactly the set `seen`. */
  predicate Indexed(nodes: seq<MergeNode>, keys: seq<string>, seen: set<string>) {
    && |nodes| == |keys|
    && (forall q :: 0 <= q < |nodes| && nodes[q].DirNode? ==> keys[q] in seen)
    && (forall x {:trigger KeyBefore(nodes, keys, x, |nodes|)} :: x in seen ==> KeyBefore(nodes, keys, x, |nodes|))
    && (forall q, r :: 0 <= q < r < |nodes| && nodes[q].DirNode? && nodes[r].DirNode? ==> keys[q] != keys[r])
  }

  /** A directory node's depth is its key's segment count less one, and its
      name is the key's last segment. */
  predicate DirShape(nodes: seq<MergeNode>, keys: seq<string>)
    requires |nodes| == |keys|
  {
    forall q :: 0 <= q < |nodes| && nodes[q].DirNode? ==>
      var segs := Split(keys[q], '/');
      nodes[q] == DirNode(|segs| - 1, segs[|segs| - 1])
  }

  /** A nested directory's node comes after its parent's node. */
  predicate ParentFirst(nodes: seq<MergeNode>, keys: seq<string>)
    requires |nodes| == |keys|
  {
    forall q :: 0 <= q < |nodes| && nodes[q].DirNode? && nodes[q].depth > 0 ==>
      KeyBefore(nodes, keys, Dirname(keys[q]), q)
  }

  /** Every directory above a file has its node before the file's node. */
  predicate AncestorsFirst(nodes: seq<MergeNode>, keys: seq<string>)
    requires |nodes| == |keys|
  {
    forall p, k :: 0 <= p < |nodes| && nodes[p].FileNode? && 1 <= k <= |DirParts(nodes[p].name)| ==>
      KeyBefore(nodes, keys, Acc(DirParts(nodes[p].name), k), p)
  }

  predicate Grouped(nodes: seq<MergeNode>, keys: seq<string>, seen: set<string>) {
    Indexed(nodes, keys, seen) && DirShape(nodes, keys) && ParentFirst(nodes, keys) && AncestorsFirst(nodes, keys)
  }

  predicate PlainParts(parts: seq<string>) {
    forall i :: 0 <= i < |parts| ==> IsName(parts[i])
  }

  /** For plain names the accumulated path is the leading segments joined. */
  lemma {:induction false} AccIsJoin(parts: seq<string>, k: nat)
    requires PlainParts(parts) && 1 <= k <= |parts|
    ensures Acc(parts, k) == Join(parts[..k], "/")
  {
    if k == 1 {
      assert parts[..1] == [parts[0]];
    } else {
      AccIsJoin(parts, k - 1);
      JoinedHasNoEmptyPart(parts[..k - 1]);
      JoinSnoc(parts[..k - 1], parts[k - 1], "/");
      assert parts[..k] == parts[..k - 1] + [parts[k - 1]];
    }
  }

  /** The accumulated path splits back into its segments, and its directory
      part is the path one round earlier. */
  lemma {:induction false} AccShape(parts: seq<string>, k: nat)
    requires PlainParts(parts) && 1 <= k <= |parts|
    ensures Split(Acc(parts, k), '/') == parts[..k]
    ensures k > 1 ==> Dirname(Acc(parts, k)) == Acc(parts, k - 1)
  {
    AccSplits(parts, k);
    if k > 1 {
      AccParent(parts, k);
    }
  }

  lemma {:induction false} AccSplits(parts: seq<string>, k: nat)
    requires PlainParts(parts) && 1 <= k <= |parts|
    ensures Split(Acc(parts, k), '/') == parts[..k]
  {
    AccIsJoin(parts, k);
    SplitJoin(parts[..k], '/');
  }

  lemma {:induction false} AccParent(parts: seq<string>, k: nat)
    requires PlainParts(parts) && 1 < k <= |parts|
    ensures Dirname(Acc(parts, k)) == Acc(parts, k - 1)
  {
    var init := parts[..k];
    AccIsJoin(parts, k);
    AccIsJoin(parts, k - 1);
    assert PlainSegments(init) by {
      forall i | 0 <= i < |init| ensures IsName(init[i]) {
        assert init[i] == parts[i];
      }
    }
    DirnameOfSegments(init);
    assert init[..k - 1] == parts[..k - 1];
  }

  lemma {:induction false} KeyBeforeGrows(nodes: seq<MergeNode>, keys: seq<string>, more: seq<MergeNode>, moreKeys: seq<string>, x: string, p: nat)
    requires KeyBefore(nodes, keys, x, p) && p <= |nodes| && |nodes| == |keys|
    ensures KeyBefore(nodes + more, keys + moreKeys, x, p)
  {
    var q :| 0 <= q < p && q < |nodes| && q < |keys| && nodes[q].DirNode? && keys[q] == x;
    assert (nodes + more)[q] == nodes[q] && (keys + moreKeys)[q] == keys[q];
  }

  lemma {:induction false} IndexedPushDir(nodes: seq<MergeNode>, keys: seq<string>, seen: set<string>, node: MergeNode, x: string)
    requires Indexed(nodes, keys, seen) && node.DirNode? && x !in seen
    ensures Indexed(nodes + [node], keys + [x], seen + {x})
  {
    var n2, k2 := nodes + [node], keys + [x];
    forall y | y in seen + {x} ensures KeyBefore(n2, k2, y, |n2|) {
      if y == x {
        assert n2[|nodes|].DirNode? && k2[|nodes|] == x;
      } else {
        KeyBeforeGrows(nodes, keys, [node], [x], y, |nodes|);
      }
    }
    forall q, r | 0 <= q < r < |n2| && n2[q].DirNode? && n2[r].DirNode? ensures k2[q] != k2[r] {
      assert n2[q] == nodes[q] && k2[q] == keys[q];
      if r < |nodes| {
        assert n2[r] == nodes[r] && k2[r] == keys[r];
      } else {
        assert keys[q] in seen;
      }
    }
  }

  lemma {:induction false} IndexedPushFile(nodes: seq<MergeNode>, keys: seq<string>, seen: set<string>, node: MergeNode, key: string)
    requires Indexed(nodes, keys, seen) && node.FileNode?
    ensures Indexed(nodes + [node], keys + [key], seen)
  {
    var n2, k2 := nodes + [node], keys + [key];
    forall y | y in seen ensures KeyBefore(n2, k2, y, |n2|) {
      KeyBeforeGrows(nodes, keys, [node], [key], y, |nodes|);
    }
    forall q, r | 0 <= q < r < |n2| && n2[q].DirNode? && n2[r].DirNode? ensures k2[q] != k2[r] {
      assert n2[q] == nodes[q] && k2[q] == keys[q];
      assert n2[r] == nodes[r] && k2[r] == keys[r];
    }
  }

  lemma {:induction false} DirShapePush(nodes: seq<MergeNode>, keys: seq<string>, node: MergeNode, key: string)
    requires |nodes| == |keys| && DirShape(nodes, keys)
    requires node.DirNode? ==> var segs := Split(key, '/'); node == DirNode(|segs| - 1, segs[|segs| - 1])
    ensures DirShape(nodes + [node], keys + [key])
  {
    var n2, k2 := nodes + [node], keys + [key];
    forall q | 0 <= q < |n2| && n2[q].DirNode?
      ensures var segs := Split(k2[q], '/'); n2[q] == DirNode(|segs| - 1, segs[|segs| - 1])
    {
      if q < |nodes| {
        assert n2[q] == nodes[q] && k2[q] == keys[q];
      }
    }
  }

  lemma {:induction false} ParentFirstPush(nodes: seq<MergeNode>, keys: seq<string>, node: MergeNode, key: string)
    requires |nodes| == |keys| && ParentFirst(nodes, keys)
    requires node.DirNode? && node.depth > 0 ==> KeyBefore(nodes, keys, Dirname(key), |nodes|)
    ensures ParentFirst(nodes + [node], keys + [key])
  {
    var n2, k2 := nodes + [node], keys + [key];
    forall q | 0 <= q < |n2| && n2[q].DirNode? && n2[q].depth > 0
      ensures KeyBefore(n2, k2, Dirname(k2[q]), q)
    {
      if q < |nodes| {
        assert n2[q] == nodes[q] && k2[q] == keys[q];
      }
      KeyBeforeGrows(nodes, keys, [node], [key], Dirname(k2[q]), q);
    }
  }

  lemma {:induction false} AncestorsFirstPush(nodes: seq<MergeNode>, keys: seq<string>, node: MergeNode, key: string)
    requires |nodes| == |keys| && AncestorsFirst(nodes, keys)
    requires node.FileNode? ==> forall k :: 1 <= k <= |DirParts(node.name)| ==>
      KeyBefore(nodes, keys, Acc(DirParts(node.name), k), |nodes|)
    ensures AncestorsFirst(nodes + [node], keys + [key])
  {
    var n2, k2 := nodes + [node], keys + [key];
    forall p, k | 0 <= p < |n2| && n2[p].FileNode? && 1 <= k <= |DirParts(n2[p].name)|
      ensures KeyBefore(n2, k2, Acc(DirParts(n2[p].name), k), p)
    {
      if p < |nodes| {
        assert n2[p] == nodes[p];
      }
      KeyBeforeGrows(nodes, keys, [node], [key], Acc(DirParts(n2[p].name), k), p);
    }
  }

  lemma {:induction false} AccInSeenAfter(parts: seq<string>, k: nat, seen: set<string>, j: nat)
    requires 1 <= j <= k <= |parts|
    ensures Acc(parts, j) in SeenAfter(parts, k, seen)
  {
    if j < k {
      AccInSeenAfter(parts, k - 1, seen, j);
    }
  }

  /** One round of the inner loop keeps the list grouped. */
  lemma {:induction false} DirRound(nodes: seq<MergeNode>, keys: seq<string>, seen: set<string>, parts: seq<string>, k: nat)
    requires PlainParts(parts) && 1 <= k <= |parts|
    requires Grouped(nodes, keys, seen)
    requires k > 1 ==> Acc(parts, k - 1) in seen
    requires Acc(parts, k) !in seen
    ensures Grouped(nodes + [DirNode(k - 1, parts[k - 1])], keys + [Acc(parts, k)], seen + {Acc(parts, k)})
  {
    var x := Acc(parts, k);
    var node := DirNode(k - 1, parts[k - 1]);
    IndexedPushDir(nodes, keys, seen, node, x);
    AccShape(parts, k);
    assert parts[..k][k - 1] == parts[k - 1];
    DirShapePush(nodes, keys, node, x);
    if k > 1 {
      assert KeyBefore(nodes, keys, Acc(parts, k - 1), |nodes|);
    }
    ParentFirstPush(nodes, keys, node, x);
    AncestorsFirstPush(nodes, keys, node, x);
  }

  /** Round `k` after the first `k - 1` rounds, when its path was seen. */
  lemma {:induction false} DirRoundSeen(nodes: seq<MergeNode>, keys: seq<string>, seen: set<string>, parts: seq<string>, k: nat)
    requires 1 <= k <= |parts| && Acc(parts, k) in SeenAfter(parts, k - 1, seen)
    requires Grouped(nodes + DirNodes(parts, k - 1, seen), keys + DirKeys(parts, k - 1, seen), SeenAfter(parts, k - 1, seen))
    ensures Grouped(nodes + DirNodes(parts, k, seen), keys + DirKeys(parts, k, seen), SeenAfter(parts, k, seen))
  {
    var s1 := SeenAfter(parts, k - 1, seen);
    assert SeenAfter(parts, k, seen) == s1 + {Acc(parts, k)} == s1;
    assert DirNodes(parts, k, seen) == DirNodes(parts, k - 1, seen) + [];
    assert DirKeys(parts, k, seen) == DirKeys(parts, k - 1, seen) + [];
    assert nodes + DirNodes(parts, k, seen) == nodes + DirNodes(parts, k - 1, seen);
    assert keys + DirKeys(parts, k, seen) == keys + DirKeys(parts, k - 1, seen);
  }

  /** Round `k` after the first `k - 1` rounds, when its path is new. */
  lemma {:induction false} DirRoundNew(nodes: seq<MergeNode>, keys: seq<string>, seen: set<string>, parts: seq<string>, k: nat)
    requires PlainParts(parts) && 1 <= k <= |parts| && Acc(parts, k) !in SeenAfter(parts, k - 1, seen)
    requires Grouped(nodes + DirNodes(parts, k - 1, seen), keys + DirKeys(parts, k - 1, seen), SeenAfter(parts, k - 1, seen))
    ensures Grouped(nodes + DirNodes(parts, k, seen), keys + DirKeys(parts, k, seen), SeenAfter(parts, k, seen))
  {
    var n1 := nodes + DirNodes(parts, k - 1, seen);
    var k1 := keys + DirKeys(parts, k - 1, seen);
    var s1 := SeenAfter(parts, k - 1, seen);
    var x := Acc(parts, k);
    if k > 1 {
      AccInSeenAfter(parts, k - 1, seen, k - 1);
    }
    DirRound(n1, k1, s1, parts, k);
    assert nodes + DirNodes(parts, k, seen) == n1 + [DirNode(k - 1, parts[k - 1])];
    assert keys + DirKeys(parts, k, seen) == k1 + [x];
  }

  lemma {:induction false} NoDirRounds(nodes: seq<MergeNode>, keys: seq<string>, seen: set<string>, parts: seq<string>)
    requires Grouped(nodes, keys, seen)
    ensures Grouped(nodes + DirNodes(parts, 0, seen), keys + DirKeys(parts, 0, seen), SeenAfter(parts, 0, seen))
  {
    assert nodes + [] == nodes && keys + [] == keys;
  }

  /** The first `k` rounds of the inner loop keep the list grouped. */
  lemma {:induction false} DirRounds(nodes: seq<MergeNode>, keys: seq<string>, seen: set<string>, parts: seq<string>, k: nat)
    requires PlainParts(parts) && k <= |parts|
    requires Grouped(nodes, keys, seen)
    ensures Grouped(nodes + DirNodes(parts, k, seen), keys + DirKeys(parts, k, seen), SeenAfter(parts, k, seen))
  {
    if k == 0 {
      NoDirRounds(nodes, keys, seen, parts);
    } else {
      DirRounds(nodes, keys, seen, parts, k - 1);
      if Acc(parts, k) in SeenAfter(parts, k - 1, seen) {
        DirRoundSeen(nodes, keys, seen, parts, k);
      } else {
        DirRoundNew(nodes, keys, seen, parts, k);
      }
    }
  }

  /** Appending a file node after its directory rounds keeps the list grouped. */
  lemma {:induction false} FileRound(nodes: seq<MergeNode>, keys: seq<string>, seen: set<string>, f: FileEntry)
    requires Grouped(nodes, keys, seen)
    requires forall k :: 1 <= k <= |DirParts(f.relativePath)| ==> Acc(DirParts(f.relativePath), k) in seen
    ensures Grouped(nodes + [FileNodeOf(f)], keys + [f.relativePath], seen)
  {
    var node := FileNodeOf(f);
    IndexedPushFile(nodes, keys, seen, node, f.relativePath);
    DirShapePush(nodes, keys, node, f.relativePath);
    ParentFirstPush(nodes, keys, node, f.relativePath);
    AncestorsFirstPush(nodes, keys, node, f.relativePath);
  }

  predicate PlainPaths(files: seq<FileEntry>) {
    forall i :: 0 <= i < |files| ==> PlainPath(files[i].relativePath)
  }

  /** For files with plain relative paths, the grouped list has one node per
      distinct directory key, shaped by its key, after its parent's node and
      before the nodes of the files below it. */
  lemma {:induction false} GroupIsGrouped(files: seq<FileEntry>)
    requires PlainPaths(files)
    ensures Grouped(GroupNodes(files), GroupKeys(files), Seen(files))
  {
    if files != [] {
      var init := files[..|files| - 1];
      var f := files[|files| - 1];
      var parts := DirParts(f.relativePath);
      assert PlainPaths(init) by {
        forall i | 0 <= i < |init| ensures PlainPath(init[i].relativePath) {
          assert init[i] == files[i];
        }
      }
      GroupIsGrouped(init);
      DirPartsOfPlainPath(f.relativePath);
      DirRounds(GroupNodes(init), GroupKeys(init), Seen(init), parts, |parts|);
      var n1 := GroupNodes(init) + DirNodes(parts, |parts|, Seen(init));
      var k1 := GroupKeys(init) + DirKeys(parts, |parts|, Seen(init));
      var s1 := SeenAfter(parts, |parts|, Seen(init));
      forall k | 1 <= k <= |parts| ensures Acc(parts, k) in s1 {
        AccInSeenAfter(parts, |parts|, Seen(init), k);
      }
      FileRound(n1, k1, s1, f);
      assert GroupNodes(files) == n1 + [FileNodeOf(f)];
      assert GroupKeys(files) == k1 + [f.relativePath];
    }
  }

  /** `x` is the accumulated path of some directory above some file. */
  predicate AncestorOf(files: seq<FileEntry>, x: string) {
    exists i, k :: 0 <= i < |files| && 1 <= k <= |DirParts(files[i].relativePath)|
      && x == Acc(DirParts(files[i].relativePath), k)
  }

  lemma {:induction false} InSeenAfter(parts: seq<string>, n: nat, seen: set<string>, x: string)
    requires n <= |parts| && x in SeenAfter(parts, n, seen)
    ensures x in seen || exists k :: 1 <= k <= n && x == Acc(parts, k)
  {
    if n > 0 {
      if x == Acc(parts, n) {
        assert exists k :: 1 <= k <= n && x == Acc(parts, k);
      } else {
        assert x in SeenAfter(parts, n - 1, seen);
        InSeenAfter(parts, n - 1, seen, x);
      }
    }
  }

  /** Only directories above the files are ever seen, so every directory
      node stands for one of them. */
  lemma {:induction false} SeenAreAncestors(files: seq<FileEntry>)
    ensures forall x :: x in Seen(files) ==> AncestorOf(files, x)
  {
    if files != [] {
      var init := files[..|files| - 1];
      var last := |files| - 1;
      var parts := DirParts(files[last].relativePath);
      SeenAreAncestors(init);
      forall x | x in Seen(files) ensures AncestorOf(files, x) {
        InSeenAfter(parts, |parts|, Seen(init), x);
        if x in Seen(init) {
          var i, k :| 0 <= i < |init| && 1 <= k <= |DirParts(init[i].relativePath)|
            && x == Acc(DirParts(init[i].relativePath), k);
          assert init[i] == files[i];
        } else {
          var k :| 1 <= k <= |parts| && x == Acc(parts, k);
          assert x == Acc(DirParts(files[last].relativePath), k);
        }
      }
    }
  }
}
