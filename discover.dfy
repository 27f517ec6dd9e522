/** Finding the Markdown files under a directory (`packages/core/src/discover.ts`):
    the glob matcher behind the ignore list, and the recursive walk, over an
    in-memory snapshot of the directory tree. */
module Discovery {
  import opened Common
  import opened PosixPath
  import opened Types

  // ---------------------------------------------------------------------
  // matchPattern
  // ---------------------------------------------------------------------

  /** What a pattern character turns into once the pattern is rewritten to a
      regular expression: `**` (or a NUL character) becomes `.*`, `*` becomes
      `[^/]*`, `?` becomes `[^/]`, and `.` is escaped to a literal. */
  datatype Token = Lit(c: char) | AnyPath | AnySegment | OneChar

  /** The chain of `replace` calls, left to right: a `**` pair is taken before
      a single `*`, so `***` is `**` then `*`. */
  function Tokens(p: string): (r: seq<Token>)
    ensures |r| <= |p|
  {
    if p == [] then []
    else if |p| >= 2 && p[0] == '*' && p[1] == '*' then [AnyPath] + Tokens(p[2..])
    else if p[0] == '\0' then [AnyPath] + Tokens(p[1..])
    else if p[0] == '*' then [AnySegment] + Tokens(p[1..])
    else if p[0] == '?' then [OneChar] + Tokens(p[1..])
    else [Lit(p[0])] + Tokens(p[1..])
  }

  /** `new RegExp("^" + regex + "$").test(s)`: the whole of `s` matches.
      `.` does not match a line terminator; `[^/]` matches anything but `/`. */
  predicate Matches(t: seq<Token>, s: string)
    decreases |s|, |t|
  {
    if t == [] then s == []
    else match t[0]
      case Lit(c) => s != [] && s[0] == c && Matches(t[1..], s[1..])
      case OneChar => s != [] && s[0] != '/' && Matches(t[1..], s[1..])
      case AnySegment => Matches(t[1..], s) || (s != [] && s[0] != '/' && Matches(t, s[1..]))
      case AnyPath => Matches(t[1..], s) || (s != [] && !IsLineTerminator(s[0]) && Matches(t, s[1..]))
  }

  /** `matchPattern(filePath, pattern)`, with `/` as the only separator. */
  predicate MatchPattern(filePath: string, pattern: string) {
    Matches(Tokens(pattern), filePath)
  }

  // One entry of the ignore list ignores a path when it matches the path as
  // written or under any directory (`**/` in front).
  predicate IgnoredBy(relativePath: string, pattern: string) {
    MatchPattern(relativePath, pattern) || MatchPattern(relativePath, "**/" + pattern)
  }

  /** `isIgnored(relativePath, patterns)`: `patterns.some(...)`. */
  predicate IsIgnored(relativePath: string, patterns: seq<string>) {
    exists i :: 0 <= i < |patterns| && IgnoredBy(relativePath, patterns[i])
  }

  /** A character the pattern rewriting treats as a wildcard. */
  predicate IsWildcard(c: char) {
    c == '*' || c == '?' || c == '\0'
  }

  // ---------------------------------------------------------------------
  // What the patterns match
  // ---------------------------------------------------------------------

  predicate NoWildcard(p: string) {
    forall i :: 0 <= i < |p| ==> !IsWildcard(p[i])
  }

  /** A wildcard-free prefix of a pattern matches itself and nothing else. */
  lemma {:induction false} LiteralPrefix(pre: string, t: seq<Token>, s: string)
    requires NoWildcard(pre)
    ensures Matches(Tokens(pre) + t, s) <==> StartsWith(s, pre) && Matches(t, s[|pre|..])
  {
    if pre != [] {
      LiteralHead(pre, t, s);
      if s != [] {
        LiteralPrefix(pre[1..], t, s[1..]);
        StartsWithCons(s, pre);
      }
    } else {
      assert Tokens(pre) + t == t;
      assert s[|pre|..] == s;
    }
  }

  /** The first character of a wildcard-free pattern matches only itself. */
  lemma {:induction false} LiteralHead(pre: string, t: seq<Token>, s: string)
    requires NoWildcard(pre) && pre != []
    ensures Matches(Tokens(pre) + t, s) <==> s != [] && s[0] == pre[0] && Matches(Tokens(pre[1..]) + t, s[1..])
  {
    var tt := Tokens(pre) + t;
    assert tt == [Lit(pre[0])] + (Tokens(pre[1..]) + t);
    assert tt[0] == Lit(pre[0]) && tt[1..] == Tokens(pre[1..]) + t;
  }

  /** A text starts with a prefix exactly when their first characters agree
      and the rest of the text starts with the rest of the prefix. */
  lemma {:induction false} StartsWithCons(s: string, pre: string)
    requires s != [] && pre != []
    ensures StartsWith(s, pre) <==> s[0] == pre[0] && StartsWith(s[1..], pre[1..])
    ensures |pre| <= |s| ==> s[1..][|pre| - 1..] == s[|pre|..]
  {
    if |pre| <= |s| {
      assert s[..|pre|] == [s[0]] + s[1..][..|pre| - 1];
      assert pre == [pre[0]] + pre[1..];
    }
  }

  /** Without wildcards, a pattern matches exactly itself. */
  lemma {:induction false} LiteralPattern(p: string, s: string)
    requires NoWildcard(p)
    ensures MatchPattern(s, p) <==> s == p
  {
    LiteralPrefix(p, [], s);
    assert Tokens(p) + [] == Tokens(p);
  }

  /** Every pattern matches its own text: `*` and `?` match themselves, and
      `**` matches the two stars. This rests on the token model, where every
      other character is a literal; a name holding a regular-expression
      character that the code does not escape (`(`, `+`, `[`, ...) does not
      match itself there (`notes (a).md` builds `^notes (a)\.md$`). */
  lemma {:induction false} SelfMatch(p: string)
    ensures MatchPattern(p, p)
    decreases |p|
  {
    if p != [] {
      var t := Tokens(p);
      if |p| >= 2 && p[0] == '*' && p[1] == '*' {
        var rest := p[2..];
        SelfMatch(rest);
        assert t[0] == AnyPath && t[1..] == Tokens(rest);
        assert p[1..][1..] == rest;
        assert Matches(t, p[1..][1..]);
        assert Matches(t, p[1..]);
      } else {
        var rest := p[1..];
        SelfMatch(rest);
        assert t[1..] == Tokens(rest);
        if p[0] == '\0' {
          assert t[0] == AnyPath;
          assert Matches(t, rest);
        } else if p[0] == '*' {
          assert t[0] == AnySegment;
          assert Matches(t, rest);
        }
      }
    }
  }

  /** A path is ignored by an ignore list that holds the path itself, within
      the token model of `SelfMatch`. */
  lemma {:induction false} IgnoredByItself(relativePath: string, patterns: seq<string>)
    requires relativePath in patterns
    ensures IsIgnored(relativePath, patterns)
  {
    var i :| 0 <= i < |patterns| && patterns[i] == relativePath;
    SelfMatch(relativePath);
    assert IgnoredBy(relativePath, patterns[i]);
  }

  /** `*` matches exactly the runs without `/`. */
  lemma {:induction false} StarWithinSegment(s: string)
    ensures Matches([AnySegment], s) <==> '/' !in s
  {
    if s != [] {
      StarWithinSegment(s[1..]);
      assert s == [s[0]] + s[1..];
      assert [AnySegment][1..] == [];
    }
  }

  /** `**` matches exactly the runs without a line terminator, `/` included. */
  lemma {:induction false} DoubleStarAnyPath(s: string)
    ensures Matches([AnyPath], s) <==> forall i :: 0 <= i < |s| ==> !IsLineTerminator(s[i])
  {
    if s != [] {
      DoubleStarAnyPath(s[1..]);
      assert [AnyPath][1..] == [];
      assert forall i :: 1 <= i < |s| ==> s[i] == s[1..][i - 1];
    }
  }

  /** `?` matches exactly one character other than `/`. */
  lemma {:induction false} QuestionOneChar(s: string)
    ensures MatchPattern(s, "?") <==> |s| == 1 && s[0] != '/'
  {
    assert Tokens("?") == [OneChar];
    assert [OneChar][1..] == [];
    if s != [] {
      assert Matches([], s[1..]) <==> |s| == 1;
    }
  }

  /** The match is anchored at both ends: a path that only contains a match
      does not match. */
  lemma {:induction false} AnchoredExample()
    ensures MatchPattern("a.md", "a.md")
    ensures !MatchPattern("xa.md", "a.md") && !MatchPattern("a.mdx", "a.md")
  {
    LiteralPattern("a.md", "a.md");
    LiteralPattern("a.md", "xa.md");
    LiteralPattern("a.md", "a.mdx");
  }

  /** The first token of a non-empty pattern and how many characters it
      takes. */
  function TokenStep(p: string): (r: (Token, nat))
    requires p != []
    ensures 1 <= r.1 <= |p| && Tokens(p) == [r.0] + Tokens(p[r.1..])
  {
    if |p| >= 2 && p[0] == '*' && p[1] == '*' then (AnyPath, 2)
    else if p[0] == '\0' then (AnyPath, 1)
    else if p[0] == '*' then (AnySegment, 1)
    else if p[0] == '?' then (OneChar, 1)
    else (Lit(p[0]), 1)
  }

  /** Text appended after a pattern that does not end in `*` leaves its
      first token alone. */
  lemma {:induction false} TokenStepAppend(p: string, q: string)
    requires p != [] && p[|p| - 1] != '*'
    ensures TokenStep(p + q) == TokenStep(p)
  {
    var s := p + q;
    assert s[0] == p[0];
    if |p| >= 2 {
      assert s[1] == p[1];
    }
  }

  /** Tokens of a concatenation whose first part does not end in `*`. */
  lemma {:induction false} TokensAppendAt(p: string, q: string)
    requires p != [] && p[|p| - 1] != '*'
    ensures Tokens(p + q) == Tokens(p) + Tokens(q)
    decreases |p|
  {
    var (tk, n) := TokenStep(p);
    TokensHeadAppend(p, q);
    if n == |p| {
      TokensEmptyAppend(p[n..], q);
    } else {
      TokensAppendAt(p[n..], q);
    }
    ConsAssoc(tk, Tokens(p[n..]), Tokens(q));
  }

  /** The first token of such a concatenation is the first token of `p`. */
  lemma {:induction false} TokensHeadAppend(p: string, q: string)
    requires p != [] && p[|p| - 1] != '*'
    ensures var (tk, n) := TokenStep(p); Tokens(p + q) == [tk] + Tokens(p[n..] + q)
  {
    var n := TokenStep(p).1;
    TokenStepAppend(p, q);
    assert (p + q)[n..] == p[n..] + q;
  }

  lemma {:induction false} TokensEmptyAppend(p: string, q: string)
    requires p == []
    ensures Tokens(p + q) == Tokens(p) + Tokens(q)
  {
    assert p + q == q;
  }

  lemma {:induction false} ConsAssoc<T>(x: T, a: seq<T>, b: seq<T>)
    ensures [x] + (a + b) == ([x] + a) + b
  {
  }

  // The `**/` prefix that `isIgnored` adds.
  lemma {:induction false} AnyDirectoryTokens(p: string)
    ensures Tokens("**/" + p) == [AnyPath, Lit('/')] + Tokens(p)
  {
    var s := "**/" + p;
    assert s[2..] == "/" + p;
    assert s[2..][1..] == p;
  }

  // `**` in front skips any run of characters without a line terminator.
  lemma {:induction false} AnyPathSkips(x: string, t: seq<Token>, s: string)
    requires forall i :: 0 <= i < |x| ==> !IsLineTerminator(x[i])
    requires Matches(t, s)
    ensures Matches([AnyPath] + t, x + s)
  {
    var tt := [AnyPath] + t;
    assert tt[0] == AnyPath && tt[1..] == t;
    if x != [] {
      AnyPathSkips(x[1..], t, s);
      assert (x + s)[1..] == x[1..] + s;
      assert (x + s)[0] == x[0];
    } else {
      assert x + s == s;
    }
  }

  /** A pattern that matches a path also ignores it under any directory. */
  lemma {:induction false} IgnoredUnderAnyDirectory(dir: string, rest: string, pattern: string)
    requires forall i :: 0 <= i < |dir| ==> !IsLineTerminator(dir[i])
    requires MatchPattern(rest, pattern)
    ensures IgnoredBy(dir + "/" + rest, pattern)
  {
    AnyDirectoryTokens(pattern);
    var t := [Lit('/')] + Tokens(pattern);
    assert ("/" + rest)[1..] == rest;
    assert Matches(t, "/" + rest);
    AnyPathSkips(dir, t, "/" + rest);
    assert [AnyPath] + t == [AnyPath, Lit('/')] + Tokens(pattern);
    assert dir + "/" + rest == dir + ("/" + rest);
  }

  /** `name-*`: the paths that start with `name-` and have no `/` after it. */
  lemma {:induction false} PrefixStar(pre: string, s: string)
    requires NoWildcard(pre)
    ensures MatchPattern(s, pre + "*") <==> StartsWith(s, pre) && '/' !in s[|pre|..]
  {
    assert Tokens("*") == [AnySegment] + Tokens([]);
    if pre == [] {
      assert pre + "*" == "*";
    } else {
      TokensAppendAt(pre, "*");
    }
    assert Tokens(pre + "*") == Tokens(pre) + [AnySegment];
    LiteralPrefix(pre, [AnySegment], s);
    if StartsWith(s, pre) {
      StarWithinSegment(s[|pre|..]);
    }
  }

  // `dir/**` matches exactly the paths that start with `dir/` and hold no
  // line terminator after it; every other path fails to match.
  lemma {:induction false} DirectoryGlob(dir: string, s: string)
    requires NoWildcard(dir)
    ensures MatchPattern(s, dir + "/**")
        <==> StartsWith(s, dir + "/") && forall i :: |dir| + 1 <= i < |s| ==> !IsLineTerminator(s[i])
  {
    var pre := dir + "/";
    assert NoWildcard(pre);
    assert dir + "/**" == pre + "**";
    TokensAppendAt(pre, "**");
    assert Tokens("**") == [AnyPath] + Tokens([]);
    assert Tokens(dir + "/**") == Tokens(pre) + [AnyPath];
    LiteralPrefix(pre, [AnyPath], s);
    if StartsWith(s, pre) {
      var rest := s[|pre|..];
      DoubleStarAnyPath(rest);
      assert forall i :: |pre| <= i < |s| ==> s[i] == rest[i - |pre|];
    }
  }

  // ---------------------------------------------------------------------
  // walk and discover
  // ---------------------------------------------------------------------

  /** What `fs.readdir(dir, { withFileTypes: true })` lists: files with the
      times `fs.stat` reports, directories with their own listings, and
      anything else (links, sockets, ...), which the walk passes over. */
  datatype Entry =
    | FileItem(name: string, birthtimeMs: int, mtimeMs: int)
    | DirItem(name: string, items: seq<Entry>)
    | OtherItem(name: string)

  /** What the walk appends for a listing, in listing order, depth first. */
  function WalkSpec(base: AbsPath, current: AbsPath, items: seq<Entry>, recursive: bool, ignore: seq<string>): seq<FileEntry>
    decreases items
  {
    if items == [] then []
    else ItemSpec(base, current, items[0], recursive, ignore) + WalkSpec(base, current, items[1..], recursive, ignore)
  }

  /** What the walk appends for one listed item. */
  function ItemSpec(base: AbsPath, current: AbsPath, item: Entry, recursive: bool, ignore: seq<string>): seq<FileEntry>
    decreases item
  {
    var fullPath := Child(current, item.name);
    var relativePath := Relative(base, fullPath);
    match item
    case DirItem(_, items) =>
      if recursive && !IsIgnored(relativePath + "/", ignore) then WalkSpec(base, fullPath, items, recursive, ignore)
      else []
    case FileItem(name, birthtimeMs, mtimeMs) =>
      if EndsWith(name, ".md") && !IsIgnored(relativePath, ignore)
      then [FileEntry(AbsString(fullPath), relativePath, birthtimeMs, mtimeMs)]
      else []
    case OtherItem(_) => []
  }

  /** The shared `result` array that every level of the walk pushes onto. */
  class FileCollector {
    var result: seq<FileEntry>

    constructor()
      ensures result == []
    {
      result := [];
    }

    /** `walk(baseDir, currentDir, recursive, ignore, result)`, with the
        listing of `currentDir` given as `items`. */
    method Walk(base: AbsPath, current: AbsPath, items: seq<Entry>, recursive: bool, ignore: seq<string>)
      modifies this
      ensures result == old(result) + WalkSpec(base, current, items, recursive, ignore)
      decreases items
    {
      var i := 0;
      while i < |items|
        invariant 0 <= i <= |items|
        invariant old(result) + WalkSpec(base, current, items, recursive, ignore)
          == result + WalkSpec(base, current, items[i..], recursive, ignore)
      {
        var item := items[i];
        ghost var before := result;
        var fullPath := Child(current, item.name);
        var relativePath := Relative(base, fullPath);
        if item.DirItem? && recursive {
          if |ignore| == 0 || !IsIgnored(relativePath + "/", ignore) {
            Walk(base, fullPath, item.items, recursive, ignore);
          }
        } else if item.FileItem? && EndsWith(item.name, ".md") {
          if |ignore| > 0 && IsIgnored(relativePath, ignore) {
            WalkStep(base, current, items, i, recursive, ignore, before, result);
            i := i + 1;
            continue;
          }
          result := result + [FileEntry(AbsString(fullPath), relativePath, item.birthtimeMs, item.mtimeMs)];
        }
        WalkStep(base, current, items, i, recursive, ignore, before, result);
        i := i + 1;
      }
    }
  }

  /** One listed item's entries, appended, carry the walk one item further. */
  lemma {:induction false} WalkStep(base: AbsPath, current: AbsPath, items: seq<Entry>, i: nat, recursive: bool, ignore: seq<string>,
                 before: seq<FileEntry>, after: seq<FileEntry>)
    requires i < |items| && after == before + ItemSpec(base, current, items[i], recursive, ignore)
    ensures before + WalkSpec(base, current, items[i..], recursive, ignore)
         == after + WalkSpec(base, current, items[i + 1..], recursive, ignore)
  {
    assert items[i..][1..] == items[i + 1..];
  }

  /** `discover(dir, recursive, ignore)`, with the directory tree under `dir`
      given as `tree`. */
  method Discover(dir: AbsPath, tree: seq<Entry>, recursive: bool, ignore: seq<string>) returns (entries: seq<FileEntry>)
    ensures entries == WalkSpec(dir, dir, tree, recursive, ignore)
  {
    var collector := new FileCollector();
    collector.Walk(dir, dir, tree, recursive, ignore);
    entries := collector.result;
  }

  // ---------------------------------------------------------------------
  // What the walk returns
  // ---------------------------------------------------------------------

  /** Listing names are plain names, all the way down. */
  predicate WellNamed(items: seq<Entry>)
    decreases items
  {
    forall i :: 0 <= i < |items| ==>
      IsName(items[i].name) && (items[i].DirItem? ==> WellNamed(items[i].items))
  }

  /** `items` is the listing of the directory at relative segments `rel` in
      `tree`. */
  predicate DirAt(tree: seq<Entry>, rel: seq<string>, items: seq<Entry>)
    decreases |rel|
  {
    if rel == [] then items == tree
    else exists i :: (0 <= i < |tree| && tree[i].DirItem? && tree[i].name == rel[0]
                      && DirAt(tree[i].items, rel[1..], items))
  }

  /** `tree` lists, at relative segments `rel`, a file with the times `b`
      and `m`. */
  predicate FileAt(tree: seq<Entry>, rel: seq<string>, b: int, m: int)
    decreases |rel|
  {
    rel != [] && exists i :: (0 <= i < |tree| && tree[i].name == rel[0] &&
                               if |rel| == 1 then tree[i] == FileItem(rel[0], b, m)
                               else tree[i].DirItem? && FileAt(tree[i].items, rel[1..], b, m))
  }

  /** A file of a listing in the tree is a file of the tree. */
  lemma {:induction false} FileOfListing(tree: seq<Entry>, rel0: seq<string>, items: seq<Entry>, item: Entry)
    requires DirAt(tree, rel0, items) && item in items && item.FileItem?
    ensures FileAt(tree, rel0 + [item.name], item.birthtimeMs, item.mtimeMs)
    decreases |rel0|
  {
    var rel := rel0 + [item.name];
    if rel0 == [] {
      var i :| 0 <= i < |items| && items[i] == item;
      assert rel == [item.name];
      assert tree[i] == FileItem(rel[0], item.birthtimeMs, item.mtimeMs);
    } else {
      var i :| 0 <= i < |tree| && tree[i].DirItem? && tree[i].name == rel0[0] && DirAt(tree[i].items, rel0[1..], items);
      FileOfListing(tree[i].items, rel0[1..], items, item);
      assert rel[1..] == rel0[1..] + [item.name];
      assert |rel| > 1 && tree[i].name == rel[0];
    }
  }

  /** A directory of a listing in the tree has its own listing there. */
  lemma {:induction false} DirOfListing(tree: seq<Entry>, rel0: seq<string>, items: seq<Entry>, item: Entry)
    requires DirAt(tree, rel0, items) && item in items && item.DirItem?
    ensures DirAt(tree, rel0 + [item.name], item.items)
    decreases |rel0|
  {
    var rel := rel0 + [item.name];
    if rel0 == [] {
      var i :| 0 <= i < |items| && items[i] == item;
      assert rel[1..] == [];
      assert tree[i].DirItem? && tree[i].name == rel[0] && DirAt(tree[i].items, rel[1..], item.items);
    } else {
      var i :| 0 <= i < |tree| && tree[i].DirItem? && tree[i].name == rel0[0] && DirAt(tree[i].items, rel0[1..], items);
      DirOfListing(tree[i].items, rel0[1..], items, item);
      assert rel[1..] == rel0[1..] + [item.name];
      assert tree[i].name == rel[0];
    }
  }

  /** `x` is the file at relative segments `rel` below `base`: a `.md` file
      that `tree` lists there, with the times the listing gives, whose path is
      not ignored, reached only through directories whose paths (with a
      trailing `/`) are not ignored, and directly in `base` unless the walk is
      recursive. */
  predicate FoundAt(tree: seq<Entry>, base: AbsPath, x: FileEntry, rel: seq<string>, recursive: bool, ignore: seq<string>) {
    PlainSegments(rel)
    && FileAt(tree, rel, x.birthtimeMs, x.mtimeMs)
    && x.relativePath == Join(rel, "/")
    && x.absolutePath == AbsString(AbsPath(base.segments + rel))
    && EndsWith(x.relativePath, ".md")
    && !IsIgnored(x.relativePath, ignore)
    && (forall k :: 1 <= k < |rel| ==> !IsIgnored(Join(rel[..k], "/") + "/", ignore))
    && (!recursive ==> |rel| == 1)
  }

  predicate AncestorsKept(rel: seq<string>, ignore: seq<string>) {
    forall k :: 1 <= k <= |rel| ==> !IsIgnored(Join(rel[..k], "/") + "/", ignore)
  }

  lemma {:induction false} WalkSound(tree: seq<Entry>, base: AbsPath, rel0: seq<string>, listing: seq<Entry>, items: seq<Entry>,
                                     recursive: bool, ignore: seq<string>)
    requires DirAt(tree, rel0, listing) && forall e :: e in items ==> e in listing
    requires forall i :: 0 <= i < |rel0| ==> IsName(rel0[i])
    requires WellNamed(items) && AncestorsKept(rel0, ignore)
    requires !recursive ==> rel0 == []
    ensures forall x :: x in WalkSpec(base, AbsPath(base.segments + rel0), items, recursive, ignore) ==>
      exists rel :: FoundAt(tree, base, x, rel, recursive, ignore)
    decreases items
  {
    if items != [] {
      ItemSound(tree, base, rel0, listing, items[0], recursive, ignore);
      assert WellNamed(items[1..]) by {
        forall i | 0 <= i < |items[1..]|
          ensures IsName(items[1..][i].name) && (items[1..][i].DirItem? ==> WellNamed(items[1..][i].items))
        {
          assert items[1..][i] == items[i + 1];
        }
      }
      WalkSound(tree, base, rel0, listing, items[1..], recursive, ignore);
    }
  }

  lemma {:induction false} ItemSound(tree: seq<Entry>, base: AbsPath, rel0: seq<string>, listing: seq<Entry>, item: Entry,
                                     recursive: bool, ignore: seq<string>)
    requires DirAt(tree, rel0, listing) && item in listing
    requires forall i :: 0 <= i < |rel0| ==> IsName(rel0[i])
    requires IsName(item.name) && (item.DirItem? ==> WellNamed(item.items)) && AncestorsKept(rel0, ignore)
    requires !recursive ==> rel0 == []
    ensures forall x :: x in ItemSpec(base, AbsPath(base.segments + rel0), item, recursive, ignore) ==>
      exists rel :: FoundAt(tree, base, x, rel, recursive, ignore)
    decreases item, 1
  {
    match item
    case DirItem(_, _) => DirSound(tree, base, rel0, listing, item, recursive, ignore);
    case FileItem(_, _, _) => FileSound(tree, base, rel0, listing, item, recursive, ignore);
    case OtherItem(_) =>
  }

  /** The child `name` of the directory at `rel0` is at `rel0 + [name]`. */
  lemma {:induction false} ChildPath(base: AbsPath, rel0: seq<string>, name: string)
    requires forall i :: 0 <= i < |rel0| ==> IsName(rel0[i])
    requires IsName(name)
    ensures Child(AbsPath(base.segments + rel0), name) == AbsPath(base.segments + (rel0 + [name]))
    ensures Relative(base, Child(AbsPath(base.segments + rel0), name)) == Join(rel0 + [name], "/")
  {
    var full := Child(AbsPath(base.segments + rel0), name);
    assert full == AbsPath(base.segments + (rel0 + [name]));
    assert full.segments[|base.segments|..] == rel0 + [name];
    RelativeFromAncestor(base, full);
  }

  lemma {:induction false} DirSound(tree: seq<Entry>, base: AbsPath, rel0: seq<string>, listing: seq<Entry>, item: Entry,
                                    recursive: bool, ignore: seq<string>)
    requires DirAt(tree, rel0, listing) && item in listing
    requires forall i :: 0 <= i < |rel0| ==> IsName(rel0[i])
    requires item.DirItem? && IsName(item.name) && WellNamed(item.items) && AncestorsKept(rel0, ignore)
    requires !recursive ==> rel0 == []
    ensures forall x :: x in ItemSpec(base, AbsPath(base.segments + rel0), item, recursive, ignore) ==>
      exists rel :: FoundAt(tree, base, x, rel, recursive, ignore)
    decreases item, 0
  {
    var rel := rel0 + [item.name];
    ChildPath(base, rel0, item.name);
    if recursive && !IsIgnored(Join(rel, "/") + "/", ignore) {
      assert AncestorsKept(rel, ignore) by {
        forall k | 1 <= k <= |rel| ensures !IsIgnored(Join(rel[..k], "/") + "/", ignore) {
          if k < |rel| {
            assert rel[..k] == rel0[..k];
          } else {
            assert rel[..k] == rel;
          }
        }
      }
      DirOfListing(tree, rel0, listing, item);
      WalkSound(tree, base, rel, item.items, item.items, recursive, ignore);
    }
  }

  lemma {:induction false} FileSound(tree: seq<Entry>, base: AbsPath, rel0: seq<string>, listing: seq<Entry>, item: Entry,
                                     recursive: bool, ignore: seq<string>)
    requires DirAt(tree, rel0, listing) && item in listing
    requires forall i :: 0 <= i < |rel0| ==> IsName(rel0[i])
    requires item.FileItem? && IsName(item.name) && AncestorsKept(rel0, ignore)
    requires !recursive ==> rel0 == []
    ensures forall x :: x in ItemSpec(base, AbsPath(base.segments + rel0), item, recursive, ignore) ==>
      exists rel :: FoundAt(tree, base, x, rel, recursive, ignore)
  {
    var rel := rel0 + [item.name];
    var current := AbsPath(base.segments + rel0);
    ChildPath(base, rel0, item.name);
    var full := AbsPath(base.segments + rel);
    var relativePath := Join(rel, "/");
    if EndsWith(item.name, ".md") && !IsIgnored(relativePath, ignore) {
      var x := FileEntry(AbsString(full), relativePath, item.birthtimeMs, item.mtimeMs);
      assert ItemSpec(base, current, item, recursive, ignore) == [x];
      JoinEndsWithLast(rel0, item.name, ".md");
      FileOfListing(tree, rel0, listing, item);
      forall k | 1 <= k < |rel| ensures !IsIgnored(Join(rel[..k], "/") + "/", ignore) {
        assert rel[..k] == rel0[..k];
      }
      assert FoundAt(tree, base, x, rel, recursive, ignore);
    }
  }

  /** A joined path ends the way its last segment does. */
  lemma {:induction false} JoinEndsWithLast(init: seq<string>, last: string, suffix: string)
    requires EndsWith(last, suffix)
    ensures EndsWith(Join(init + [last], "/"), suffix)
  {
    if init == [] {
      assert init + [last] == [last];
    } else {
      JoinSnoc(init, last, "/");
      var j := Join(init, "/") + "/" + last;
      assert j[|j| - |suffix|..] == last[|last| - |suffix|..];
    }
  }

  /** Every entry `discover` returns is a `.md` file that the tree lists at
      its relative path, with the listed times, that is not ignored and lies
      under no ignored directory; without recursion, its relative path has no
      separator. */
  lemma {:induction false} DiscoverSound(dir: AbsPath, tree: seq<Entry>, recursive: bool, ignore: seq<string>)
    requires WellNamed(tree)
    ensures forall x :: x in WalkSpec(dir, dir, tree, recursive, ignore) ==>
      exists rel :: FoundAt(tree, dir, x, rel, recursive, ignore)
    ensures !recursive ==> forall x :: x in WalkSpec(dir, dir, tree, recursive, ignore) ==> '/' !in x.relativePath
  {
    assert AbsPath(dir.segments + []) == dir;
    WalkSound(tree, dir, [], tree, tree, recursive, ignore);
    if !recursive {
      forall x | x in WalkSpec(dir, dir, tree, recursive, ignore) ensures '/' !in x.relativePath {
        var rel :| FoundAt(tree, dir, x, rel, recursive, ignore);
        assert x.relativePath == rel[0];
      }
    }
  }

  /** A listed `.md` file whose path is not ignored is returned. */
  lemma {:induction false} ListedFileFound(base: AbsPath, current: AbsPath, items: seq<Entry>, i: nat, recursive: bool, ignore: seq<string>)
    requires i < |items| && items[i].FileItem? && EndsWith(items[i].name, ".md")
    requires !IsIgnored(Relative(base, Child(current, items[i].name)), ignore)
    ensures var full := Child(current, items[i].name);
      FileEntry(AbsString(full), Relative(base, full), items[i].birthtimeMs, items[i].mtimeMs)
        in WalkSpec(base, current, items, recursive, ignore)
  {
    if i > 0 {
      ListedFileFound(base, current, items[1..], i - 1, recursive, ignore);
      assert items[1..][i - 1] == items[i];
    }
  }

  /** With recursion, everything found in a listed directory whose path is not
      ignored is returned. */
  lemma {:induction false} ListedDirectoryEntered(base: AbsPath, current: AbsPath, items: seq<Entry>, i: nat, recursive: bool, ignore: seq<string>)
    requires i < |items| && items[i].DirItem? && recursive
    requires !IsIgnored(Relative(base, Child(current, items[i].name)) + "/", ignore)
    ensures forall x :: x in WalkSpec(base, Child(current, items[i].name), items[i].items, recursive, ignore) ==>
      x in WalkSpec(base, current, items, recursive, ignore)
  {
    if i > 0 {
      ListedDirectoryEntered(base, current, items[1..], i - 1, recursive, ignore);
      assert items[1..][i - 1] == items[i];
    }
  }

  /** A top-level item's relative path is its name. */
  lemma {:induction false} TopLevelPath(base: AbsPath, name: string)
    ensures Relative(base, Child(base, name)) == name
  {
    RelativeFromAncestor(base, Child(base, name));
    assert Child(base, name).segments[|base.segments|..] == [name];
  }

  // Ignoring `name/**` prunes the top-level directory `name` whole.
  lemma {:induction false} DirectoryPatternPrunes(base: AbsPath, name: string, items: seq<Entry>, recursive: bool)
    requires NoWildcard(name)
    ensures ItemSpec(base, base, DirItem(name, items), recursive, [name + "/**"]) == []
  {
    TopLevelPath(base, name);
    DirectoryGlob(name, name + "/");
    assert IgnoredBy(name + "/", [name + "/**"][0]);
  }

  /** Ignoring `pre*` drops the top-level files whose name is `pre` followed
      by a run without `/`. */
  lemma {:induction false} PrefixPatternDropsFile(base: AbsPath, pre: string, rest: string, birthtimeMs: int, mtimeMs: int, recursive: bool)
    requires NoWildcard(pre) && '/' !in rest
    ensures ItemSpec(base, base, FileItem(pre + rest, birthtimeMs, mtimeMs), recursive, [pre + "*"]) == []
  {
    TopLevelPath(base, pre + rest);
    PrefixStar(pre, pre + rest);
    assert (pre + rest)[..|pre|] == pre && (pre + rest)[|pre|..] == rest;
    assert IgnoredBy(pre + rest, [pre + "*"][0]);
  }

  /** A file name given as a pattern drops that file in every directory. */
  lemma {:induction false} NamePatternDropsNestedFile(base: AbsPath, rel0: seq<string>, name: string, birthtimeMs: int, mtimeMs: int, recursive: bool)
    requires rel0 != [] && NoWildcard(name)
    requires forall i :: 0 <= i < |Join(rel0, "/")| ==> !IsLineTerminator(Join(rel0, "/")[i])
    ensures ItemSpec(base, AbsPath(base.segments + rel0), FileItem(name, birthtimeMs, mtimeMs), recursive, [name]) == []
  {
    var full := Child(AbsPath(base.segments + rel0), name);
    assert full.segments[|base.segments|..] == rel0 + [name];
    RelativeFromAncestor(base, full);
    JoinSnoc(rel0, name, "/");
    LiteralPattern(name, name);
    IgnoredUnderAnyDirectory(Join(rel0, "/"), name, name);
    assert IgnoredBy(Join(rel0 + [name], "/"), [name][0]);
  }
}
