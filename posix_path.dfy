/** The parts of Node's `path.posix` the core relies on, as pure functions over
    strings and `/`-separated segment lists: `normalize`, `join`, `relative`
    and `dirname`. Absolute directories arrive already resolved, as the list
    of their segments (`/project/docs` is `["project", "docs"]`). */
module PosixPath {
  import opened Common

  /** An absolute, resolved path: `/` followed by its segments joined with `/`. */
  datatype AbsPath = AbsPath(segments: seq<string>)

  function AbsString(a: AbsPath): string {
    "/" + Join(a.segments, "/")
  }

  /** A segment as a directory listing can return it. */
  predicate IsName(s: string) {
    s != "" && '/' !in s && s != "." && s != ".."
  }

  /** What `path.resolve` produces: no empty, `.` or `..` segments. */
  predicate Resolved(a: AbsPath) {
    forall i :: 0 <= i < |a.segments| ==> IsName(a.segments[i])
  }

  /** A relative path made of plain names joined by `/`, as discovery builds them. */
  predicate PlainSegments(segs: seq<string>) {
    segs != [] && forall i :: 0 <= i < |segs| ==> IsName(segs[i])
  }

  /** `path.dirname` of an absolute path: its parent (the root is its own parent). */
  function Parent(a: AbsPath): (r: AbsPath)
    ensures |a.segments| > 0 ==> r.segments == a.segments[..|a.segments| - 1]
  {
    if a.segments == [] then a else AbsPath(a.segments[..|a.segments| - 1])
  }

  /** `path.join(dir, name)` for a resolved directory and a plain name. */
  function Child(a: AbsPath, name: string): AbsPath {
    AbsPath(a.segments + [name])
  }

  // ---------------------------------------------------------------------
  // path.posix.normalize and path.posix.join
  // ---------------------------------------------------------------------

  /** The segment loop of Node's `normalizeString`: empty and `.` segments are
      dropped, `..` removes the previous segment unless that is itself `..`,
      and otherwise is kept only for relative paths. */
  function NormalizeFrom(segs: seq<string>, acc: seq<string>, allowAboveRoot: bool): seq<string>
    decreases |segs|
  {
    if segs == [] then acc
    else
      var s := segs[0];
      if s == "" || s == "." then NormalizeFrom(segs[1..], acc, allowAboveRoot)
      else if s == ".." then
        if acc != [] && acc[|acc| - 1] != ".." then NormalizeFrom(segs[1..], acc[..|acc| - 1], allowAboveRoot)
        else if allowAboveRoot then NormalizeFrom(segs[1..], acc + [".."], allowAboveRoot)
        else NormalizeFrom(segs[1..], acc, allowAboveRoot)
      else NormalizeFrom(segs[1..], acc + [s], allowAboveRoot)
  }

  /** `path.posix.normalize`. */
  function Normalize(p: string): string {
    if p == "" then "."
    else
      var isAbsolute := p[0] == '/';
      var trailing := p[|p| - 1] == '/';
      var body := Join(NormalizeFrom(Split(p, '/'), [], !isAbsolute), "/");
      if body == "" then (if isAbsolute then "/" else if trailing then "./" else ".")
      else (if isAbsolute then "/" else "") + body + (if trailing then "/" else "")
  }

  /** `path.posix.join(a, b)`: the non-empty arguments joined with `/`, normalized. */
  function PosixJoin(a: string, b: string): string {
    if a == "" && b == "" then "."
    else Normalize(if a == "" then b else if b == "" then a else a + "/" + b)
  }

  /** A cleaned segment list: no empty or `.` segments, and `..` only in a
      leading run (never at all when `..` may not climb above the root). */
  predicate Clean(segs: seq<string>, allowAboveRoot: bool) {
    && (forall i :: 0 <= i < |segs| ==> segs[i] != "" && segs[i] != ".")
    && (forall i, j :: 0 <= i < j < |segs| && segs[j] == ".." ==> segs[i] == "..")
    && (!allowAboveRoot ==> forall i :: 0 <= i < |segs| ==> segs[i] != "..")
  }

  lemma {:induction false} NormalizeFromClean(segs: seq<string>, acc: seq<string>, allow: bool)
    requires Clean(acc, allow)
    ensures Clean(NormalizeFrom(segs, acc, allow), allow)
    decreases |segs|
  {
    if segs != [] {
      var s := segs[0];
      if s == "" || s == "." {
        NormalizeFromClean(segs[1..], acc, allow);
      } else if s == ".." {
        if acc != [] && acc[|acc| - 1] != ".." {
          NormalizeFromClean(segs[1..], acc[..|acc| - 1], allow);
        } else if allow {
          NormalizeFromClean(segs[1..], acc + [".."], allow);
        } else {
          NormalizeFromClean(segs[1..], acc, allow);
        }
      } else {
        NormalizeFromClean(segs[1..], acc + [s], allow);
      }
    }
  }

  /** A clean list passes through the segment loop unchanged. */
  lemma {:induction false} NormalizeFromOfClean(segs: seq<string>, acc: seq<string>, allow: bool)
    requires Clean(acc + segs, allow)
    ensures NormalizeFrom(segs, acc, allow) == acc + segs
    decreases |segs|
  {
    if segs != [] {
      var s := segs[0];
      assert (acc + segs)[|acc|] == s;
      assert acc + segs == (acc + [s]) + segs[1..];
      if s == ".." {
        assert acc == [] || acc[|acc| - 1] == ".." by {
          if acc != [] {
            assert (acc + segs)[|acc| - 1] == acc[|acc| - 1];
          }
        }
      }
      NormalizeFromOfClean(segs[1..], acc + [s], allow);
    }
  }

  lemma {:induction false} JoinedHasNoEmptyPart(segs: seq<string>)
    requires forall i :: 0 <= i < |segs| ==> segs[i] != "" && '/' !in segs[i]
    ensures Join(segs, "/") == "" <==> segs == []
    ensures segs != [] ==> Join(segs, "/")[0] != '/' && Join(segs, "/")[|Join(segs, "/")| - 1] != '/'
  {
    if |segs| > 1 {
      JoinedHasNoEmptyPart(segs[1..]);
      assert Join(segs, "/") == segs[0] + "/" + Join(segs[1..], "/");
    }
  }

  /** The cleaned segments of a path, as `normalize` computes them. */
  function NormalSegments(p: string): seq<string>
    requires p != ""
  {
    NormalizeFrom(Split(p, '/'), [], p[0] != '/')
  }

  lemma {:induction false} NormalSegmentsShape(p: string)
    requires p != ""
    ensures var segs := NormalSegments(p);
      Clean(segs, p[0] != '/') && forall i :: 0 <= i < |segs| ==> segs[i] != "" && '/' !in segs[i]
  {
    var segs := NormalSegments(p);
    NormalizeFromClean(Split(p, '/'), [], p[0] != '/');
    forall i | 0 <= i < |segs| ensures '/' !in segs[i] {
      NormalizeFromNoSlash(Split(p, '/'), [], p[0] != '/', i);
    }
  }

  /** Normalizing twice is normalizing once. */
  lemma {:induction false} NormalizeIdempotent(p: string)
    ensures Normalize(Normalize(p)) == Normalize(p)
  {
    if p == "" {
      assert Normalize(p) == ".";
      assert Split(".", '/') == ["."];
    } else {
      var segs := NormalSegments(p);
      NormalSegmentsShape(p);
      JoinedHasNoEmptyPart(segs);
      if segs == [] {
        NormalizeOfEmptyBody(p);
      } else {
        NormalizeOfBody(p, segs);
      }
    }
  }

  lemma {:induction false} NormalizeOfEmptyBody(p: string)
    requires p != "" && NormalSegments(p) == []
    ensures Normalize(Normalize(p)) == Normalize(p)
  {
    assert Join([], "/") == "";
    if p[0] == '/' {
      assert Normalize(p) == "/";
      assert Split("/", '/') == ["", ""] by {
        assert IndexOf("/", '/') == Some(0);
        assert IndexOf("", '/') == None;
      }
      assert NormalSegments("/") == [];
    } else if p[|p| - 1] == '/' {
      assert Normalize(p) == "./";
      assert Split("./", '/') == [".", ""] by {
        assert IndexOf("./", '/') == Some(1);
        assert "./"[..1] == ".";
        assert IndexOf("", '/') == None;
      }
      assert NormalSegments("./") == [];
    } else {
      assert Normalize(p) == ".";
      assert Split(".", '/') == ["."];
      assert NormalSegments(".") == [];
    }
  }

  /** `normalize` re-attaches a leading and a trailing slash to the cleaned body. */
  function Framed(segs: seq<string>, lead: bool, trail: bool): seq<string> {
    (if lead then [""] else []) + segs + (if trail then [""] else [])
  }

  lemma {:induction false} SplitOfFramed(segs: seq<string>, lead: bool, trail: bool)
    requires segs != [] && forall i :: 0 <= i < |segs| ==> '/' !in segs[i]
    ensures Split((if lead then "/" else "") + Join(segs, "/") + (if trail then "/" else ""), '/')
         == Framed(segs, lead, trail)
  {
    var f := Framed(segs, lead, trail);
    JoinWithEnds(segs, lead, trail);
    assert Join(f, "/") == (if lead then "/" else "") + Join(segs, "/") + (if trail then "/" else "");
    FramedNoSlash(segs, lead, trail);
    SplitJoin(f, '/');
  }

  lemma {:induction false} FramedNoSlash(segs: seq<string>, lead: bool, trail: bool)
    requires forall i :: 0 <= i < |segs| ==> '/' !in segs[i]
    ensures forall i :: 0 <= i < |Framed(segs, lead, trail)| ==> '/' !in Framed(segs, lead, trail)[i]
  {
    var l: seq<string> := if lead then [""] else [];
    var t: seq<string> := if trail then [""] else [];
    var f := l + segs + t;
    assert Framed(segs, lead, trail) == f;
    forall i | 0 <= i < |f| ensures '/' !in f[i] {
      if i < |l| {
        assert f[i] == "";
      } else if i < |l| + |segs| {
        assert f[i] == segs[i - |l|];
      } else {
        assert f[i] == "";
      }
    }
  }

  lemma {:induction false} NormalizeFromOfFramed(segs: seq<string>, lead: bool, trail: bool)
    requires Clean(segs, !lead)
    ensures NormalizeFrom(Framed(segs, lead, trail), [], !lead) == segs
  {
    var l: seq<string> := if lead then [""] else [];
    var t: seq<string> := if trail then [""] else [];
    assert Framed(segs, lead, trail) == l + (segs + t);
    NormalizeFromSkipsEmpty(l, segs + t, [], !lead);
    NormalizeFromAppendEmpties(segs, t, [], !lead);
    assert [] + segs == segs;
    NormalizeFromOfClean(segs, [], !lead);
  }

  lemma {:induction false} NormalizeOfBody(p: string, segs: seq<string>)
    requires p != "" && segs == NormalSegments(p) && segs != []
    requires Clean(segs, p[0] != '/')
    requires forall i :: 0 <= i < |segs| ==> segs[i] != "" && '/' !in segs[i]
    ensures Normalize(Normalize(p)) == Normalize(p)
  {
    var isAbsolute := p[0] == '/';
    var trailing := p[|p| - 1] == '/';
    var body := Join(segs, "/");
    JoinedHasNoEmptyPart(segs);
    var n := (if isAbsolute then "/" else "") + body + (if trailing then "/" else "");
    assert Normalize(p) == n;
    assert n != "" && (n[0] == '/' <==> isAbsolute);
    assert n[|n| - 1] == '/' <==> trailing;
    SplitOfFramed(segs, isAbsolute, trailing);
    NormalizeFromOfFramed(segs, isAbsolute, trailing);
    assert NormalSegments(n) == segs;
  }

  lemma {:induction false} NormalizeFromNoSlash(segs: seq<string>, acc: seq<string>, allow: bool, i: nat)
    requires forall j :: 0 <= j < |segs| ==> '/' !in segs[j]
    requires forall j :: 0 <= j < |acc| ==> '/' !in acc[j]
    requires i < |NormalizeFrom(segs, acc, allow)|
    ensures '/' !in NormalizeFrom(segs, acc, allow)[i]
    decreases |segs|
  {
    if segs != [] {
      var s := segs[0];
      if s == "" || s == "." {
        NormalizeFromNoSlash(segs[1..], acc, allow, i);
      } else if s == ".." {
        if acc != [] && acc[|acc| - 1] != ".." {
          NormalizeFromNoSlash(segs[1..], acc[..|acc| - 1], allow, i);
        } else if allow {
          NormalizeFromNoSlash(segs[1..], acc + [".."], allow, i);
        } else {
          NormalizeFromNoSlash(segs[1..], acc, allow, i);
        }
      } else {
        NormalizeFromNoSlash(segs[1..], acc + [s], allow, i);
      }
    }
  }

  lemma {:induction false} NormalizeFromSkipsEmpty(empties: seq<string>, rest: seq<string>, acc: seq<string>, allow: bool)
    requires forall i :: 0 <= i < |empties| ==> empties[i] == ""
    ensures NormalizeFrom(empties + rest, acc, allow) == NormalizeFrom(rest, acc, allow)
    decreases |empties|
  {
    if empties != [] {
      var all := empties + rest;
      assert all != [] && all[0] == "";
      assert all[1..] == empties[1..] + rest;
      assert NormalizeFrom(all, acc, allow) == NormalizeFrom(all[1..], acc, allow);
      NormalizeFromSkipsEmpty(empties[1..], rest, acc, allow);
    } else {
      assert empties + rest == rest;
    }
  }

  lemma {:induction false} NormalizeFromAppendEmpties(segs: seq<string>, empties: seq<string>, acc: seq<string>, allow: bool)
    requires forall i :: 0 <= i < |empties| ==> empties[i] == ""
    ensures NormalizeFrom(segs + empties, acc, allow) == NormalizeFrom(segs, acc, allow)
    decreases |segs|
  {
    if segs == [] {
      assert segs + empties == empties;
      NormalizeFromSkipsEmpty(empties, [], acc, allow);
      assert empties + [] == empties;
    } else {
      assert (segs + empties)[1..] == segs[1..] + empties;
      var s := segs[0];
      if s == "" || s == "." {
        NormalizeFromAppendEmpties(segs[1..], empties, acc, allow);
      } else if s == ".." {
        if acc != [] && acc[|acc| - 1] != ".." {
          NormalizeFromAppendEmpties(segs[1..], empties, acc[..|acc| - 1], allow);
        } else if allow {
          NormalizeFromAppendEmpties(segs[1..], empties, acc + [".."], allow);
        } else {
          NormalizeFromAppendEmpties(segs[1..], empties, acc, allow);
        }
      } else {
        NormalizeFromAppendEmpties(segs[1..], empties, acc + [s], allow);
      }
    }
  }

  lemma {:induction false} JoinWithEnds(segs: seq<string>, lead: bool, trail: bool)
    requires segs != []
    ensures Join((if lead then [""] else []) + segs + (if trail then [""] else []), "/")
         == (if lead then "/" else "") + Join(segs, "/") + (if trail then "/" else "")
  {
    var mid := (if lead then [""] else []) + segs;
    if lead {
      JoinAppend([""], segs, "/");
      assert Join([""], "/") == "";
      assert "" + "/" + Join(segs, "/") == "/" + Join(segs, "/");
    } else {
      assert [] + segs == segs;
    }
    assert Join(mid, "/") == (if lead then "/" else "") + Join(segs, "/");
    if trail {
      JoinSnoc(mid, "", "/");
    } else {
      assert mid + [] == mid;
    }
  }

  /** The segment loop over two lists is the loop over the second list
      started from what the first one left. */
  lemma {:induction false} NormalizeFromAppend(x: seq<string>, y: seq<string>, acc: seq<string>, allow: bool)
    ensures NormalizeFrom(x + y, acc, allow) == NormalizeFrom(y, NormalizeFrom(x, acc, allow), allow)
    decreases |x|
  {
    if x == [] {
      assert x + y == y;
    } else {
      assert (x + y)[0] == x[0] && (x + y)[1..] == x[1..] + y;
      var s := x[0];
      if s == "" || s == "." {
        NormalizeFromAppend(x[1..], y, acc, allow);
      } else if s == ".." {
        if acc != [] && acc[|acc| - 1] != ".." {
          NormalizeFromAppend(x[1..], y, acc[..|acc| - 1], allow);
        } else if allow {
          NormalizeFromAppend(x[1..], y, acc + [".."], allow);
        } else {
          NormalizeFromAppend(x[1..], y, acc, allow);
        }
      } else {
        NormalizeFromAppend(x[1..], y, acc + [s], allow);
      }
    }
  }

  lemma {:induction false} PlainIsClean(segs: seq<string>)
    requires forall i :: 0 <= i < |segs| ==> IsName(segs[i])
    ensures Clean(segs, true) && Clean(segs, false)
  {
  }

  /** Normalizing a relative path whose segments clean up to `out`. */
  lemma {:induction false} NormalizeRelative(segs: seq<string>, out: seq<string>)
    requires segs != [] && forall i :: 0 <= i < |segs| ==> segs[i] != "" && '/' !in segs[i]
    requires NormalizeFrom(segs, [], true) == out && out != []
    ensures Normalize(Join(segs, "/")) == Join(out, "/")
  {
    var p := Join(segs, "/");
    JoinedHasNoEmptyPart(segs);
    SplitJoin(segs, '/');
    assert p[0] != '/' && p[|p| - 1] != '/';
    assert NormalSegments(p) == out;
    NormalSegmentsShape(p);
    JoinedHasNoEmptyPart(out);
  }

  /** `path.posix.join` of two plain relative paths is their concatenation. */
  lemma {:induction false} PosixJoinPlain(a: seq<string>, b: seq<string>)
    requires PlainSegments(a) && PlainSegments(b)
    ensures PosixJoin(Join(a, "/"), Join(b, "/")) == Join(a + b, "/")
  {
    JoinedHasNoEmptyPart(a);
    JoinedHasNoEmptyPart(b);
    JoinAppend(a, b, "/");
    PlainIsClean(a + b);
    NormalizeFromOfClean(a + b, [], true);
    assert [] + (a + b) == a + b;
    NormalizeRelative(a + b, a + b);
  }

  /** ... and a leading `./` on the second one makes no difference. */
  lemma {:induction false} PosixJoinDotPlain(a: seq<string>, b: seq<string>)
    requires PlainSegments(a) && PlainSegments(b)
    ensures PosixJoin(Join(a, "/"), "./" + Join(b, "/")) == Join(a + b, "/")
  {
    JoinedHasNoEmptyPart(a);
    JoinedHasNoEmptyPart(b);
    var segs := a + ["."] + b;
    JoinAppend(a, ["."] + b, "/");
    JoinAppend(["."], b, "/");
    assert Join(["."], "/") == ".";
    assert a + (["."] + b) == segs;
    assert Join(a, "/") + "/" + ("./" + Join(b, "/")) == Join(segs, "/");
    PlainIsClean(a + b);
    NormalizeFromAppend(a, ["."] + b, [], true);
    NormalizeFromOfClean(a, [], true);
    assert [] + a == a;
    assert NormalizeFrom(["."] + b, a, true) == NormalizeFrom(b, a, true);
    NormalizeFromOfClean(b, a, true);
    forall i | 0 <= i < |segs| ensures segs[i] != "" && '/' !in segs[i] {
      if i > |a| {
        assert segs[i] == b[i - |a| - 1];
      }
    }
    NormalizeRelative(segs, a + b);
  }

  // ---------------------------------------------------------------------
  // path.relative
  // ---------------------------------------------------------------------

  function CommonPrefixLength(a: seq<string>, b: seq<string>): (n: nat)
    ensures n <= |a| && n <= |b| && a[..n] == b[..n]
    ensures n < |a| && n < |b| ==> a[n] != b[n]
  {
    if a == [] || b == [] || a[0] != b[0] then 0
    else
      var k := CommonPrefixLength(a[1..], b[1..]);
      assert a[..k + 1] == [a[0]] + a[1..][..k];
      assert b[..k + 1] == [b[0]] + b[1..][..k];
      k + 1
  }

  /** `path.relative(from, to)` for resolved directories: one `..` for every
      segment of `from` below the common ancestor, then the rest of `to`. */
  function Relative(from: AbsPath, to: AbsPath): string {
    var c := CommonPrefixLength(from.segments, to.segments);
    Join(seq(|from.segments| - c, _ => "..") + to.segments[c..], "/")
  }

  /** The relative path is empty exactly when the two directories coincide. */
  lemma {:induction false} RelativeEmptyIff(from: AbsPath, to: AbsPath)
    requires Resolved(from) && Resolved(to)
    ensures Relative(from, to) == "" <==> from == to
  {
    var c := CommonPrefixLength(from.segments, to.segments);
    var parts := seq(|from.segments| - c, _ => "..") + to.segments[c..];
    forall i | 0 <= i < |parts| ensures parts[i] != "" && '/' !in parts[i] {
      if i >= |from.segments| - c {
        assert parts[i] == to.segments[c + i - (|from.segments| - c)];
      }
    }
    JoinedHasNoEmptyPart(parts);
    if parts == [] {
      assert from.segments == from.segments[..c] == to.segments[..c] == to.segments;
    }
  }

  /** From an ancestor directory, the relative path is the descendant's remaining segments. */
  lemma {:induction false} RelativeFromAncestor(from: AbsPath, to: AbsPath)
    requires |from.segments| <= |to.segments| && to.segments[..|from.segments|] == from.segments
    ensures Relative(from, to) == Join(to.segments[|from.segments|..], "/")
  {
    var c := CommonPrefixLength(from.segments, to.segments);
    assert c == |from.segments|;
    assert seq(|from.segments| - c, _ => "..") == [];
    assert [] + to.segments[c..] == to.segments[c..];
  }

  // ---------------------------------------------------------------------
  // path.posix.dirname
  // ---------------------------------------------------------------------

  /** The scan of Node's `dirname`, from index `i` down to 1: trailing slashes
      are skipped, then the first slash that follows a non-slash ends the
      directory part (-1 when there is none). */
  function DirEnd(p: string, i: int, matchedSlash: bool): (r: int)
    requires i < |p|
    ensures r == -1 || 1 <= r <= i
    decreases i
  {
    if i < 1 then -1
    else if p[i] == '/' then (if !matchedSlash then i else DirEnd(p, i - 1, matchedSlash))
    else DirEnd(p, i - 1, false)
  }

  /** `path.posix.dirname`. */
  function Dirname(p: string): string {
    if p == "" then "."
    else
      var hasRoot := p[0] == '/';
      var end := DirEnd(p, |p| - 1, true);
      if end == -1 then (if hasRoot then "/" else ".")
      else if hasRoot && end == 1 then "//"
      else p[..end]
  }

  lemma {:induction false} DirEndNoSlash(p: string, i: int, m: bool)
    requires i < |p|
    requires forall j :: 1 <= j <= i ==> p[j] != '/'
    ensures DirEnd(p, i, m) == -1
    decreases i
  {
    if i >= 1 {
      DirEndNoSlash(p, i - 1, false);
    }
  }

  lemma {:induction false} DirEndFinds(p: string, i: int, m: bool, at: nat)
    requires 1 <= at < i < |p| && p[at] == '/'
    requires forall j :: at < j <= i ==> p[j] != '/'
    ensures DirEnd(p, i, m) == at
    decreases i
  {
    if i - 1 > at {
      DirEndFinds(p, i - 1, false, at);
    }
  }

  lemma {:induction false} JoinFirstChar(segs: seq<string>)
    requires segs != [] && segs[0] != ""
    ensures Join(segs, "/") != "" && Join(segs, "/")[0] == segs[0][0]
  {
  }

  /** The directory part of a plain relative path is its leading segments,
      or `.` for a single name. */
  lemma {:induction false} DirnameOfSegments(segs: seq<string>)
    requires PlainSegments(segs)
    ensures Dirname(Join(segs, "/")) == if |segs| == 1 then "." else Join(segs[..|segs| - 1], "/")
  {
    if |segs| == 1 {
      assert Join(segs, "/") == segs[0];
      DirnameOfName(segs[0]);
    } else {
      var init, last := segs[..|segs| - 1], segs[|segs| - 1];
      assert PlainSegments(init) by {
        forall i | 0 <= i < |init| ensures IsName(init[i]) {
          assert init[i] == segs[i];
        }
      }
      DirnameOfLongerSegments(init, last);
      InitLast(segs);
    }
  }

  lemma {:induction false} DirnameOfName(p: string)
    requires IsName(p)
    ensures Dirname(p) == "."
  {
    DirEndNoSlash(p, |p| - 1, true);
  }

  lemma {:induction false} DirnameOfLongerSegments(init: seq<string>, last: string)
    requires init != [] && PlainSegments(init) && IsName(last)
    ensures Dirname(Join(init + [last], "/")) == Join(init, "/")
  {
    JoinSnoc(init, last, "/");
    var q := Join(init, "/");
    var p := q + "/" + last;
    assert Join(init + [last], "/") == p;
    JoinedHasNoEmptyPart(init);
    JoinFirstChar(init);
    assert p[|q|] == '/';
    forall j | |q| < j <= |p| - 1 ensures p[j] != '/' {
      assert p[j] == last[j - |q| - 1];
    }
    DirEndFinds(p, |p| - 1, true, |q|);
    assert p[0] == q[0] && q[0] != '/';
    assert p[..|q|] == q;
  }
}
