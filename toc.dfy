/** Titles, anchors and the table of contents of a merged document
    (`packages/core/src/toc.ts`). */
module Toc {
  import opened Common

  /** One line of the table of contents. A missing `depth` is `None`; an
      absent `isDirectory` flag is `false`. */
  datatype TocEntry = TocEntry(title: string, anchor: string, sourceFile: string,
                               depth: Option<nat>, isDirectory: bool)

  /** `entry.depth ?? 0` */
  function Depth(e: TocEntry): nat {
    match e.depth
    case None => 0
    case Some(d) => d
  }

  // ---------------------------------------------------------------------
  // extractTitle: the regular expression /^#\s+(.+)$/m
  // ---------------------------------------------------------------------

  /** First position at or after `i` that is a line terminator (or the end). */
  function LineEnd(s: string, i: nat): (e: nat)
    requires i <= |s|
    ensures i <= e <= |s| && (e < |s| ==> IsLineTerminator(s[e]))
    ensures forall k :: i <= k < e ==> !IsLineTerminator(s[k])
    decreases |s| - i
  {
    if i == |s| || IsLineTerminator(s[i]) then i else LineEnd(s, i + 1)
  }

  /** First position at or after `i` that is not whitespace (or the end). */
  function SpaceRunEnd(s: string, i: nat): (e: nat)
    requires i <= |s|
    ensures i <= e <= |s| && (e < |s| ==> !IsSpace(s[e]))
    ensures forall k :: i <= k < e ==> IsSpace(s[k])
    decreases |s| - i
  {
    if i == |s| || !IsSpace(s[i]) then i else SpaceRunEnd(s, i + 1)
  }

  /** The last position in `[lo, hi)` holding a character other than a line terminator. */
  function LastNonTerminator(s: string, lo: nat, hi: nat): (r: Option<nat>)
    requires lo <= hi <= |s|
    ensures r.Some? ==> lo <= r.value < hi && !IsLineTerminator(s[r.value])
                        && forall k :: r.value < k < hi ==> IsLineTerminator(s[k])
    ensures r.None? ==> forall k :: lo <= k < hi ==> IsLineTerminator(s[k])
    decreases hi - lo
  {
    if lo == hi then None
    else if !IsLineTerminator(s[hi - 1]) then Some(hi - 1)
    else LastNonTerminator(s, lo, hi - 1)
  }

  /** `^` in multiline mode. */
  predicate LineStart(s: string, j: nat) {
    j < |s| && (j == 0 || IsLineTerminator(s[j - 1]))
  }

  /** The pattern `#\s+.` can match at `j` with the group `(.+)` starting at `m`:
      `#`, at least one whitespace character (newlines included), then a
      character `.` accepts. The group then runs greedily to the line end,
      where `$` holds. */
  predicate H1Candidate(s: string, j: nat, m: nat) {
    && j + 2 <= m < |s| && s[j] == '#'
    && (forall k :: j + 1 <= k < m ==> IsSpace(s[k]))
    && !IsLineTerminator(s[m])
  }

  /** Where the regular expression, tried at `j`, starts its group: the greedy
      `\s+` gives back as little as it must, so the group starts at the LAST
      possible position. */
  function CaptureStart(s: string, j: nat): (r: Option<nat>)
    requires j < |s|
    ensures r.Some? ==> H1Candidate(s, j, r.value)
    ensures r.Some? ==> forall m: nat :: H1Candidate(s, j, m) ==> m <= r.value
    ensures r.None? ==> forall m :: !H1Candidate(s, j, m)
  {
    if s[j] != '#' then None
    else
      var k := SpaceRunEnd(s, j + 1);
      if k == j + 1 then None
      else if k < |s| then
        Some(k)
      else
        LastNonTerminator(s, j + 2, k)
  }

  /** The captured group for a match at `j`. */
  function Capture(s: string, j: nat): (c: string)
    requires j < |s| && CaptureStart(s, j).Some?
    ensures c != [] && forall k :: 0 <= k < |c| ==> !IsLineTerminator(c[k])
  {
    var m := CaptureStart(s, j).value;
    s[m..LineEnd(s, m)]
  }

  /** The expression matches at `j`: a line starts there and the group can
      start after it. */
  predicate H1At(s: string, j: nat) {
    LineStart(s, j) && CaptureStart(s, j).Some?
  }

  /** The leftmost line start at or after `from` where the expression matches. */
  function FirstH1(s: string, from: nat): (r: Option<nat>)
    ensures r.Some? ==> from <= r.value && H1At(s, r.value)
    ensures r.Some? ==> forall j :: from <= j < r.value ==> !H1At(s, j)
    ensures r.None? ==> forall j :: from <= j ==> !H1At(s, j)
    decreases |s| - from
  {
    if from >= |s| then None
    else if H1At(s, from) then Some(from)
    else FirstH1(s, from + 1)
  }

  /** `relativePath.replace(/.*\//, "")`: in the first line that holds a `/`,
      everything up to and including its last `/` is removed. */
  function StripDir(s: string): (r: string)
    decreases |s|
  {
    var e := LineEnd(s, 0);
    match LastIndexOf(s[..e], '/')
    case Some(k) => s[k + 1..]
    case None => if e == |s| then s else s[..e + 1] + StripDir(s[e + 1..])
  }

  /** The last position of `c` in `s`, if any. */
  function LastIndexOf(s: string, c: char): (r: Option<nat>)
    ensures r.Some? ==> r.value < |s| && s[r.value] == c && c !in s[r.value + 1..]
    ensures r.None? <==> c !in s
  {
    if s == [] then None
    else if s[|s| - 1] == c then Some(|s| - 1)
    else
      assert s == s[..|s| - 1] + [s[|s| - 1]];
      LastIndexOf(s[..|s| - 1], c)
  }

  /** `.replace(/\.md$/i, "")`: a final `.md`, in any letter case, is dropped. */
  function StripExt(s: string): (r: string)
    ensures r == s || (|s| >= 3 && r == s[..|s| - 3] && Lower(s[|s| - 3..]) == ".md")
    ensures |s| >= 3 && Lower(s[|s| - 3..]) == ".md" ==> r == s[..|s| - 3]
  {
    if |s| >= 3 && s[|s| - 3] == '.' && ToLowerChar(s[|s| - 2]) == 'm' && ToLowerChar(s[|s| - 1]) == 'd'
    then
      assert Lower(s[|s| - 3..]) == [ToLowerChar(s[|s| - 3]), ToLowerChar(s[|s| - 2]), ToLowerChar(s[|s| - 1])];
      s[..|s| - 3]
    else
      assert |s| >= 3 ==> Lower(s[|s| - 3..])[0] == ToLowerChar(s[|s| - 3]);
      s
  }

  /** `.replace(/[-_]/g, " ")` */
  function DashesToSpaces(s: string): string {
    if s == [] then [] else [if s[0] == '-' || s[0] == '_' then ' ' else s[0]] + DashesToSpaces(s[1..])
  }

  lemma {:induction false} DashesToSpacesShape(s: string)
    ensures var r := DashesToSpaces(s);
      |r| == |s| && forall i :: 0 <= i < |s| ==> r[i] == (if s[i] == '-' || s[i] == '_' then ' ' else s[i])
  {
    if s != [] {
      DashesToSpacesShape(s[1..]);
    }
  }

  /** `\b\w` at position `i`: a word character not preceded by one. */
  predicate WordStart(s: string, i: nat)
    requires i < |s|
  {
    IsWordChar(s[i]) && (i == 0 || !IsWordChar(s[i - 1]))
  }

  /** `.replace(/\b\w/g, c => c.toUpperCase())`, scanning with a flag that says
      whether the previous character was a word character. */
  function CapitalizeFrom(s: string, afterWord: bool): string {
    if s == [] then []
    else
      [if IsWordChar(s[0]) && !afterWord then ToUpperChar(s[0]) else s[0]]
      + CapitalizeFrom(s[1..], IsWordChar(s[0]))
  }

  function Capitalize(s: string): string {
    CapitalizeFrom(s, false)
  }

  lemma {:induction false} CapitalizeFromShape(s: string, afterWord: bool)
    ensures var r := CapitalizeFrom(s, afterWord);
      && |r| == |s|
      && (forall i :: 0 <= i < |s| ==> IsWordChar(r[i]) == IsWordChar(s[i]))
      && (forall i :: 0 <= i < |s| ==> ToLowerChar(r[i]) == ToLowerChar(s[i]))
      && (forall i :: 1 <= i < |s| ==> (r[i] == s[i] || WordStart(s, i)))
      && (s != [] ==> (r[0] == s[0] || (IsWordChar(s[0]) && !afterWord)))
      && (forall i :: 1 <= i < |s| && WordStart(s, i) ==> !IsLowerLetter(r[i]))
      && (s != [] && IsWordChar(s[0]) && !afterWord ==> !IsLowerLetter(r[0]))
  {
    if s != [] {
      var r := CapitalizeFrom(s, afterWord);
      var rest := CapitalizeFrom(s[1..], IsWordChar(s[0]));
      CapitalizeFromShape(s[1..], IsWordChar(s[0]));
      assert forall i :: 1 <= i < |s| ==> r[i] == rest[i - 1] && s[i] == s[1..][i - 1];
      assert forall i :: 2 <= i < |s| ==> (WordStart(s, i) <==> WordStart(s[1..], i - 1));
    }
  }

  /** Capitalizing changes only the first character of each word, and that one
      only in letter case, to a character that is not a lower-case letter. */
  lemma {:induction false} CapitalizeShape(s: string)
    ensures var r := Capitalize(s);
      && |r| == |s|
      && (forall i :: 0 <= i < |s| ==> IsWordChar(r[i]) == IsWordChar(s[i]))
      && (forall i :: 0 <= i < |s| ==> ToLowerChar(r[i]) == ToLowerChar(s[i]))
      && (forall i :: 0 <= i < |s| ==> (r[i] == s[i] || WordStart(s, i)))
      && (forall i :: 0 <= i < |s| && WordStart(s, i) ==> !IsLowerLetter(r[i]))
  {
    CapitalizeFromShape(s, false);
  }

  /** The filename fallback: `-` and `_` become spaces, then every word gets
      a capital first letter. */
  function Humanize(s: string): string {
    Capitalize(DashesToSpaces(s))
  }

  /** No `-` or `_` survives, every word starts with a non-lowercase
      character, and apart from letter case each character is the original
      one, or a space where a `-` or `_` stood. */
  lemma {:induction false} HumanizeShape(s: string)
    ensures var r := Humanize(s);
      && |r| == |s|
      && (forall i :: 0 <= i < |r| ==> r[i] != '-' && r[i] != '_')
      && (forall i :: 0 <= i < |r| && WordStart(r, i) ==> !IsLowerLetter(r[i]))
      && (forall i :: 0 <= i < |s| && s[i] != '-' && s[i] != '_' ==> ToLowerChar(r[i]) == ToLowerChar(s[i]))
      && (forall i :: 0 <= i < |s| && (s[i] == '-' || s[i] == '_') ==> r[i] == ' ')
  {
    var d := DashesToSpaces(s);
    var r := Capitalize(d);
    DashesToSpacesShape(s);
    CapitalizeShape(d);
    forall i | 0 <= i < |r| ensures r[i] != '-' && r[i] != '_' {
      if r[i] != d[i] {
        assert WordStart(d, i);
        assert IsWordChar(r[i]);
      }
    }
    forall i | 0 <= i < |r| && WordStart(r, i) ensures WordStart(d, i) { }
  }

  /** Humanizing twice is humanizing once. */
  lemma {:induction false} HumanizeIdempotent(s: string)
    ensures Humanize(Humanize(s)) == Humanize(s)
  {
    var r := Humanize(s);
    HumanizeShape(s);
    DashesToSpacesWithout(r);
    CapitalizeCapitalized(r);
  }

  lemma {:induction false} DashesToSpacesWithout(s: string)
    requires forall i :: 0 <= i < |s| ==> s[i] != '-' && s[i] != '_'
    ensures DashesToSpaces(s) == s
  {
    DashesToSpacesShape(s);
  }

  lemma {:induction false} CapitalizeCapitalized(s: string)
    requires forall i :: 0 <= i < |s| && WordStart(s, i) ==> !IsLowerLetter(s[i])
    ensures Capitalize(s) == s
  {
    var c := Capitalize(s);
    CapitalizeShape(s);
    forall i | 0 <= i < |s| ensures c[i] == s[i] {
      if WordStart(s, i) {
        assert !IsLowerLetter(c[i]) && ToLowerChar(c[i]) == ToLowerChar(s[i]);
      }
    }
  }

  /** `extractTitle`: the trimmed group of the first H1 line, else the humanized
      file name without directory and `.md` extension. */
  function ExtractTitle(content: string, relativePath: string): string {
    match FirstH1(content, 0)
    case Some(j) => Trim(Capture(content, j))
    case None => FallbackTitle(relativePath)
  }

  /** The title made from a file's relative path when it has no H1. */
  function FallbackTitle(relativePath: string): string {
    Humanize(StripExt(StripDir(relativePath)))
  }

  /** A document that opens with `# title` takes its title from that line. */
  lemma {:induction false} ExtractTitleOfLeadingH1(title: string, rest: string, relativePath: string)
    requires title != [] && !IsSpace(title[0])
    requires forall k :: 0 <= k < |title| ==> !IsLineTerminator(title[k])
    requires rest == [] || IsLineTerminator(rest[0])
    ensures ExtractTitle("# " + title + rest, relativePath) == Trim(title)
  {
    var s := "# " + title + rest;
    assert s[0] == '#' && s[1] == ' ' && s[2] == title[0];
    assert SpaceRunEnd(s, 1) == 2 by {
      assert SpaceRunEnd(s, 2) == 2;
    }
    assert CaptureStart(s, 0) == Some(2);
    assert FirstH1(s, 0) == Some(0);
    assert LineEnd(s, 2) == 2 + |title| by {
      forall k | 2 <= k < 2 + |title| ensures !IsLineTerminator(s[k]) {
        assert s[k] == title[k - 2];
      }
      if 2 + |title| < |s| {
        assert s[2 + |title|] == rest[0];
      }
      LineEndIs(s, 2, 2 + |title|);
    }
    assert s[2..2 + |title|] == title;
  }

  lemma {:induction false} LineEndIs(s: string, i: nat, e: nat)
    requires i <= e <= |s|
    requires forall k :: i <= k < e ==> !IsLineTerminator(s[k])
    requires e == |s| || IsLineTerminator(s[e])
    ensures LineEnd(s, i) == e
  {
  }

  /** A line starting with `##` never yields the title. */
  lemma {:induction false} NoTitleFromSubheading(s: string, j: nat)
    requires j + 1 < |s| && s[j] == '#' && s[j + 1] == '#'
    ensures CaptureStart(s, j).None?
  {
  }

  /** Without a path separator or line break, `StripDir` is the identity, and
      otherwise it leaves the part after the last `/`. */
  lemma {:induction false} StripDirOneLine(s: string)
    requires forall k :: 0 <= k < |s| ==> !IsLineTerminator(s[k])
    ensures '/' !in StripDir(s)
    ensures '/' !in s ==> StripDir(s) == s
    ensures '/' in s ==> exists k :: 0 <= k < |s| && s[k] == '/' && StripDir(s) == s[k + 1..]
  {
    LineEndIs(s, 0, |s|);
    assert s[..|s|] == s;
  }

  /** The fallback titles of two file names used as examples for `extractTitle`. */
  lemma {:induction false} ExtractTitleFallbackExamples()
    ensures ExtractTitle("Some text without heading", "my-file.md") == "My File"
    ensures ExtractTitle("no heading", "materials/seq.md") == "Seq"
  {
    NoHashNoTitle("Some text without heading", 0);
    NoHashNoTitle("no heading", 0);
    FallbackDash();
    FallbackNested();
  }

  lemma {:induction false} FallbackDash()
    ensures FallbackTitle("my-file.md") == "My File"
  {
    StemOfDash();
    WordsOfDash();
  }

  lemma {:induction false} StemOfDash()
    ensures StripExt(StripDir("my-file.md")) == "my-file"
  {
    DashNameOnOneLine();
    StripDirNoSlash("my-file.md");
    StripExtOfDash();
  }

  lemma {:induction false} DashNameOnOneLine()
    ensures '\n' !in "my-file.md" && '\r' !in "my-file.md"
    ensures '\U{2028}' !in "my-file.md" && '\U{2029}' !in "my-file.md" && '/' !in "my-file.md"
  {
  }

  lemma {:induction false} StripExtOfDash()
    ensures StripExt("my-file.md") == "my-file"
  {
    assert "my-file.md"[..7] == "my-file";
  }

  lemma {:induction false} WordsOfDash()
    ensures Humanize("my-file") == "My File"
  {
    assert DashesToSpaces("my-file") == "my file";
    CapitalizeMyFile();
  }

  lemma {:induction false} CapitalizeMyFile()
    ensures Capitalize("my file") == "My File"
  {
    assert CapitalizeFrom("le", true) == "le";
    assert CapitalizeFrom("file", false) == "File";
    assert CapitalizeFrom(" file", true) == " File";
  }

  lemma {:induction false} FallbackNested()
    ensures FallbackTitle("materials/seq.md") == "Seq"
  {
    StemOfNested();
    WordsOfNested();
  }

  lemma {:induction false} StemOfNested()
    ensures StripExt(StripDir("materials/seq.md")) == "seq"
  {
    DirOfNested();
    assert StripExt("seq.md") == "seq";
  }

  lemma {:induction false} DirOfNested()
    ensures StripDir("materials/seq.md") == "seq.md"
  {
    NestedNameOnOneLine();
    LastSlashOfNested();
    StripDirOfLine("materials/seq.md");
    assert "materials/seq.md"[10..] == "seq.md";
  }

  lemma {:induction false} NestedNameOnOneLine()
    ensures '\n' !in "materials/seq.md" && '\r' !in "materials/seq.md"
    ensures '\U{2028}' !in "materials/seq.md" && '\U{2029}' !in "materials/seq.md"
  {
  }

  lemma {:induction false} LastSlashOfNested()
    ensures LastIndexOf("materials/seq.md", '/') == Some(9)
  {
    assert "materials/seq.md"[9] == '/';
    assert '/' !in "materials/seq.md"[10..];
  }

  /** Without a `#` there is no H1, so the file name gives the title. */
  lemma {:induction false} NoHashNoTitle(s: string, from: nat)
    requires '#' !in s
    ensures FirstH1(s, from) == None
  {
  }

  lemma {:induction false} WordsOfNested()
    ensures Humanize("seq") == "Seq"
  {
    assert DashesToSpaces("seq") == "seq";
    assert CapitalizeFrom("eq", true) == "eq";
  }

  lemma {:induction false} StripDirNoSlash(p: string)
    requires '\n' !in p && '\r' !in p && '\U{2028}' !in p && '\U{2029}' !in p && '/' !in p
    ensures StripDir(p) == p
  {
    StripDirOfLine(p);
  }

  lemma {:induction false} StripDirOfLine(p: string)
    requires '\n' !in p && '\r' !in p && '\U{2028}' !in p && '\U{2029}' !in p
    ensures StripDir(p) == match LastIndexOf(p, '/') case Some(k) => p[k + 1..] case None => p
  {
    LineEndIs(p, 0, |p|);
    assert p[..|p|] == p;
  }

  // ---------------------------------------------------------------------
  // slugify
  // ---------------------------------------------------------------------

  predicate IsSlugChar(c: char) {
    IsLowerLetter(c) || IsDigit(c) || c == '_' || c == '-'
  }

  /** No two `-` side by side. */
  predicate NoDoubleDash(s: string) {
    forall i :: 0 <= i < |s| - 1 ==> !(s[i] == '-' && s[i + 1] == '-')
  }

  /** What an anchor slug looks like: lower-case letters, digits, `_` and
      single `-` separators, with no `-` at either end. */
  predicate IsSlug(s: string) {
    && (forall i :: 0 <= i < |s| ==> IsSlugChar(s[i]))
    && NoDoubleDash(s)
    && (s != [] ==> s[0] != '-' && s[|s| - 1] != '-')
  }

  /** The class `[\w\s-]`. */
  predicate SlugKeeps(c: char) {
    IsWordChar(c) || IsSpace(c) || c == '-'
  }

  predicate IsDash(c: char) {
    c == '-'
  }

  /** `.replace(/[^\w\s-]/g, "")` */
  function KeepSlugChars(s: string): string {
    if s == [] then []
    else (if SlugKeeps(s[0]) then [s[0]] else []) + KeepSlugChars(s[1..])
  }

  /** The length of the leading run of characters satisfying `inRun`. */
  function RunLength(s: string, inRun: char -> bool): (n: nat)
    ensures n <= |s|
    ensures n < |s| ==> !inRun(s[n])
    ensures forall i :: 0 <= i < n ==> inRun(s[i])
  {
    if s != [] && inRun(s[0]) then 1 + RunLength(s[1..], inRun) else 0
  }

  /** `s` without its leading run of characters satisfying `inRun`. */
  function SkipRun(s: string, inRun: char -> bool): (r: string)
    ensures |r| <= |s| && r == s[|s| - |r|..]
    ensures r != [] ==> !inRun(r[0])
    ensures forall i :: 0 <= i < |s| - |r| ==> inRun(s[i])
  {
    s[RunLength(s, inRun)..]
  }

  /** `.replace(/X+/g, "-")` for the character class `inRun`: every maximal
      run of such characters becomes a single `-`. */
  function CollapseRuns(s: string, inRun: char -> bool): string
    decreases |s|
  {
    if s == [] then []
    else if inRun(s[0]) then "-" + CollapseRuns(SkipRun(s, inRun), inRun)
    else [s[0]] + CollapseRuns(s[1..], inRun)
  }

  /** `.replace(/^-|-$/g, "")`: one `-` at the start and one at the end go. */
  function TrimDash(s: string): string {
    var a := if s != [] && s[0] == '-' then s[1..] else s;
    if a != [] && a[|a| - 1] == '-' then a[..|a| - 1] else a
  }

  /** `slugify` */
  function Slugify(title: string): string {
    TrimDash(CollapseRuns(CollapseRuns(KeepSlugChars(Lower(title)), IsSpace), IsDash))
  }

  lemma {:induction false} KeepSlugCharsShape(s: string)
    ensures forall c :: c in KeepSlugChars(s) ==> c in s && SlugKeeps(c)
    ensures (forall i :: 0 <= i < |s| ==> SlugKeeps(s[i])) ==> KeepSlugChars(s) == s
  {
    if s != [] {
      KeepSlugCharsShape(s[1..]);
      assert s == [s[0]] + s[1..];
    }
  }

  lemma {:induction false} CollapseRunsShape(s: string, inRun: char -> bool)
    ensures forall c :: c in CollapseRuns(s, inRun) ==> c == '-' || (c in s && !inRun(c))
    ensures s != [] && !inRun(s[0]) ==> CollapseRuns(s, inRun) != [] && CollapseRuns(s, inRun)[0] == s[0]
    decreases |s|
  {
    if s != [] {
      if inRun(s[0]) {
        var t := SkipRun(s, inRun);
        CollapseRunsShape(t, inRun);
        forall c | c in t ensures c in s {
          var k :| 0 <= k < |t| && t[k] == c;
          assert s[|s| - |t| + k] == c;
        }
      } else {
        CollapseRunsShape(s[1..], inRun);
      }
    }
  }

  /** Collapsing `-` runs leaves no two `-` side by side. */
  lemma {:induction false} CollapseRunsNoDoubleDash(s: string)
    ensures NoDoubleDash(CollapseRuns(s, IsDash))
    decreases |s|
  {
    if s != [] {
      var r := CollapseRuns(s, IsDash);
      if IsDash(s[0]) {
        var t := SkipRun(s, IsDash);
        CollapseRunsNoDoubleDash(t);
        CollapseRunsShape(t, IsDash);
        assert r == "-" + CollapseRuns(t, IsDash);
      } else {
        CollapseRunsNoDoubleDash(s[1..]);
        assert r == [s[0]] + CollapseRuns(s[1..], IsDash);
      }
    }
  }

  /** A string whose `inRun` characters are all single `-` is left alone. */
  lemma {:induction false} CollapseRunsOfSingles(s: string, inRun: char -> bool)
    requires forall i :: 0 <= i < |s| && inRun(s[i]) ==> s[i] == '-'
    requires forall i :: 0 <= i < |s| - 1 ==> !(inRun(s[i]) && inRun(s[i + 1]))
    ensures CollapseRuns(s, inRun) == s
    decreases |s|
  {
    if s != [] {
      CollapseRunsOfSingles(s[1..], inRun);
      if inRun(s[0]) {
        assert SkipRun(s, inRun) == s[1..] by {
          if |s| > 1 {
            assert !inRun(s[1]);
          }
        }
      }
      assert s == [s[0]] + s[1..];
    }
  }

  lemma {:induction false} TrimDashShape(s: string)
    requires NoDoubleDash(s)
    ensures var r := TrimDash(s);
      && (forall c :: c in r ==> c in s)
      && NoDoubleDash(r)
      && (r != [] ==> r[0] != '-' && r[|r| - 1] != '-')
  {
    var a := if s != [] && s[0] == '-' then s[1..] else s;
    assert NoDoubleDash(a);
    assert a != [] ==> a[0] != '-' by {
      if a != [] && s != [] && s[0] == '-' {
        assert a[0] == s[1];
      }
    }
  }

  /** The characters of a slug before its ends are trimmed: `-`, or a kept
      character that is neither whitespace nor an upper-case letter. */
  lemma {:induction false} CollapsedChars(title: string)
    ensures forall c :: c in CollapseRuns(CollapseRuns(KeepSlugChars(Lower(title)), IsSpace), IsDash) ==>
      c == '-' || (SlugKeeps(c) && !IsSpace(c) && !IsUpperLetter(c))
  {
    var l := Lower(title);
    var k := KeepSlugChars(l);
    var a := CollapseRuns(k, IsSpace);
    KeepSlugCharsShape(l);
    CollapseRunsShape(k, IsSpace);
    CollapseRunsShape(a, IsDash);
    assert forall c :: c in l ==> !IsUpperLetter(c);
  }

  /** Every slug `slugify` produces has the slug shape. */
  lemma {:induction false} SlugifyIsSlug(title: string)
    ensures IsSlug(Slugify(title))
  {
    var a := CollapseRuns(KeepSlugChars(Lower(title)), IsSpace);
    var b := CollapseRuns(a, IsDash);
    var r := TrimDash(b);
    CollapsedChars(title);
    CollapseRunsNoDoubleDash(a);
    TrimDashShape(b);
    forall i | 0 <= i < |r| ensures IsSlugChar(r[i]) {
      assert r[i] in b;
    }
  }

  /** `slugify` leaves a slug unchanged. */
  lemma {:induction false} SlugifyOfSlug(s: string)
    requires IsSlug(s)
    ensures Slugify(s) == s
  {
    SlugStepsFixed(s);
    assert CollapseRuns(s, IsDash) == s by {
      CollapseRunsOfSingles(s, IsDash);
    }
    assert TrimDash(s) == s;
  }

  lemma {:induction false} SlugStepsFixed(s: string)
    requires IsSlug(s)
    ensures CollapseRuns(KeepSlugChars(Lower(s)), IsSpace) == s
  {
    assert Lower(s) == s by {
      forall i | 0 <= i < |s| ensures !IsUpperLetter(s[i]) {
        assert IsSlugChar(s[i]);
      }
      LowerWithoutUpper(s);
    }
    assert KeepSlugChars(s) == s by {
      forall i | 0 <= i < |s| ensures SlugKeeps(s[i]) {
        assert IsSlugChar(s[i]);
      }
      KeepSlugCharsShape(s);
    }
    forall i | 0 <= i < |s| ensures !IsSpace(s[i]) {
      assert IsSlugChar(s[i]);
    }
    CollapseRunsOfSingles(s, IsSpace);
  }

  /** `slugify` is idempotent. */
  lemma {:induction false} SlugifyIdempotent(title: string)
    ensures Slugify(Slugify(title)) == Slugify(title)
  {
    SlugifyIsSlug(title);
    SlugifyOfSlug(Slugify(title));
  }

  // ---------------------------------------------------------------------
  // What `slugify` keeps
  // ---------------------------------------------------------------------

  /** A non-empty run of `\w` characters. */
  predicate IsWord(s: string) {
    s != [] && forall i :: 0 <= i < |s| ==> IsWordChar(s[i])
  }

  /** Characters that `slugify` drops or treats as whitespace; no `-`. */
  predicate IsGap(s: string) {
    forall i :: 0 <= i < |s| ==> IsSpace(s[i]) || !SlugKeeps(s[i])
  }

  /** Every character satisfies `inRun`. */
  predicate AllIn(s: string, inRun: char -> bool) {
    forall i :: 0 <= i < |s| ==> inRun(s[i])
  }

  /** No character satisfies `inRun`. */
  predicate NoneIn(s: string, inRun: char -> bool) {
    forall i :: 0 <= i < |s| ==> !inRun(s[i])
  }

  /** The `-` a non-empty run collapses to. */
  function DashOf(s: string): string {
    if s == [] then "" else "-"
  }

  lemma {:induction false} LowerAppend(x: string, y: string)
    ensures Lower(x + y) == Lower(x) + Lower(y)
  {
    var l, lx, ly := Lower(x + y), Lower(x), Lower(y);
    var r := lx + ly;
    assert |l| == |r|;
    forall i | 0 <= i < |l| ensures l[i] == r[i] {
      assert l[i] == ToLowerChar((x + y)[i]);
      if i < |x| {
        assert (x + y)[i] == x[i] && r[i] == lx[i];
      } else {
        assert (x + y)[i] == y[i - |x|] && r[i] == ly[i - |x|];
      }
    }
  }

  /** A lower-cased word is a word with no upper-case letter; whitespace and
      dropped characters stay what they are. */
  lemma {:induction false} LowerClasses(a: string, g: string)
    requires IsWord(a) && IsGap(g)
    ensures IsWord(Lower(a)) && NoneIn(Lower(a), IsSpace) && NoneIn(Lower(a), IsDash)
    ensures forall i :: 0 <= i < |Lower(a)| ==> SlugKeeps(Lower(a)[i])
    ensures IsGap(Lower(g))
    ensures forall i :: 0 <= i < |g| ==> IsSpace(Lower(g)[i]) == IsSpace(g[i])
  {
    var lg := Lower(g);
    forall i | 0 <= i < |g| ensures IsSpace(lg[i]) || !SlugKeeps(lg[i]) {
      assert IsSpace(g[i]) || !SlugKeeps(g[i]);
    }
  }

  lemma {:induction false} KeepAppend(x: string, y: string)
    ensures KeepSlugChars(x + y) == KeepSlugChars(x) + KeepSlugChars(y)
    decreases |x|
  {
    if x == [] {
      assert x + y == y;
    } else {
      var h := if SlugKeeps(x[0]) then [x[0]] else [];
      assert (x + y)[0] == x[0];
      assert (x + y)[1..] == x[1..] + y;
      assert KeepSlugChars(x + y) == h + KeepSlugChars(x[1..] + y);
      assert KeepSlugChars(x) == h + KeepSlugChars(x[1..]);
      KeepAppend(x[1..], y);
    }
  }

  /** What a gap keeps is whitespace only. */
  lemma {:induction false} KeepGap(g: string)
    requires IsGap(g)
    ensures AllIn(KeepSlugChars(g), IsSpace)
  {
    var k := KeepSlugChars(g);
    KeepSlugCharsShape(g);
    forall i | 0 <= i < |k| ensures IsSpace(k[i]) {
      var c := k[i];
      assert c in k;
      var j :| 0 <= j < |g| && g[j] == c;
    }
  }

  /** A whitespace character of `g` survives. */
  lemma {:induction false} KeepSpace(g: string, k: nat)
    requires k < |g| && IsSpace(g[k])
    ensures KeepSlugChars(g) != []
    decreases k
  {
    if k > 0 {
      assert g[1..][k - 1] == g[k];
      KeepSpace(g[1..], k - 1);
    }
  }

  /** The leading run of `r + b` is `r` when `b` does not continue it. */
  lemma {:induction false} RunLengthAppend(r: string, b: string, inRun: char -> bool)
    requires AllIn(r, inRun) && (b == [] || !inRun(b[0]))
    ensures RunLength(r + b, inRun) == |r|
    decreases |r|
  {
    if r == [] {
      assert r + b == b;
    } else {
      assert (r + b)[1..] == r[1..] + b;
      RunLengthAppend(r[1..], b, inRun);
    }
  }

  /** A run, possibly empty, becomes at most one `-`. */
  lemma {:induction false} CollapseRun(r: string, b: string, inRun: char -> bool)
    requires AllIn(r, inRun) && (b == [] || !inRun(b[0]))
    ensures CollapseRuns(r + b, inRun) == DashOf(r) + CollapseRuns(b, inRun)
  {
    if r == [] {
      assert r + b == b;
    } else {
      RunLengthAppend(r, b, inRun);
      assert (r + b)[|r|..] == b;
    }
  }

  /** Five strings concatenated from the left are the same as from the right. */
  lemma {:induction false} Regroup(a: string, b: string, c: string, d: string, e: string)
    ensures a + b + c + d + e == a + (b + (c + (d + e)))
  {
    assert a + b + c == a + (b + c);
    assert a + b + c + d == a + (b + (c + d));
  }

  /** A string that is one run, possibly empty, becomes at most one `-`. */
  lemma {:induction false} CollapseWholeRun(r: string, inRun: char -> bool)
    requires AllIn(r, inRun)
    ensures CollapseRuns(r, inRun) == DashOf(r)
  {
    if r != [] {
      assert r + [] == r;
      RunLengthAppend(r, [], inRun);
      assert SkipRun(r, inRun) == [];
    }
  }

  /** Characters outside the class are copied. */
  lemma {:induction false} CollapsePlain(a: string, t: string, inRun: char -> bool)
    requires NoneIn(a, inRun)
    ensures CollapseRuns(a + t, inRun) == a + CollapseRuns(t, inRun)
    decreases |a|
  {
    if a == [] {
      assert a + t == t;
    } else {
      assert (a + t)[0] == a[0];
      assert (a + t)[1..] == a[1..] + t;
      CollapsePlain(a[1..], t, inRun);
      assert a == [a[0]] + a[1..];
    }
  }

  /** Two words between runs: each run becomes one `-`, the words are kept. */
  lemma {:induction false} CollapseAround(p: string, x: string, m: string, y: string, q: string, inRun: char -> bool)
    requires AllIn(p, inRun) && AllIn(m, inRun) && m != [] && AllIn(q, inRun)
    requires x != [] && y != [] && NoneIn(x, inRun) && NoneIn(y, inRun)
    ensures CollapseRuns(p + x + m + y + q, inRun) == DashOf(p) + x + "-" + y + DashOf(q)
  {
    var yq, myq := y + q, m + (y + q);
    assert CollapseRuns(q, inRun) == DashOf(q) by {
      CollapseWholeRun(q, inRun);
    }
    assert CollapseRuns(yq, inRun) == y + DashOf(q) by {
      CollapsePlain(y, q, inRun);
    }
    assert CollapseRuns(myq, inRun) == "-" + (y + DashOf(q)) by {
      assert yq[0] == y[0];
      CollapseRun(m, yq, inRun);
    }
    assert CollapseRuns(x + myq, inRun) == x + ("-" + (y + DashOf(q))) by {
      CollapsePlain(x, myq, inRun);
    }
    assert CollapseRuns(p + (x + myq), inRun) == DashOf(p) + (x + ("-" + (y + DashOf(q)))) by {
      assert (x + myq)[0] == x[0];
      CollapseRun(p, x + myq, inRun);
    }
    Regroup(p, x, m, y, q);
    Regroup(DashOf(p), x, "-", y, DashOf(q));
  }

  /** The outer `-` go, the words and their separator stay. */
  lemma {:induction false} TrimAround(p: string, x: string, y: string, q: string)
    requires p == DashOf(p) && q == DashOf(q)
    requires x != [] && y != [] && NoneIn(x, IsDash) && NoneIn(y, IsDash)
    ensures TrimDash(p + x + "-" + y + q) == x + "-" + y
  {
    var s := p + x + "-" + y + q;
    var a := if s != [] && s[0] == '-' then s[1..] else s;
    assert a == x + "-" + y + q by {
      if p == [] {
        assert s == x + "-" + y + q;
        assert s[0] == x[0];
      } else {
        assert s == "-" + (x + "-" + y + q);
      }
    }
    assert a[|a| - 1] == '-' <==> q != [] by {
      if q == [] {
        assert a == x + "-" + y;
        assert a[|a| - 1] == y[|y| - 1];
      }
    }
    assert q != [] ==> a[..|a| - 1] == x + "-" + y;
  }

  /** `slugify` of two words separated by a gap that holds some whitespace,
      with gaps around them: the words lower-cased and joined by one `-`.
      Punctuation is dropped, runs of whitespace and `-` collapse, and the
      outer `-` are trimmed. */
  lemma {:induction false} SlugifyTwoWords(h: string, a: string, g: string, b: string, t: string, k: nat)
    requires IsGap(h) && IsWord(a) && IsGap(g) && IsWord(b) && IsGap(t)
    requires k < |g| && IsSpace(g[k])
    ensures Slugify(h + a + g + b + t) == Lower(a) + "-" + Lower(b)
  {
    var la, lb := Lower(a), Lower(b);
    LowerClasses(a, h);
    LowerClasses(b, g);
    LowerClasses(a, t);
    assert Lower(h + a + g + b + t) == Lower(h) + la + Lower(g) + lb + Lower(t) by {
      LowerAppend(h + a + g + b, t);
      LowerAppend(h + a + g, b);
      LowerAppend(h + a, g);
      LowerAppend(h, a);
    }
    var sh, sg, st := KeepSlugChars(Lower(h)), KeepSlugChars(Lower(g)), KeepSlugChars(Lower(t));
    assert KeepSlugChars(Lower(h) + la + Lower(g) + lb + Lower(t)) == sh + la + sg + lb + st by {
      KeepAppend(Lower(h) + la + Lower(g) + lb, Lower(t));
      KeepAppend(Lower(h) + la + Lower(g), lb);
      KeepAppend(Lower(h) + la, Lower(g));
      KeepAppend(Lower(h), la);
      KeepSlugCharsShape(la);
      KeepSlugCharsShape(lb);
    }
    KeepGap(Lower(h));
    KeepGap(Lower(g));
    KeepGap(Lower(t));
    KeepSpace(Lower(g), k);
    var c1 := DashOf(sh) + la + "-" + lb + DashOf(st);
    CollapseAround(sh, la, sg, lb, st, IsSpace);
    assert CollapseRuns(c1, IsDash) == c1 by {
      CollapseAround(DashOf(sh), la, "-", lb, DashOf(st), IsDash);
    }
    TrimAround(DashOf(sh), la, lb, DashOf(st));
  }

  lemma {:induction false} SlugTestWords()
    ensures IsWord("Hardware") && IsWord("Requirements") && IsWord("Hello") && IsWord("World")
    ensures IsWord("foo") && IsWord("bar")
  {
  }

  lemma {:induction false} SlugTestGaps()
    ensures IsGap("") && IsGap(" ") && IsGap(", ") && IsGap("!") && IsGap("   ")
    ensures IsSpace(" "[0]) && IsSpace(", "[1]) && IsSpace("   "[0])
  {
  }

  /** A capitalised word is lower-cased at its first letter only. */
  lemma {:induction false} LowerCapitalized(c: char, w: string)
    requires IsUpperLetter(c) && forall i :: 0 <= i < |w| ==> IsLowerLetter(w[i])
    ensures Lower([c] + w) == [ToLowerChar(c)] + w
  {
    assert ([c] + w)[1..] == w;
    LowerWithoutUpper(w);
  }

  lemma {:induction false} SlugTestLetters()
    ensures forall i :: 0 <= i < |"ardware"| ==> IsLowerLetter("ardware"[i])
    ensures forall i :: 0 <= i < |"ello"| ==> IsLowerLetter("ello"[i])
    ensures forall i :: 0 <= i < |"orld"| ==> IsLowerLetter("orld"[i])
  {
  }

  lemma {:induction false} SlugTestLetters2()
    ensures forall i :: 0 <= i < |"equirements"| ==> IsLowerLetter("equirements"[i])
  {
  }

  /** Lower-casing a capitalised word, with the word given by its parts. */
  lemma {:induction false} LowerOfParts(c: char, w: string, word: string, lower: string)
    requires IsUpperLetter(c) && forall i :: 0 <= i < |w| ==> IsLowerLetter(w[i])
    requires word == [c] + w && lower == [ToLowerChar(c)] + w
    ensures Lower(word) == lower
  {
    LowerCapitalized(c, w);
  }

  lemma {:induction false} SlugTestLower1()
    ensures Lower("Hardware") == "hardware"
  {
    SlugTestLetters();
    LowerOfParts('H', "ardware", "Hardware", "hardware");
  }

  lemma {:induction false} SlugTestLower4()
    ensures Lower("Requirements") == "requirements"
  {
    SlugTestLetters2();
    LowerOfParts('R', "equirements", "Requirements", "requirements");
  }

  lemma {:induction false} SlugTestLower2()
    ensures Lower("Hello") == "hello" && Lower("World") == "world"
  {
    SlugTestLetters();
    LowerOfParts('H', "ello", "Hello", "hello");
    LowerOfParts('W', "orld", "World", "world");
  }

  lemma {:induction false} SlugTestLower3()
    ensures Lower("foo") == "foo" && Lower("bar") == "bar"
  {
    LowerWithoutUpper("foo");
    LowerWithoutUpper("bar");
  }

  lemma {:induction false} SlugTestSplits()
    ensures "Hardware Requirements" == "" + "Hardware" + " " + "Requirements" + ""
    ensures "Hello, World!" == "" + "Hello" + ", " + "World" + "!"
    ensures "foo   bar" == "" + "foo" + "   " + "bar" + ""
  {
  }

  lemma {:induction false} SlugTestJoins()
    ensures "hardware" + "-" + "requirements" == "hardware-requirements"
    ensures "hello" + "-" + "world" == "hello-world"
    ensures "foo" + "-" + "bar" == "foo-bar"
  {
  }

  /** The first example of the source's tests: `Hardware Requirements`
      becomes `hardware-requirements`. */
  lemma {:induction false} SlugifyExampleWords()
    ensures Slugify("Hardware Requirements") == "hardware-requirements"
  {
    SlugTestWords();
    SlugTestGaps();
    SlugTestSplits();
    SlugTestJoins();
    SlugTestLower1();
    SlugTestLower4();
    SlugifyTwoWords("", "Hardware", " ", "Requirements", "", 0);
  }

  /** The punctuation of `Hello, World!` is dropped. */
  lemma {:induction false} SlugifyExamplePunctuation()
    ensures Slugify("Hello, World!") == "hello-world"
  {
    SlugTestWords();
    SlugTestGaps();
    SlugTestSplits();
    SlugTestJoins();
    SlugTestLower2();
    SlugifyTwoWords("", "Hello", ", ", "World", "!", 1);
  }

  /** The spaces of `foo   bar` collapse to one `-`. */
  lemma {:induction false} SlugifyExampleSpaces()
    ensures Slugify("foo   bar") == "foo-bar"
  {
    SlugTestWords();
    SlugTestGaps();
    SlugTestSplits();
    SlugTestJoins();
    SlugTestLower3();
    SlugifyTwoWords("", "foo", "   ", "bar", "", 0);
  }

  // ---------------------------------------------------------------------
  // uniqueAnchors
  // ---------------------------------------------------------------------

  /** How many entries of `es` carry the anchor `a`. */
  function CountAnchor(es: seq<TocEntry>, a: string): nat {
    if es == [] then 0
    else CountAnchor(es[..|es| - 1], a) + (if es[|es| - 1].anchor == a then 1 else 0)
  }

  /** The entry with `-k` appended to its anchor, or unchanged when `k` is 0. */
  function Suffixed(e: TocEntry, k: nat): TocEntry {
    if k == 0 then e else e.(anchor := e.anchor + "-" + NatToString(k))
  }

  /** What `uniqueAnchors` returns: entry `i` is suffixed with the number of
      earlier entries that had the same anchor on input. */
  function UniqueAnchorsSpec(es: seq<TocEntry>): (r: seq<TocEntry>)
    ensures |r| == |es|
  {
    seq(|es|, i requires 0 <= i < |es| => Suffixed(es[i], CountAnchor(es[..i], es[i].anchor)))
  }

  /** `seen` maps every anchor of `es` to the number of entries that have it. */
  ghost predicate SeenCounts(seen: map<string, nat>, es: seq<TocEntry>) {
    && (forall a :: a in seen ==> seen[a] == CountAnchor(es, a))
    && (forall a :: a !in seen ==> CountAnchor(es, a) == 0)
  }

  /** Looking an anchor up in the map gives its count so far, and bumping
      that count accounts for one more entry. */
  lemma {:induction false} SeenStep(seen: map<string, nat>, es: seq<TocEntry>, i: nat)
    requires i < |es| && SeenCounts(seen, es[..i])
    ensures var a := es[i].anchor;
      var count := if a in seen then seen[a] else 0;
      && count == CountAnchor(es[..i], a)
      && SeenCounts(seen[a := count + 1], es[..i + 1])
  {
    assert es[..i + 1][..i] == es[..i];
  }

  /** `uniqueAnchors`: one pass with a map from anchor to the number of times
      it has been seen. */
  method UniqueAnchors(entries: seq<TocEntry>) returns (result: seq<TocEntry>)
    ensures result == UniqueAnchorsSpec(entries)
  {
    ghost var spec := UniqueAnchorsSpec(entries);
    var seen: map<string, nat> := map[];
    result := [];
    for i := 0 to |entries|
      invariant result == spec[..i]
      invariant SeenCounts(seen, entries[..i])
    {
      var entry := entries[i];
      var count := if entry.anchor in seen then seen[entry.anchor] else 0;
      SeenStep(seen, entries, i);
      assert spec[i] == Suffixed(entry, count);
      seen := seen[entry.anchor := count + 1];
      if count > 0 {
        result := result + [entry.(anchor := entry.anchor + "-" + NatToString(count))];
      } else {
        result := result + [entry];
      }
      PrefixSnoc(spec, i);
    }
    PrefixSnoc(spec, |entries|);
  }

  /** A prefix one longer is the prefix followed by the next element; the
      prefix of full length is the whole sequence. */
  lemma {:induction false} PrefixSnoc<T>(s: seq<T>, i: nat)
    requires i <= |s|
    ensures i < |s| ==> s[..i + 1] == s[..i] + [s[i]]
    ensures i == |s| ==> s[..i] == s
  {
  }

  /** Only anchors change; titles, files, depths and directory flags stay. */
  lemma {:induction false} UniqueAnchorsKeepsFields(es: seq<TocEntry>, i: nat)
    requires i < |es|
    ensures var r := UniqueAnchorsSpec(es)[i];
      r.title == es[i].title && r.sourceFile == es[i].sourceFile
      && r.depth == es[i].depth && r.isDirectory == es[i].isDirectory
  {
  }

  /** An entry keeps its anchor exactly when no earlier entry had it, and
      otherwise gets `-k` for the `k` earlier entries that had it. */
  lemma {:induction false} UniqueAnchorRule(es: seq<TocEntry>, i: nat)
    requires i < |es|
    ensures var k := CountAnchor(es[..i], es[i].anchor);
      && (k == 0 ==> UniqueAnchorsSpec(es)[i].anchor == es[i].anchor)
      && (k > 0 ==> UniqueAnchorsSpec(es)[i].anchor == es[i].anchor + "-" + NatToString(k))
      && (k == 0 <==> forall j :: 0 <= j < i ==> es[j].anchor != es[i].anchor)
  {
    CountAnchorZero(es[..i], es[i].anchor);
  }

  lemma {:induction false} CountAnchorZero(es: seq<TocEntry>, a: string)
    ensures CountAnchor(es, a) == 0 <==> forall j :: 0 <= j < |es| ==> es[j].anchor != a
  {
    if es != [] {
      CountAnchorZero(es[..|es| - 1], a);
    }
  }

  lemma {:induction false} CountAnchorGrows(es: seq<TocEntry>, i: nat, j: nat)
    requires i < j <= |es|
    ensures CountAnchor(es[..i], es[i].anchor) < CountAnchor(es[..j], es[i].anchor)
  {
    assert es[..i + 1][..i] == es[..i];
    CountAnchorMonotone(es, i + 1, j, es[i].anchor);
  }

  lemma {:induction false} CountAnchorMonotone(es: seq<TocEntry>, i: nat, j: nat, a: string)
    requires i <= j <= |es|
    ensures CountAnchor(es[..i], a) <= CountAnchor(es[..j], a)
    decreases j
  {
    if i < j {
      assert es[..j][..j - 1] == es[..j - 1];
      CountAnchorMonotone(es, i, j - 1, a);
    }
  }

  /** Entries that share an anchor on input get pairwise different anchors. */
  lemma {:induction false} UniqueAnchorsSeparatesEqual(es: seq<TocEntry>, i: nat, j: nat)
    requires i < j < |es| && es[i].anchor == es[j].anchor
    ensures UniqueAnchorsSpec(es)[i].anchor != UniqueAnchorsSpec(es)[j].anchor
  {
    var a := es[i].anchor;
    var ki := CountAnchor(es[..i], a);
    var kj := CountAnchor(es[..j], a);
    CountAnchorGrows(es, i, j);
    var rj := a + "-" + NatToString(kj);
    assert UniqueAnchorsSpec(es)[j].anchor == rj;
    if ki == 0 {
      assert |rj| > |a|;
    } else {
      var ri := a + "-" + NatToString(ki);
      assert UniqueAnchorsSpec(es)[i].anchor == ri;
      assert ri[|a| + 1..] == NatToString(ki) && rj[|a| + 1..] == NatToString(kj);
      if ri == rj {
        NatToStringInjective(ki, kj);
      }
    }
  }

  /** With pairwise distinct input anchors nothing changes. */
  lemma {:induction false} UniqueAnchorsOfDistinct(es: seq<TocEntry>)
    requires forall i, j :: 0 <= i < j < |es| ==> es[i].anchor != es[j].anchor
    ensures UniqueAnchorsSpec(es) == es
  {
    forall i | 0 <= i < |es| ensures UniqueAnchorsSpec(es)[i] == es[i] {
      CountAnchorZero(es[..i], es[i].anchor);
    }
  }

  /** The suffix can collide with an anchor that was already there:
      `a`, `a`, `a-1` becomes `a`, `a-1`, `a-1`. */
  lemma {:induction false} UniqueAnchorsNotGloballyUnique()
    ensures var es := [TocEntry("A", "a", "x.md", None, false),
                       TocEntry("A", "a", "y.md", None, false),
                       TocEntry("A1", "a-1", "z.md", None, false)];
      var r := UniqueAnchorsSpec(es);
      r[1].anchor == "a-1" && r[2].anchor == "a-1"
  {
    var es := [TocEntry("A", "a", "x.md", None, false),
               TocEntry("A", "a", "y.md", None, false),
               TocEntry("A1", "a-1", "z.md", None, false)];
    assert CountAnchor(es[..1], "a") == 1;
    assert CountAnchor(es[..2], "a-1") == 0 by {
      CountAnchorZero(es[..2], "a-1");
    }
    assert NatToString(1) == "1";
  }

  /** Three entries with the same anchor get `intro`, `intro-1`, `intro-2`. */
  lemma {:induction false} UniqueAnchorsOfRepeated()
    ensures var es := [TocEntry("Intro", "intro", "a.md", None, false),
                       TocEntry("Intro", "intro", "b.md", None, false),
                       TocEntry("Intro", "intro", "c.md", None, false)];
      var r := UniqueAnchorsSpec(es);
      r[0].anchor == "intro" && r[1].anchor == "intro-1" && r[2].anchor == "intro-2"
  {
    var es := [TocEntry("Intro", "intro", "a.md", None, false),
               TocEntry("Intro", "intro", "b.md", None, false),
               TocEntry("Intro", "intro", "c.md", None, false)];
    assert CountAnchor(es[..1], "intro") == 1;
    assert es[..2][..1] == es[..1];
    assert CountAnchor(es[..2], "intro") == 2;
    assert NatToString(1) == "1" && NatToString(2) == "2";
  }

  // ---------------------------------------------------------------------
  // generateToc
  // ---------------------------------------------------------------------

  /** The value of the depth-`d` counter after the entries `es`: an entry
      shallower than `d` resets it, one at `d` increments it, deeper ones
      leave it alone. */
  function Counter(es: seq<TocEntry>, d: nat): nat {
    if es == [] then 0
    else
      var last := Depth(es[|es| - 1]);
      var c := Counter(es[..|es| - 1], d);
      if last < d then 0 else if last == d then c + 1 else c
  }

  /** `${indent}${n}. [${title}](#${anchor})` */
  function TocLine(e: TocEntry, n: nat): string {
    Repeat("   ", Depth(e)) + NatToString(n) + ". [" + e.title + "](#" + e.anchor + ")"
  }

  /** The lines of the table of contents: a heading, a blank line, then one
      numbered line per entry. */
  function TocLines(es: seq<TocEntry>): (r: seq<string>)
    ensures |r| == |es| + 2
  {
    ["# Table of Contents", ""]
    + seq(|es|, i requires 0 <= i < |es| => TocLine(es[i], Counter(es[..i + 1], Depth(es[i]))))
  }

  /** Line `i + 2` of the table of contents is the line of entry `i`. */
  lemma {:induction false} TocLineAt(es: seq<TocEntry>, i: nat)
    requires i < |es|
    ensures TocLines(es)[i + 2] == TocLine(es[i], Counter(es[..i + 1], Depth(es[i])))
  {
  }

  /** `counters[d]` is the counter of depth `d` after the entries `es`, and
      every depth past the list has a counter of 0. */
  ghost predicate CountersAgree(counters: seq<nat>, es: seq<TocEntry>) {
    && (forall d :: 0 <= d < |counters| ==> counters[d] == Counter(es, d))
    && (forall d: nat :: d >= |counters| ==> Counter(es, d) == 0)
  }

  /** Padding the list with a zero keeps it in agreement. */
  lemma {:induction false} CountersGrow(counters: seq<nat>, es: seq<TocEntry>)
    requires CountersAgree(counters, es)
    ensures CountersAgree(counters + [0], es)
  {
  }

  /** Cutting the list back to `depth + 1` and incrementing its last element
      accounts for one more entry at `depth`. */
  lemma {:induction false} CountersStep(counters: seq<nat>, es: seq<TocEntry>, i: nat)
    requires i < |es| && Depth(es[i]) < |counters| && CountersAgree(counters, es[..i])
    ensures var depth := Depth(es[i]);
      var cut := counters[..depth + 1];
      var next := cut[depth := cut[depth] + 1];
      && CountersAgree(next, es[..i + 1])
      && next[depth] == Counter(es[..i + 1], depth)
  {
    assert es[..i + 1][..i] == es[..i];
  }

  /** `generateToc`: the counter list grows with zeros up to the entry's depth,
      is cut back to `depth + 1`, and its last element is incremented. */
  method GenerateToc(entries: seq<TocEntry>) returns (toc: string)
    ensures toc == Join(TocLines(entries), "\n")
  {
    ghost var spec := TocLines(entries);
    var lines := ["# Table of Contents", ""];
    var counters: seq<nat> := [];
    for i := 0 to |entries|
      invariant lines == spec[..i + 2]
      invariant CountersAgree(counters, entries[..i])
    {
      var entry := entries[i];
      var depth := Depth(entry);
      while |counters| <= depth
        invariant CountersAgree(counters, entries[..i])
      {
        CountersGrow(counters, entries[..i]);
        counters := counters + [0];
      }
      CountersStep(counters, entries, i);
      counters := counters[..depth + 1];
      counters := counters[depth := counters[depth] + 1];
      TocLineAt(entries, i);
      lines := lines + [TocLine(entry, counters[depth])];
      PrefixSnoc(spec, i + 2);
    }
    PrefixSnoc(spec, |entries| + 2);
    toc := Join(lines, "\n");
  }

  /** How many entries of `es` sit at exactly depth `d`. */
  function CountAtDepth(es: seq<TocEntry>, d: nat): nat {
    if es == [] then 0 else (if Depth(es[0]) == d then 1 else 0) + CountAtDepth(es[1..], d)
  }

  lemma {:induction false} CountAtDepthSnoc(es: seq<TocEntry>, e: TocEntry, d: nat)
    ensures CountAtDepth(es + [e], d) == CountAtDepth(es, d) + (if Depth(e) == d then 1 else 0)
  {
    if es != [] {
      assert (es + [e])[1..] == es[1..] + [e];
      CountAtDepthSnoc(es[1..], e, d);
    } else {
      assert es + [e] == [e];
    }
  }

  /** The depth-`d` counter counts the depth-`d` entries since the last entry
      shallower than `d` (or since the start); deeper entries do not reset it. */
  lemma {:induction false} CounterSinceShallower(before: seq<TocEntry>, since: seq<TocEntry>, d: nat)
    requires before == [] || Depth(before[|before| - 1]) < d
    requires forall k :: 0 <= k < |since| ==> Depth(since[k]) >= d
    ensures Counter(before + since, d) == CountAtDepth(since, d)
    decreases |since|
  {
    if since == [] {
      assert before + since == before;
      if before != [] {
        assert Counter(before, d) == 0;
      }
    } else {
      var init := since[..|since| - 1];
      var last := since[|since| - 1];
      assert since == init + [last];
      assert (before + since)[..|before + since| - 1] == before + init;
      CounterSinceShallower(before, init, d);
      CountAtDepthSnoc(init, last, d);
    }
  }

  /** The number shown for entry `i`: counting from the entry after the last
      shallower one (position `j`), the `k`-th entry at `i`'s depth is
      numbered `k`, deeper entries in between not counting. */
  lemma {:induction false} TocNumber(es: seq<TocEntry>, j: nat, i: nat)
    requires j <= i < |es|
    requires j == 0 || Depth(es[j - 1]) < Depth(es[i])
    requires forall k :: j <= k <= i ==> Depth(es[k]) >= Depth(es[i])
    ensures var n := CountAtDepth(es[j..i + 1], Depth(es[i]));
      n >= 1 && TocLines(es)[i + 2] == TocLine(es[i], n)
  {
    var d := Depth(es[i]);
    var since := es[j..i + 1];
    forall k | 0 <= k < |since| ensures Depth(since[k]) >= d {
      assert since[k] == es[j + k];
    }
    assert es[..i + 1] == es[..j] + since;
    assert j > 0 ==> es[..j][j - 1] == es[j - 1];
    CounterSinceShallower(es[..j], since, d);
    assert since == since[..|since| - 1] + [es[i]];
    CountAtDepthSnoc(since[..|since| - 1], es[i], d);
    TocLineAt(es, i);
  }

  /** A line never contains a line break when the title and anchor have none,
      so the table splits back into its lines: one per entry after the
      heading and the blank line. */
  lemma {:induction false} TocSplitsIntoLines(es: seq<TocEntry>)
    requires forall i :: 0 <= i < |es| ==> '\n' !in es[i].title && '\n' !in es[i].anchor
    ensures Split(Join(TocLines(es), "\n"), '\n') == TocLines(es)
  {
    var lines := TocLines(es);
    forall k | 0 <= k < |lines| ensures '\n' !in lines[k] {
      if k >= 2 {
        var e := es[k - 2];
        RepeatNoChar("   ", Depth(e), '\n');
        NatToStringNoNewline(Counter(es[..k - 1], Depth(e)));
      }
    }
    SplitJoin(lines, '\n');
  }

  lemma {:induction false} NatToStringNoNewline(n: nat)
    ensures '\n' !in NatToString(n)
  {
  }

  lemma {:induction false} RepeatNoChar(s: string, n: nat, c: char)
    requires c !in s
    ensures c !in Repeat(s, n)
  {
    if n > 0 {
      RepeatNoChar(s, n - 1, c);
    }
  }

  /** The entries of the depth-reset example: after `A`, `A1`, `A2` and the
      depth-0 entry `B`, the depth-1 entry `B1` is numbered 1 again. */
  lemma {:induction false} TocResetsAfterShallower()
    ensures var es := [TocEntry("A", "a", "a/", Some(0), true), TocEntry("A1", "a1", "a/a1.md", Some(1), false),
                       TocEntry("A2", "a2", "a/a2.md", Some(1), false), TocEntry("B", "b", "b/", Some(0), true),
                       TocEntry("B1", "b1", "b/b1.md", Some(1), false)];
      TocLines(es)[6] == "   1. [B1](#b1)"
  {
    var es := [TocEntry("A", "a", "a/", Some(0), true), TocEntry("A1", "a1", "a/a1.md", Some(1), false),
               TocEntry("A2", "a2", "a/a2.md", Some(1), false), TocEntry("B", "b", "b/", Some(0), true),
               TocEntry("B1", "b1", "b/b1.md", Some(1), false)];
    CounterSinceShallower(es[..4], [es[4]], 1);
    assert es[..5] == es[..4] + [es[4]];
    assert CountAtDepth([es[4]], 1) == 1;
    assert Repeat("   ", 1) == "   ";
    assert NatToString(1) == "1";
  }
}
