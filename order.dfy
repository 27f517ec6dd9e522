/** File ordering (`packages/core/src/order.ts`): a stable sort by name or
    by creation time, and the manifest order of `index.json`. */
module Ordering {
  import opened Common
  import opened PosixPath
  import opened Types

  // ---------------------------------------------------------------------
  // Stable sorting
  // ---------------------------------------------------------------------

  /** What `Array.prototype.sort` needs of its comparator to be meaningful:
      `le(a, b)` is "compare(a, b) <= 0", a total preorder. */
  ghost predicate TotalPreorder(le: (FileEntry, FileEntry) -> bool) {
    && (forall a, b :: le(a, b) || le(b, a))
    && (forall a, b, c :: le(a, b) && le(b, c) ==> le(a, c))
  }

  predicate Sorted(s: seq<FileEntry>, le: (FileEntry, FileEntry) -> bool) {
    forall i, j :: 0 <= i < j < |s| ==> le(s[i], s[j])
  }

  /** `a` and `b` compare equal. */
  predicate Tied(le: (FileEntry, FileEntry) -> bool, a: FileEntry, b: FileEntry) {
    le(a, b) && le(b, a)
  }

  /** The entries of `s` that compare equal to `y`, in their order in `s`. */
  function Ties(s: seq<FileEntry>, y: FileEntry, le: (FileEntry, FileEntry) -> bool): seq<FileEntry> {
    if s == [] then []
    else (if Tied(le, s[0], y) then [s[0]] else []) + Ties(s[1..], y, le)
  }

  /** Inserts `x` before the first entry it does not come after. */
  function Insert(x: FileEntry, s: seq<FileEntry>, le: (FileEntry, FileEntry) -> bool): seq<FileEntry> {
    if s == [] then [x]
    else if le(x, s[0]) then [x] + s
    else [s[0]] + Insert(x, s[1..], le)
  }

  /** `[...xs].sort(compare)`, which the language requires to be stable. */
  function SortBy(xs: seq<FileEntry>, le: (FileEntry, FileEntry) -> bool): seq<FileEntry> {
    if xs == [] then [] else Insert(xs[0], SortBy(xs[1..], le), le)
  }

  lemma {:induction false} InsertPermutes(x: FileEntry, s: seq<FileEntry>, le: (FileEntry, FileEntry) -> bool)
    ensures multiset(Insert(x, s, le)) == multiset(s) + multiset{x}
  {
    if s != [] && !le(x, s[0]) {
      InsertPermutes(x, s[1..], le);
      assert s == [s[0]] + s[1..];
    }
  }

  lemma {:induction false} InsertSorted(x: FileEntry, s: seq<FileEntry>, le: (FileEntry, FileEntry) -> bool)
    requires TotalPreorder(le) && Sorted(s, le)
    ensures Sorted(Insert(x, s, le), le)
  {
    if s == [] {
    } else if le(x, s[0]) {
      var r := [x] + s;
      forall i, j | 0 <= i < j < |r| ensures le(r[i], r[j]) {
        if i == 0 && j > 1 {
          assert le(s[0], s[j - 1]);
        }
      }
    } else {
      InsertSorted(x, s[1..], le);
      InsertPermutes(x, s[1..], le);
      var t := Insert(x, s[1..], le);
      var r := [s[0]] + t;
      forall i, j | 0 <= i < j < |r| ensures le(r[i], r[j]) {
        if i == 0 {
          assert r[j] in multiset(t);
          assert r[j] == x || r[j] in s[1..];
          if r[j] != x {
            var k :| 0 <= k < |s[1..]| && s[1..][k] == r[j];
            assert le(s[0], s[k + 1]);
          }
        }
      }
    }
  }

  /** Inserting `x` puts it before every entry tied with it, so the tied
      entries keep their order. */
  lemma {:induction false} InsertTies(x: FileEntry, s: seq<FileEntry>, y: FileEntry, le: (FileEntry, FileEntry) -> bool)
    requires TotalPreorder(le)
    ensures Ties(Insert(x, s, le), y, le) == (if Tied(le, x, y) then [x] else []) + Ties(s, y, le)
  {
    if s == [] {
    } else if le(x, s[0]) {
      assert ([x] + s)[1..] == s;
    } else {
      InsertTies(x, s[1..], y, le);
      var r := [s[0]] + Insert(x, s[1..], le);
      assert r[1..] == Insert(x, s[1..], le);
      if Tied(le, x, y) {
        assert !Tied(le, s[0], y);
      }
    }
  }

  /** The sort returns a permutation of its input, ordered by `le`, in which
      entries that compare equal keep their input order. */
  lemma {:induction false} SortByCorrect(xs: seq<FileEntry>, le: (FileEntry, FileEntry) -> bool)
    requires TotalPreorder(le)
    ensures multiset(SortBy(xs, le)) == multiset(xs)
    ensures Sorted(SortBy(xs, le), le)
    ensures forall y :: Ties(SortBy(xs, le), y, le) == Ties(xs, y, le)
  {
    if xs != [] {
      SortByCorrect(xs[1..], le);
      InsertPermutes(xs[0], SortBy(xs[1..], le), le);
      InsertSorted(xs[0], SortBy(xs[1..], le), le);
      assert xs == [xs[0]] + xs[1..];
      forall y ensures Ties(SortBy(xs, le), y, le) == Ties(xs, y, le) {
        InsertTies(xs[0], SortBy(xs[1..], le), y, le);
      }
    }
  }

  // ---------------------------------------------------------------------
  // orderByFilename and orderByCreated
  // ---------------------------------------------------------------------

  /** What the filename comparator must be: a total preorder on paths. The
      source uses `localeCompare` with numeric collation, which this model
      takes as this parameter. */
  ghost predicate PathPreorder(nameLe: (string, string) -> bool) {
    && (forall a, b :: nameLe(a, b) || nameLe(b, a))
    && (forall a, b, c :: nameLe(a, b) && nameLe(b, c) ==> nameLe(a, c))
  }

  function ByName(nameLe: (string, string) -> bool): (FileEntry, FileEntry) -> bool {
    (a: FileEntry, b: FileEntry) => nameLe(a.relativePath, b.relativePath)
  }

  /** `orderByFilename` */
  function OrderByFilename(files: seq<FileEntry>, nameLe: (string, string) -> bool): seq<FileEntry> {
    SortBy(files, ByName(nameLe))
  }

  /** `a.stats.birthtimeMs - b.stats.birthtimeMs <= 0` */
  predicate CreatedLe(a: FileEntry, b: FileEntry) {
    a.birthtimeMs - b.birthtimeMs <= 0
  }

  /** `orderByCreated` */
  function OrderByCreated(files: seq<FileEntry>): seq<FileEntry> {
    SortBy(files, CreatedLe)
  }

  lemma {:induction false} ByNamePreorder(nameLe: (string, string) -> bool)
    requires PathPreorder(nameLe)
    ensures TotalPreorder(ByName(nameLe))
  {
    var le := ByName(nameLe);
    forall a, b ensures le(a, b) || le(b, a) {
      assert nameLe(a.relativePath, b.relativePath) || nameLe(b.relativePath, a.relativePath);
    }
    forall a, b, c | le(a, b) && le(b, c) ensures le(a, c) {
      assert nameLe(a.relativePath, b.relativePath) && nameLe(b.relativePath, c.relativePath);
    }
  }

  /** The filename order is a permutation of the files, ascending by path,
      and files whose paths compare equal keep their input order. */
  lemma {:induction false} OrderByFilenameCorrect(files: seq<FileEntry>, nameLe: (string, string) -> bool)
    requires PathPreorder(nameLe)
    ensures multiset(OrderByFilename(files, nameLe)) == multiset(files)
    ensures var r := OrderByFilename(files, nameLe);
      forall i, j :: 0 <= i < j < |r| ==> nameLe(r[i].relativePath, r[j].relativePath)
    ensures forall y :: Ties(OrderByFilename(files, nameLe), y, ByName(nameLe)) == Ties(files, y, ByName(nameLe))
  {
    ByNamePreorder(nameLe);
    SortByCorrect(files, ByName(nameLe));
  }

  /** The entries of `s` created at time `t`, in order. */
  function CreatedAt(s: seq<FileEntry>, t: int): seq<FileEntry> {
    if s == [] then []
    else (if s[0].birthtimeMs == t then [s[0]] else []) + CreatedAt(s[1..], t)
  }

  lemma {:induction false} TiesOfCreated(s: seq<FileEntry>, y: FileEntry)
    ensures Ties(s, y, CreatedLe) == CreatedAt(s, y.birthtimeMs)
  {
    if s != [] {
      TiesOfCreated(s[1..], y);
    }
  }

  /** The creation order is a permutation of the files, ascending by
      creation time, and files created at the same time keep their input
      order. */
  lemma {:induction false} OrderByCreatedCorrect(files: seq<FileEntry>)
    ensures multiset(OrderByCreated(files)) == multiset(files)
    ensures var r := OrderByCreated(files);
      forall i, j :: 0 <= i < j < |r| ==> r[i].birthtimeMs <= r[j].birthtimeMs
    ensures forall t :: CreatedAt(OrderByCreated(files), t) == CreatedAt(files, t)
  {
    SortByCorrect(files, CreatedLe);
    forall t ensures CreatedAt(OrderByCreated(files), t) == CreatedAt(files, t) {
      var y := FileEntry("", "", t, 0);
      TiesOfCreated(OrderByCreated(files), y);
      TiesOfCreated(files, y);
    }
  }

  /** Plain code-unit order, one comparator that meets the requirement. */
  predicate CodeUnitLe(a: string, b: string) {
    a == [] || (b != [] && (a[0] < b[0] || (a[0] == b[0] && CodeUnitLe(a[1..], b[1..]))))
  }

  lemma {:induction false} CodeUnitTotal(a: string, b: string)
    ensures CodeUnitLe(a, b) || CodeUnitLe(b, a)
  {
    if a != [] && b != [] && a[0] == b[0] {
      CodeUnitTotal(a[1..], b[1..]);
    }
  }

  lemma {:induction false} CodeUnitTransitive(a: string, b: string, c: string)
    requires CodeUnitLe(a, b) && CodeUnitLe(b, c)
    ensures CodeUnitLe(a, c)
  {
    if a != [] && b != [] && c != [] && a[0] == b[0] && b[0] == c[0] {
      CodeUnitTransitive(a[1..], b[1..], c[1..]);
    }
  }

  lemma {:induction false} CodeUnitPreorder()
    ensures PathPreorder(CodeUnitLe)
  {
    forall a, b ensures CodeUnitLe(a, b) || CodeUnitLe(b, a) {
      CodeUnitTotal(a, b);
    }
    forall a, b, c | CodeUnitLe(a, b) && CodeUnitLe(b, c) ensures CodeUnitLe(a, c) {
      CodeUnitTransitive(a, b, c);
    }
  }

  // ---------------------------------------------------------------------
  // orderByIndex: the `Map` from relative path to entry
  // ---------------------------------------------------------------------

  /** A `Map` keyed by relative path, as its entries in insertion order. */
  predicate DistinctPaths(m: seq<FileEntry>) {
    forall i, j :: 0 <= i < j < |m| ==> m[i].relativePath != m[j].relativePath
  }

  predicate HasPath(m: seq<FileEntry>, key: string) {
    exists i :: 0 <= i < |m| && m[i].relativePath == key
  }

  /** The position of `key`, if present. */
  function KeyIndex(m: seq<FileEntry>, key: string): (r: Option<nat>)
    ensures r.Some? ==> r.value < |m| && m[r.value].relativePath == key
    ensures r.Some? ==> forall i :: 0 <= i < r.value ==> m[i].relativePath != key
    ensures r.None? <==> !HasPath(m, key)
  {
    if m == [] then None
    else if m[0].relativePath == key then Some(0)
    else match KeyIndex(m[1..], key)
      case None => None
      case Some(i) => Some(i + 1)
  }

  /** `map.set(f.relativePath, f)`: a present key keeps its place and gets the
      new entry; a new key goes last. */
  function Put(m: seq<FileEntry>, f: FileEntry): seq<FileEntry> {
    match KeyIndex(m, f.relativePath)
    case Some(i) => m[i := f]
    case None => m + [f]
  }

  /** `map.delete(key)` */
  function Remove(m: seq<FileEntry>, key: string): seq<FileEntry> {
    match KeyIndex(m, key)
    case Some(i) => m[..i] + m[i + 1..]
    case None => m
  }

  /** `map.get(key)` */
  function Get(m: seq<FileEntry>, key: string): (r: Option<FileEntry>)
    ensures r.Some? ==> r.value in m && r.value.relativePath == key
    ensures r.None? <==> !HasPath(m, key)
  {
    match KeyIndex(m, key)
    case Some(i) => Some(m[i])
    case None => None
  }

  /** `new Map(files.map(f => [f.relativePath, f]))`, continuing from `m`. */
  function BuildMap(m: seq<FileEntry>, files: seq<FileEntry>): seq<FileEntry>
    decreases files
  {
    if files == [] then m else BuildMap(Put(m, files[0]), files[1..])
  }

  /** Deleting every excluded path, by exact string. */
  function RemoveAll(m: seq<FileEntry>, keys: seq<string>): seq<FileEntry>
    decreases keys
  {
    if keys == [] then m else RemoveAll(Remove(m, keys[0]), keys[1..])
  }

  /** The manifest loop: the entries taken in manifest order, and what is
      left in the map. */
  function TakeListed(order: seq<string>, m: seq<FileEntry>): (seq<FileEntry>, seq<FileEntry>) {
    if order == [] then ([], m)
    else
      var key := Normalize(order[0]);
      match Get(m, key)
      case Some(e) =>
        var rest := TakeListed(order[1..], Remove(m, key));
        ([e] + rest.0, rest.1)
      case None => TakeListed(order[1..], m)
  }

  /** What `orderByIndex` returns for a manifest that was read. */
  function IndexOrder(files: seq<FileEntry>, config: IndexConfig, nameLe: (string, string) -> bool): seq<FileEntry> {
    var m := RemoveAll(BuildMap([], files), config.exclude);
    var taken := TakeListed(config.order, m);
    taken.0 + OrderByFilename(taken.1, nameLe)
  }

  /** The error for a missing or unreadable manifest. */
  function IndexError(inputDir: string): string {
    IndexErrorHead + PosixJoin(inputDir, "index.json") + IndexErrorTail
  }

  const IndexErrorHead := "index.json not found or invalid at "
  const IndexErrorTail := ". Required for \"index\" ordering strategy."

  lemma {:induction false} BuildMapStep(m: seq<FileEntry>, files: seq<FileEntry>, i: nat)
    requires i < |files|
    ensures BuildMap(Put(m, files[i]), files[i + 1..]) == BuildMap(m, files[i..])
  {
    assert files[i..][1..] == files[i + 1..];
  }

  lemma {:induction false} RemoveAllStep(m: seq<FileEntry>, keys: seq<string>, j: nat)
    requires j < |keys|
    ensures RemoveAll(Remove(m, keys[j]), keys[j + 1..]) == RemoveAll(m, keys[j..])
  {
    assert keys[j..][1..] == keys[j + 1..];
  }

  lemma {:induction false} TakeListedStep(order: seq<string>, m: seq<FileEntry>, k: nat)
    requires k < |order|
    ensures var key := Normalize(order[k]);
      var next := TakeListed(order[k + 1..], if Get(m, key).Some? then Remove(m, key) else m);
      TakeListed(order[k..], m)
        == (if Get(m, key).Some? then ([Get(m, key).value] + next.0, next.1) else next)
  {
    assert order[k..][1..] == order[k + 1..];
  }

  /** `orderByIndex`, with `index.json` already read and parsed: `None` when
      it is missing or is not valid JSON. */
  method OrderByIndex(files: seq<FileEntry>, config: Option<IndexConfig>, inputDir: string, nameLe: (string, string) -> bool)
    returns (r: Result<seq<FileEntry>, string>)
    ensures config.None? ==> r == Err(IndexError(inputDir))
    ensures config.Some? ==> r == Ok(IndexOrder(files, config.value, nameLe))
  {
    if config.None? {
      return Err(IndexError(inputDir));
    }
    var cfg := config.value;
    var fileMap := FileMapOf(files);
    fileMap := DeleteExcluded(fileMap, cfg.exclude);
    var ordered;
    ordered, fileMap := TakeManifestOrder(cfg.order, fileMap);
    var remaining := OrderByFilename(fileMap, nameLe);
    return Ok(ordered + remaining);
  }

  /** The map of files by relative path, built one `set` at a time. */
  method FileMapOf(files: seq<FileEntry>) returns (fileMap: seq<FileEntry>)
    ensures fileMap == BuildMap([], files)
  {
    fileMap := [];
    var i := 0;
    while i < |files|
      invariant 0 <= i <= |files|
      invariant BuildMap(fileMap, files[i..]) == BuildMap([], files)
    {
      BuildMapStep(fileMap, files, i);
      fileMap := Put(fileMap, files[i]);
      i := i + 1;
    }
    assert files[i..] == [];
  }

  /** The `exclude` loop: one `delete` per entry, as written. */
  method DeleteExcluded(m: seq<FileEntry>, exclude: seq<string>) returns (fileMap: seq<FileEntry>)
    ensures fileMap == RemoveAll(m, exclude)
  {
    fileMap := m;
    var j := 0;
    while j < |exclude|
      invariant 0 <= j <= |exclude|
      invariant RemoveAll(fileMap, exclude[j..]) == RemoveAll(m, exclude)
    {
      RemoveAllStep(fileMap, exclude, j);
      fileMap := Remove(fileMap, exclude[j]);
      j := j + 1;
    }
    assert exclude[j..] == [];
  }

  /** The `order` loop: each normalized entry found in the map is taken out
      of it and appended. */
  method TakeManifestOrder(order: seq<string>, m: seq<FileEntry>) returns (ordered: seq<FileEntry>, fileMap: seq<FileEntry>)
    ensures (ordered, fileMap) == TakeListed(order, m)
  {
    fileMap := m;
    ordered := [];
    var k := 0;
    while k < |order|
      invariant 0 <= k <= |order|
      invariant ordered + TakeListed(order[k..], fileMap).0 == TakeListed(order, m).0
      invariant TakeListed(order[k..], fileMap).1 == TakeListed(order, m).1
    {
      TakeListedStep(order, fileMap, k);
      var normalized := Normalize(order[k]);
      var entry := Get(fileMap, normalized);
      if entry.Some? {
        ghost var next := TakeListed(order[k + 1..], Remove(fileMap, normalized));
        assert TakeListed(order[k..], fileMap) == ([entry.value] + next.0, next.1);
        assert ordered + ([entry.value] + next.0) == (ordered + [entry.value]) + next.0;
        ordered := ordered + [entry.value];
        fileMap := Remove(fileMap, normalized);
      } else {
        assert TakeListed(order[k..], fileMap) == TakeListed(order[k + 1..], fileMap);
      }
      k := k + 1;
    }
    assert order[k..] == [];
    assert TakeListed(order[k..], fileMap) == ([], fileMap);
    assert ordered + [] == ordered;
  }

  /** What `orderFiles` returns for each strategy. */
  function Ordered(files: seq<FileEntry>, strategy: OrderStrategy, inputDir: string,
                   manifest: Option<IndexConfig>, nameLe: (string, string) -> bool): Result<seq<FileEntry>, string>
  {
    match strategy
    case Filename => Ok(OrderByFilename(files, nameLe))
    case Created => Ok(OrderByCreated(files))
    case Index => if manifest.None? then Err(IndexError(inputDir)) else Ok(IndexOrder(files, manifest.value, nameLe))
  }

  /** `orderFiles`: the manifest, when the strategy needs it, is passed in
      already read (`None` when it is missing or invalid). */
  method OrderFiles(files: seq<FileEntry>, strategy: OrderStrategy, inputDir: string,
                    manifest: Option<IndexConfig>, nameLe: (string, string) -> bool)
    returns (r: Result<seq<FileEntry>, string>)
    ensures strategy == Filename ==> r == Ok(OrderByFilename(files, nameLe))
    ensures strategy == Created ==> r == Ok(OrderByCreated(files))
    ensures strategy == Index && manifest.None? ==> r == Err(IndexError(inputDir))
    ensures strategy == Index && manifest.Some? ==> r == Ok(IndexOrder(files, manifest.value, nameLe))
    ensures r == Ordered(files, strategy, inputDir, manifest, nameLe)
  {
    match strategy
    case Filename =>
      r := Ok(OrderByFilename(files, nameLe));
    case Created =>
      r := Ok(OrderByCreated(files));
    case Index =>
      r := OrderByIndex(files, manifest, inputDir, nameLe);
  }

  /** The error names the manifest file it looked for. */
  lemma {:induction false} IndexErrorNamesManifest(inputDir: string)
    ensures StartsWith(IndexError(inputDir), IndexErrorHead)
    ensures EndsWith(IndexError(inputDir), IndexErrorTail)
  {
    var middle := IndexErrorHead + PosixJoin(inputDir, "index.json");
    assert (middle + IndexErrorTail)[..|IndexErrorHead|] == IndexErrorHead;
    assert (middle + IndexErrorTail)[|middle|..] == IndexErrorTail;
  }

  // ---------------------------------------------------------------------
  // orderByIndex: what the result holds
  // ---------------------------------------------------------------------

  lemma {:induction false} PutFacts(m: seq<FileEntry>, f: FileEntry)
    requires DistinctPaths(m)
    ensures DistinctPaths(Put(m, f))
    ensures forall x :: x in Put(m, f) ==> x == f || x in m
    ensures forall k :: HasPath(Put(m, f), k) <==> HasPath(m, k) || k == f.relativePath
  {
    var r := Put(m, f);
    match KeyIndex(m, f.relativePath)
    case Some(i) =>
      assert r == m[i := f];
      forall k ensures HasPath(r, k) <==> HasPath(m, k) || k == f.relativePath {
        if HasPath(m, k) {
          var p :| 0 <= p < |m| && m[p].relativePath == k;
          assert r[p].relativePath == k;
        }
        if k == f.relativePath {
          assert r[i].relativePath == k;
        }
        if HasPath(r, k) {
          var p :| 0 <= p < |r| && r[p].relativePath == k;
          assert m[p].relativePath == k;
        }
      }
    case None =>
      assert r == m + [f];
      forall k ensures HasPath(r, k) <==> HasPath(m, k) || k == f.relativePath {
        if HasPath(m, k) {
          var p :| 0 <= p < |m| && m[p].relativePath == k;
          assert r[p].relativePath == k;
        }
        if k == f.relativePath {
          assert r[|m|].relativePath == k;
        }
        if HasPath(r, k) {
          var p :| 0 <= p < |r| && r[p].relativePath == k;
          if p < |m| {
            assert m[p].relativePath == k;
          }
        }
      }
  }

  lemma {:induction false} BuildMapFacts(m: seq<FileEntry>, files: seq<FileEntry>)
    requires DistinctPaths(m)
    ensures DistinctPaths(BuildMap(m, files))
    ensures forall x :: x in BuildMap(m, files) ==> x in m || x in files
    ensures forall k :: HasPath(BuildMap(m, files), k) <==> HasPath(m, k) || HasPath(files, k)
    decreases files
  {
    if files != [] {
      PutFacts(m, files[0]);
      BuildMapFacts(Put(m, files[0]), files[1..]);
      forall k ensures HasPath(files, k) <==> k == files[0].relativePath || HasPath(files[1..], k) {
        if HasPath(files, k) {
          var p :| 0 <= p < |files| && files[p].relativePath == k;
          if p > 0 {
            assert files[1..][p - 1].relativePath == k;
          }
        }
        if HasPath(files[1..], k) {
          var p :| 0 <= p < |files[1..]| && files[1..][p].relativePath == k;
          assert files[p + 1].relativePath == k;
        }
        if k == files[0].relativePath {
          assert files[0].relativePath == k;
        }
      }
      forall x | x in files[1..] ensures x in files {
      }
    }
  }

  lemma {:induction false} RemoveFacts(m: seq<FileEntry>, key: string)
    requires DistinctPaths(m)
    ensures DistinctPaths(Remove(m, key))
    ensures forall x :: x in Remove(m, key) <==> x in m && x.relativePath != key
    ensures Get(m, key).Some? ==> multiset(Remove(m, key)) + multiset{Get(m, key).value} == multiset(m)
    ensures Get(m, key).None? ==> Remove(m, key) == m
  {
    match KeyIndex(m, key)
    case Some(i) =>
      RemoveAtDistinct(m, i);
      RemoveAtMembers(m, i);
      assert m == m[..i] + [m[i]] + m[i + 1..];
    case None =>
      forall x | x in m ensures x.relativePath != key {
        var p :| 0 <= p < |m| && m[p] == x;
      }
  }

  lemma {:induction false} RemoveAtDistinct(m: seq<FileEntry>, i: nat)
    requires DistinctPaths(m) && i < |m|
    ensures DistinctPaths(m[..i] + m[i + 1..])
  {
    var r := m[..i] + m[i + 1..];
    forall a, b | 0 <= a < b < |r| ensures r[a].relativePath != r[b].relativePath {
      var a' := if a < i then a else a + 1;
      var b' := if b < i then b else b + 1;
      assert r[a] == m[a'] && r[b] == m[b'];
    }
  }

  lemma {:induction false} RemoveAtMembers(m: seq<FileEntry>, i: nat)
    requires DistinctPaths(m) && i < |m|
    ensures forall x :: x in m[..i] + m[i + 1..] <==> x in m && x.relativePath != m[i].relativePath
  {
    var r := m[..i] + m[i + 1..];
    forall x ensures x in r <==> x in m && x.relativePath != m[i].relativePath {
      if x in r {
        var p :| 0 <= p < |r| && r[p] == x;
        var p' := if p < i then p else p + 1;
        assert m[p'] == x && p' != i;
      }
      if x in m && x.relativePath != m[i].relativePath {
        var p :| 0 <= p < |m| && m[p] == x;
        if p < i {
          assert r[p] == x;
        } else {
          assert r[p - 1] == x;
        }
      }
    }
  }

  lemma {:induction false} RemoveAllFacts(m: seq<FileEntry>, keys: seq<string>)
    requires DistinctPaths(m)
    ensures DistinctPaths(RemoveAll(m, keys))
    ensures forall x :: x in RemoveAll(m, keys) <==> x in m && x.relativePath !in keys
    decreases keys
  {
    if keys != [] {
      RemoveFacts(m, keys[0]);
      RemoveAllFacts(Remove(m, keys[0]), keys[1..]);
      assert keys == [keys[0]] + keys[1..];
    }
  }

  /** The first manifest position that names `key` once normalized. */
  function FirstListed(order: seq<string>, key: string): (r: Option<nat>)
    ensures r.Some? ==> r.value < |order| && Normalize(order[r.value]) == key
    ensures r.Some? ==> forall j :: 0 <= j < r.value ==> Normalize(order[j]) != key
    ensures r.None? <==> forall j :: 0 <= j < |order| ==> Normalize(order[j]) != key
  {
    if order == [] then None
    else if Normalize(order[0]) == key then Some(0)
    else match FirstListed(order[1..], key)
      case None =>
        assert forall j :: 1 <= j < |order| ==> order[j] == order[1..][j - 1];
        None
      case Some(j) =>
        assert forall i :: 1 <= i <= j ==> order[i] == order[1..][i - 1];
        Some(j + 1)
  }

  /** The manifest loop splits the map: nothing is lost or duplicated. */
  lemma {:induction false} TakeListedPermutes(order: seq<string>, m: seq<FileEntry>)
    requires DistinctPaths(m)
    ensures var t := TakeListed(order, m);
      multiset(t.0) + multiset(t.1) == multiset(m)
  {
    if order != [] {
      var key := Normalize(order[0]);
      RemoveFacts(m, key);
      if Get(m, key).Some? {
        TakeListedPermutes(order[1..], Remove(m, key));
      } else {
        TakeListedPermutes(order[1..], m);
      }
    }
  }

  /** A path the manifest leaves out of the map was not listed. */
  lemma {:induction false} TakeListedUnlisted(order: seq<string>, m: seq<FileEntry>)
    requires DistinctPaths(m)
    ensures forall x :: x in TakeListed(order, m).1 ==> FirstListed(order, x.relativePath).None?
  {
    if order != [] {
      var key := Normalize(order[0]);
      RemoveFacts(m, key);
      var m' := if Get(m, key).Some? then Remove(m, key) else m;
      TakeListedUnlisted(order[1..], m');
      TakeListedPermutes(order[1..], m');
      assert TakeListed(order, m).1 == TakeListed(order[1..], m').1;
      forall x | x in TakeListed(order, m).1 ensures FirstListed(order, x.relativePath).None? {
        assert x in multiset(m');
        UnlistedKey(m, key, x);
        FirstListedLater(order, x.relativePath);
      }
    }
  }

  /** An entry left after looking up `key` has another path. */
  lemma {:induction false} UnlistedKey(m: seq<FileEntry>, key: string, x: FileEntry)
    requires DistinctPaths(m)
    requires x in (if Get(m, key).Some? then Remove(m, key) else m)
    ensures x.relativePath != key
  {
    RemoveFacts(m, key);
    if Get(m, key).None? {
      var p :| 0 <= p < |m| && m[p] == x;
    }
  }

  /** Every entry of `s` is listed, and they come in first-listed order. */
  predicate Ranked(order: seq<string>, s: seq<FileEntry>) {
    (forall x :: x in s ==> FirstListed(order, x.relativePath).Some?)
    && (forall a, b :: 0 <= a < b < |s| ==>
          FirstListed(order, s[a].relativePath).value < FirstListed(order, s[b].relativePath).value)
  }

  /** The manifest loop takes listed entries, in first-listed order. */
  lemma {:induction false} TakeListedRanked(order: seq<string>, m: seq<FileEntry>)
    requires DistinctPaths(m)
    ensures Ranked(order, TakeListed(order, m).0)
  {
    if order != [] {
      var key := Normalize(order[0]);
      RemoveFacts(m, key);
      var m' := if Get(m, key).Some? then Remove(m, key) else m;
      var rest := TakeListed(order[1..], m');
      TakeListedRanked(order[1..], m');
      TakeListedPermutes(order[1..], m');
      forall x | x in rest.0
        ensures FirstListed(order, x.relativePath) == Shift(FirstListed(order[1..], x.relativePath))
      {
        assert x in multiset(m');
        UnlistedKey(m, key, x);
        FirstListedLater(order, x.relativePath);
      }
      if Get(m, key).Some? {
        var e := Get(m, key).value;
        assert TakeListed(order, m).0 == [e] + rest.0;
        RankedCons(order, e, rest.0);
      } else {
        assert TakeListed(order, m) == rest;
        RankedLater(order, rest.0);
      }
    }
  }

  lemma {:induction false} RankedLater(order: seq<string>, s: seq<FileEntry>)
    requires order != [] && Ranked(order[1..], s)
    requires forall x :: x in s ==> FirstListed(order, x.relativePath) == Shift(FirstListed(order[1..], x.relativePath))
    ensures Ranked(order, s)
  {
  }

  lemma {:induction false} RankedCons(order: seq<string>, e: FileEntry, s: seq<FileEntry>)
    requires order != [] && Normalize(order[0]) == e.relativePath && Ranked(order[1..], s)
    requires forall x :: x in s ==> FirstListed(order, x.relativePath) == Shift(FirstListed(order[1..], x.relativePath))
    ensures Ranked(order, [e] + s)
  {
    var t := [e] + s;
    var head := FirstListed(order, e.relativePath);
    assert head == Some(0);
    forall x | x in t ensures FirstListed(order, x.relativePath).Some? {
      if x != e {
        assert x in s;
      }
    }
    forall a, b | 0 <= a < b < |t|
      ensures FirstListed(order, t[a].relativePath).value < FirstListed(order, t[b].relativePath).value
    {
      var y := s[b - 1];
      assert t[b] == y && y in s;
      var later := FirstListed(order[1..], y.relativePath);
      assert FirstListed(order, y.relativePath) == Shift(later) && later.Some?;
      if a > 0 {
        var x := s[a - 1];
        assert t[a] == x && x in s;
        var earlier := FirstListed(order[1..], x.relativePath);
        assert FirstListed(order, x.relativePath) == Shift(earlier) && earlier.Some?;
        assert earlier.value < later.value;
      }
    }
  }

  lemma {:induction false} FirstListedLater(order: seq<string>, key: string)
    requires order != [] && Normalize(order[0]) != key
    ensures FirstListed(order, key) == Shift(FirstListed(order[1..], key))
  {
  }

  /** One manifest position later. */
  function Shift(j: Option<nat>): Option<nat> {
    match j
    case Some(v) => Some(v + 1)
    case None => None
  }

  lemma {:induction false} CountAtLeastTwo(s: seq<FileEntry>, i: nat, j: nat)
    requires i < j < |s|
    ensures s[i] == s[j] ==> multiset(s)[s[i]] >= 2
  {
    assert s == s[..j] + s[j..];
    assert s[i] == s[..j][i];
    assert s[j] == s[j..][0];
  }

  lemma {:induction false} CountAtMostOne(s: seq<FileEntry>)
    requires DistinctPaths(s)
    ensures forall x :: multiset(s)[x] <= 1
  {
    if s != [] {
      CountAtMostOne(s[1..]);
      assert s == [s[0]] + s[1..];
      forall x | x in s[1..] ensures x != s[0] {
        var p :| 0 <= p < |s[1..]| && s[1..][p] == x;
        assert s[p + 1] == x;
      }
    }
  }

  /** Reordering entries keeps their paths distinct. */
  lemma {:induction false} DistinctPathsPermutation(a: seq<FileEntry>, b: seq<FileEntry>)
    requires DistinctPaths(a) && multiset(a) == multiset(b)
    ensures DistinctPaths(b)
  {
    CountAtMostOne(a);
    forall i, j | 0 <= i < j < |b| ensures b[i].relativePath != b[j].relativePath {
      CountAtLeastTwo(b, i, j);
      assert b[i] != b[j];
      assert b[i] in multiset(a) && b[j] in multiset(a);
      var p :| 0 <= p < |a| && a[p] == b[i];
      var q :| 0 <= q < |a| && a[q] == b[j];
      assert p != q;
    }
  }

  /** May `x` come before `y` in a manifest ordering: listed entries by their
      first manifest position, all of them before the unlisted ones, and the
      unlisted ones by name. */
  predicate ManifestBefore(order: seq<string>, nameLe: (string, string) -> bool, x: FileEntry, y: FileEntry) {
    match FirstListed(order, x.relativePath)
    case Some(a) =>
      FirstListed(order, y.relativePath).Some? ==> a < FirstListed(order, y.relativePath).value
    case None =>
      FirstListed(order, y.relativePath).None? && nameLe(x.relativePath, y.relativePath)
  }

  /** The map of the files with the excluded paths deleted holds each path
      once, only files that are not excluded, and a file for every path that
      is not excluded. */
  lemma {:induction false} ManifestMapFacts(files: seq<FileEntry>, exclude: seq<string>)
    ensures var m := RemoveAll(BuildMap([], files), exclude);
      && DistinctPaths(m)
      && (forall x :: x in m ==> x in files && x.relativePath !in exclude)
      && (forall f :: f in files && f.relativePath !in exclude ==> HasPath(m, f.relativePath))
  {
    var built := BuildMap([], files);
    BuildMapFacts([], files);
    var m := RemoveAll(built, exclude);
    RemoveAllFacts(built, exclude);
    forall f | f in files && f.relativePath !in exclude ensures HasPath(m, f.relativePath) {
      var p :| 0 <= p < |files| && files[p] == f;
      assert HasPath(files, f.relativePath);
      var q :| 0 <= q < |built| && built[q].relativePath == f.relativePath;
      assert built[q] in m;
    }
  }

  /** A path present in one arrangement is present in any other. */
  lemma {:induction false} HasPathPermutation(a: seq<FileEntry>, b: seq<FileEntry>, key: string)
    requires multiset(a) == multiset(b) && HasPath(a, key)
    ensures HasPath(b, key)
  {
    var q :| 0 <= q < |a| && a[q].relativePath == key;
    assert a[q] in multiset(b);
    var s :| 0 <= s < |b| && b[s] == a[q];
  }

  /** The listed entries followed by the sorted unlisted ones rearrange the map. */
  lemma {:induction false} ManifestSplitPermutes(order: seq<string>, m: seq<FileEntry>, nameLe: (string, string) -> bool)
    requires PathPreorder(nameLe) && DistinctPaths(m)
    ensures var t := TakeListed(order, m);
      multiset(t.0 + OrderByFilename(t.1, nameLe)) == multiset(m)
  {
    TakeListedPermutes(order, m);
    OrderByFilenameCorrect(TakeListed(order, m).1, nameLe);
  }

  /** The listed entries followed by the sorted unlisted ones are in manifest
      order. */
  lemma {:induction false} ManifestSplitOrdered(order: seq<string>, m: seq<FileEntry>, nameLe: (string, string) -> bool)
    requires PathPreorder(nameLe) && DistinctPaths(m)
    ensures var t := TakeListed(order, m);
      var r := t.0 + OrderByFilename(t.1, nameLe);
      forall i, j :: 0 <= i < j < |r| ==> ManifestBefore(order, nameLe, r[i], r[j])
  {
    var t := TakeListed(order, m);
    TakeListedUnlisted(order, m);
    TakeListedRanked(order, m);
    var tail := OrderByFilename(t.1, nameLe);
    OrderByFilenameCorrect(t.1, nameLe);
    var r := t.0 + tail;
    forall i, j | 0 <= i < j < |r| ensures ManifestBefore(order, nameLe, r[i], r[j]) {
      if j < |t.0| {
        assert r[i] == t.0[i] && r[j] == t.0[j];
      } else if i < |t.0| {
        assert r[i] == t.0[i] && r[i] in t.0;
        assert r[j] == tail[j - |t.0|] && r[j] in multiset(t.1);
      } else {
        assert r[i] == tail[i - |t.0|] && r[i] in multiset(t.1);
        assert r[j] == tail[j - |t.0|] && r[j] in multiset(t.1);
      }
    }
  }

  /** The manifest ordering lists each path once, drops exactly the excluded
      paths, puts listed files first in manifest order and sorts the rest by
      name. */
  lemma {:induction false} IndexOrderCorrect(files: seq<FileEntry>, config: IndexConfig, nameLe: (string, string) -> bool)
    requires PathPreorder(nameLe)
    ensures var r := IndexOrder(files, config, nameLe);
      DistinctPaths(r)
      && (forall x :: x in r ==> x in files && x.relativePath !in config.exclude)
      && (forall f :: f in files && f.relativePath !in config.exclude ==> HasPath(r, f.relativePath))
      && (forall i, j :: 0 <= i < j < |r| ==> ManifestBefore(config.order, nameLe, r[i], r[j]))
  {
    var m := RemoveAll(BuildMap([], files), config.exclude);
    ManifestMapFacts(files, config.exclude);
    var t := TakeListed(config.order, m);
    var r := IndexOrder(files, config, nameLe);
    assert r == t.0 + OrderByFilename(t.1, nameLe);
    ManifestSplitPermutes(config.order, m, nameLe);
    ManifestSplitOrdered(config.order, m, nameLe);
    DistinctPathsPermutation(m, r);
    forall x | x in r ensures x in files && x.relativePath !in config.exclude {
      assert x in multiset(m);
    }
    forall f | f in files && f.relativePath !in config.exclude ensures HasPath(r, f.relativePath) {
      HasPathPermutation(m, r, f.relativePath);
    }
  }

  /** With distinct paths in the input, the manifest ordering is a permutation
      of the files that are not excluded. */
  lemma {:induction false} IndexOrderDistinctInput(files: seq<FileEntry>, config: IndexConfig, nameLe: (string, string) -> bool)
    requires PathPreorder(nameLe) && DistinctPaths(files)
    ensures var r := IndexOrder(files, config, nameLe);
      forall x :: x in r <==> x in files && x.relativePath !in config.exclude
  {
    IndexOrderCorrect(files, config, nameLe);
    var r := IndexOrder(files, config, nameLe);
    forall f | f in files && f.relativePath !in config.exclude ensures f in r {
      var s :| 0 <= s < |r| && r[s].relativePath == f.relativePath;
      var p :| 0 <= p < |files| && files[p] == f;
      var q :| 0 <= q < |files| && files[q] == r[s];
      assert p == q;
    }
  }

  // ---------------------------------------------------------------------
  // The manifest example
  // ---------------------------------------------------------------------

  /** A plain file name normalizes to itself. */
  lemma {:induction false} NormalizeName(name: string)
    requires IsName(name)
    ensures Normalize(name) == name
  {
    assert Split(name, '/') == [name];
    assert NormalizeFrom([name], [], true) == [name] by {
      assert [name][1..] == [];
    }
  }

  const AlphaName := "alpha.md"
  const BetaName := "beta.md"
  const GammaName := "gamma.md"
  const Alpha := FileEntry("/docs/alpha.md", AlphaName, 0, 0)
  const Beta := FileEntry("/docs/beta.md", BetaName, 0, 0)
  const Gamma := FileEntry("/docs/gamma.md", GammaName, 0, 0)

  lemma {:induction false} ExampleKeysDiffer()
    ensures Alpha.relativePath != Beta.relativePath && Alpha.relativePath != Gamma.relativePath
    ensures Beta.relativePath != Gamma.relativePath
  {
    assert Alpha.relativePath[0] == 'a' && Beta.relativePath[0] == 'b' && Gamma.relativePath[0] == 'g';
  }

  lemma {:induction false} ExampleMap()
    ensures BuildMap([], [Alpha, Beta, Gamma]) == [Alpha, Beta, Gamma]
  {
    ExampleKeysDiffer();
    assert Put([], Alpha) == [Alpha];
    assert KeyIndex([Alpha], Beta.relativePath) == None by {
      assert [Alpha][1..] == [];
    }
    assert Put([Alpha], Beta) == [Alpha, Beta];
    assert KeyIndex([Alpha, Beta], Gamma.relativePath) == None by {
      assert [Alpha, Beta][1..] == [Beta];
      assert [Beta][1..] == [];
    }
    assert Put([Alpha, Beta], Gamma) == [Alpha, Beta, Gamma];
    calc {
      BuildMap([], [Alpha, Beta, Gamma]);
      { assert [Alpha, Beta, Gamma][1..] == [Beta, Gamma]; }
      BuildMap([Alpha], [Beta, Gamma]);
      { assert [Beta, Gamma][1..] == [Gamma]; }
      BuildMap([Alpha, Beta], [Gamma]);
      { assert [Gamma][1..] == []; }
      BuildMap([Alpha, Beta, Gamma], []);
    }
  }

  /** One manifest entry that names a file in the map. */
  lemma {:induction false} TakeListedHit(order: seq<string>, m: seq<FileEntry>, e: FileEntry)
    requires order != [] && Get(m, Normalize(order[0])) == Some(e)
    ensures var rest := TakeListed(order[1..], Remove(m, Normalize(order[0])));
      TakeListed(order, m) == ([e] + rest.0, rest.1)
  {
  }

  /** Two manifest entries that both name files in the map. */
  lemma {:induction false} TakeListedPair(a: string, b: string, m: seq<FileEntry>, ea: FileEntry, eb: FileEntry)
    requires Get(m, Normalize(a)) == Some(ea)
    requires Get(Remove(m, Normalize(a)), Normalize(b)) == Some(eb)
    ensures TakeListed([a, b], m) == ([ea, eb], Remove(Remove(m, Normalize(a)), Normalize(b)))
  {
    var m1 := Remove(m, Normalize(a));
    var m2 := Remove(m1, Normalize(b));
    assert [a, b][0] == a && [a, b][1..] == [b];
    TakeListedHit([a, b], m, ea);
    assert [b][0] == b && [b][1..] == [];
    TakeListedHit([b], m1, eb);
    assert TakeListed([b][1..], m2) == ([], m2);
    assert [ea] + ([eb] + []) == [ea, eb];
  }

  /** A manifest naming the third and then the first of three files takes
      those two, in that order, and leaves the second. */
  lemma {:induction false} ListedTwoOfThree(x: FileEntry, y: FileEntry, z: FileEntry)
    requires IsName(x.relativePath) && IsName(z.relativePath)
    requires x.relativePath != y.relativePath && x.relativePath != z.relativePath && y.relativePath != z.relativePath
    ensures TakeListed([z.relativePath, x.relativePath], [x, y, z]) == ([z, x], [y])
  {
    NormalizeName(x.relativePath);
    NormalizeName(z.relativePath);
    assert KeyIndex([z], z.relativePath) == Some(0);
    assert KeyIndex([y, z], z.relativePath) == Some(1) by {
      assert [y, z][1..] == [z];
    }
    assert KeyIndex([x, y, z], z.relativePath) == Some(2) by {
      assert [x, y, z][1..] == [y, z];
    }
    assert Remove([x, y, z], z.relativePath) == [x, y];
    assert KeyIndex([x, y], x.relativePath) == Some(0);
    assert Remove([x, y], x.relativePath) == [y];
    TakeListedPair(z.relativePath, x.relativePath, [x, y, z], z, x);
  }

  lemma {:induction false} ExampleListed()
    ensures TakeListed([GammaName, AlphaName], [Alpha, Beta, Gamma]) == ([Gamma, Alpha], [Beta])
  {
    ExampleKeysDiffer();
    ListedTwoOfThree(Alpha, Beta, Gamma);
  }

  /** Manifest `["gamma.md", "alpha.md"]` over `alpha.md`, `beta.md` and
      `gamma.md`: the listed files in manifest order, then the unlisted one. */
  lemma {:induction false} IndexOrderExample()
    ensures IndexOrder([Alpha, Beta, Gamma], IndexConfig([GammaName, AlphaName], []), CodeUnitLe)
            == [Gamma, Alpha, Beta]
  {
    var files := [Alpha, Beta, Gamma];
    ExampleMap();
    assert RemoveAll(BuildMap([], files), []) == files;
    ExampleListed();
    assert OrderByFilename([Beta], CodeUnitLe) == [Beta] by {
      assert [Beta][1..] == [];
      assert SortBy([Beta], ByName(CodeUnitLe)) == Insert(Beta, [], ByName(CodeUnitLe));
    }
    assert [Gamma, Alpha] + [Beta] == [Gamma, Alpha, Beta];
  }
}
