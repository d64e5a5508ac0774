/** The filesystem as a flat map from paths to entries. Every operation of the tree is specified here,
    and the promises of the filesystem are proved on this map. */
module FsFlat {
  import opened FsPath

  const MAX_FILE_SIZE: nat := 65536
  const MAX_DIR_CHILDREN: nat := 128
  const MAX_PATH_DEPTH: nat := 16
  const MAX_TOTAL_INODES: nat := 512

  type Bytes = seq<bv8>

  datatype Entry = FileEntry(data: Bytes) | DirEntry

  type Entries = map<Path, Entry>

  /** All entries, the root at `[]`, and the inode counter. */
  datatype Flat = Flat(entries: Entries, count: nat)

  function EmptyFlat(): Flat {
    Flat(map[[] := DirEntry], 1)
  }

  function Last(p: Path): string
    requires |p| > 0
  {
    p[|p| - 1]
  }

  function Front(p: Path): Path
    requires |p| > 0
  {
    p[..|p| - 1]
  }

  /** The names in directory `p`. */
  ghost function ChildNames(entries: Entries, p: Path): set<string> {
    set q | q in entries && |q| == |p| + 1 && p <= q :: q[|p|]
  }

  lemma ChildNamesHas(entries: Entries, p: Path, name: string)
    ensures name in ChildNames(entries, p) <==> p + [name] in entries
  {
    if name in ChildNames(entries, p) {
      var q :| q in entries && |q| == |p| + 1 && p <= q && q[|p|] == name;
      assert q == p + [name];
    }
    if p + [name] in entries {
      assert (p + [name])[|p|] == name;
    }
  }

  // ---------------------------------------------------------------- operations

  /** What a lookup of `parts` finds. */
  function Locate(entries: Entries, parts: Path): Result<Entry> {
    if |parts| > MAX_PATH_DEPTH then Err(PathTooDeep)
    else if parts in entries then Ok(entries[parts])
    else Err(NotFound)
  }

  /** The directory that holds the last component of `path`, and that component. */
  function LocateParent(entries: Entries, path: string): Result<(Path, string)> {
    match ResolvePath(path)
    case Err(e) => Err(e)
    case Ok((parent, name)) =>
      match Locate(entries, SplitPath(parent))
      case Err(e) => Err(e)
      case Ok(FileEntry(_)) => Err(NotADirectory)
      case Ok(DirEntry) => Ok((SplitPath(parent), name))
  }

  ghost function Create(f: Flat, path: string, entry: Entry): (Flat, Result<()>) {
    if f.count >= MAX_TOTAL_INODES then (f, Err(TooManyInodes))
    else
      match LocateParent(f.entries, path)
      case Err(e) => (f, Err(e))
      case Ok((dir, name)) =>
        if dir + [name] in f.entries then (f, Err(AlreadyExists))
        else if |ChildNames(f.entries, dir)| >= MAX_DIR_CHILDREN then (f, Err(TooManyChildren))
        else (Flat(f.entries[dir + [name] := entry], f.count + 1), Ok(()))
  }

  function Read(f: Flat, path: string): Result<Bytes> {
    match Locate(f.entries, SplitPath(path))
    case Err(e) => Err(e)
    case Ok(DirEntry) => Err(NotAFile)
    case Ok(FileEntry(data)) => Ok(data)
  }

  function Write(f: Flat, path: string, data: Bytes): (Flat, Result<()>) {
    if |data| > MAX_FILE_SIZE then (f, Err(FileTooLarge))
    else
      match Locate(f.entries, SplitPath(path))
      case Err(e) => (f, Err(e))
      case Ok(DirEntry) => (f, Err(NotAFile))
      case Ok(FileEntry(_)) => (f.(entries := f.entries[SplitPath(path) := FileEntry(data)]), Ok(()))
  }

  function Append(f: Flat, path: string, data: Bytes): (Flat, Result<()>) {
    match Locate(f.entries, SplitPath(path))
    case Err(e) => (f, Err(e))
    case Ok(DirEntry) => (f, Err(NotAFile))
    case Ok(FileEntry(before)) =>
      if |before| + |data| > MAX_FILE_SIZE then (f, Err(FileTooLarge))
      else (f.(entries := f.entries[SplitPath(path) := FileEntry(before + data)]), Ok(()))
  }

  ghost function List(f: Flat, path: string): Result<set<string>> {
    match Locate(f.entries, SplitPath(path))
    case Err(e) => Err(e)
    case Ok(FileEntry(_)) => Err(NotADirectory)
    case Ok(DirEntry) => Ok(ChildNames(f.entries, SplitPath(path)))
  }

  predicate Exists(f: Flat, path: string) {
    Locate(f.entries, SplitPath(path)).Ok?
  }

  /** The entry at `p` and everything below it. */
  ghost function Subtree(entries: Entries, p: Path): set<Path> {
    set q | q in entries && p <= q
  }

  ghost function Remove(f: Flat, path: string): (Flat, Result<()>) {
    match LocateParent(f.entries, path)
    case Err(e) => (f, Err(e))
    case Ok((dir, name)) =>
      if dir + [name] !in f.entries then (f, Err(NotFound))
      else
        (Flat(f.entries - Subtree(f.entries, dir + [name]), if f.count == 0 then 0 else f.count - 1), Ok(()))
  }

  // ---------------------------------------------------------------- the invariant

  /** Directories above every entry. */
  ghost predicate PrefixClosed(entries: Entries) {
    && [] in entries && entries[[]].DirEntry?
    && forall p :: p in entries && |p| > 0 ==> Front(p) in entries && entries[Front(p)].DirEntry?
  }

  /** The documented limits; the tree can be one level deeper than lookups reach. */
  ghost predicate WithinLimits(f: Flat) {
    && (forall p :: p in f.entries && f.entries[p].FileEntry? ==> |f.entries[p].data| <= MAX_FILE_SIZE)
    && (forall p {:trigger ChildNames(f.entries, p)} ::
          p in f.entries ==> |ChildNames(f.entries, p)| <= MAX_DIR_CHILDREN)
    && (forall p :: p in f.entries ==> |p| <= MAX_PATH_DEPTH + 1)
    && |f.entries| <= f.count <= MAX_TOTAL_INODES
  }

  ghost predicate FlatOk(f: Flat) {
    PrefixClosed(f.entries) && WithinLimits(f)
  }

  lemma EmptyFlatOk()
    ensures FlatOk(EmptyFlat())
  {
    var e := EmptyFlat().entries;
    forall p | p in e ensures |ChildNames(e, p)| <= MAX_DIR_CHILDREN {
      assert ChildNames(e, p) == {};
    }
  }

  // ---------------------------------------------------------------- creation

  /** A successful creation adds one entry, below an existing directory of at most 16 components. */
  lemma CreateAdds(f: Flat, path: string, entry: Entry)
    requires Create(f, path, entry).1.Ok?
    ensures LocateParent(f.entries, path).Ok?
    ensures var (dir, name) := LocateParent(f.entries, path).value;
            && dir in f.entries && f.entries[dir].DirEntry? && |dir| <= MAX_PATH_DEPTH
            && dir + [name] !in f.entries
            && Create(f, path, entry).0 == Flat(f.entries[dir + [name] := entry], f.count + 1)
  {
  }

  lemma ChildNamesAfterAdd(entries: Entries, dir: Path, name: string, entry: Entry, p: Path)
    requires dir + [name] !in entries
    ensures ChildNames(entries[dir + [name] := entry], p) ==
            ChildNames(entries, p) + if p == dir then {name} else {}
  {
    var after := entries[dir + [name] := entry];
    forall n ensures n in ChildNames(after, p) <==> n in ChildNames(entries, p) + if p == dir then {name} else {} {
      ChildNamesHas(after, p, n);
      ChildNamesHas(entries, p, n);
      assert p + [n] == dir + [name] <==> p == dir && n == name by {
        if p + [n] == dir + [name] {
          assert (p + [n])[..|p|] == p && (dir + [name])[..|dir|] == dir;
          assert (p + [n])[|p|] == n;
        }
      }
    }
  }

  lemma FrontOfChild(p: Path, n: string)
    ensures Front(p + [n]) == p
  {
  }

  lemma NoOrphanChildren(entries: Entries, p: Path)
    requires PrefixClosed(entries) && p !in entries
    ensures ChildNames(entries, p) == {}
  {
    forall n ensures n !in ChildNames(entries, p) {
      ChildNamesHas(entries, p, n);
      FrontOfChild(p, n);
    }
  }

  lemma AddKeepsPrefixClosed(entries: Entries, dir: Path, name: string, entry: Entry)
    requires PrefixClosed(entries) && dir in entries && entries[dir].DirEntry? && dir + [name] !in entries
    ensures PrefixClosed(entries[dir + [name] := entry])
  {
    FrontOfChild(dir, name);
    var after := entries[dir + [name] := entry];
    forall p | p in after && |p| > 0 ensures Front(p) in after && after[Front(p)].DirEntry? { }
  }

  lemma AddKeepsLimits(f: Flat, dir: Path, name: string, entry: Entry)
    requires FlatOk(f) && f.count < MAX_TOTAL_INODES && (entry.FileEntry? ==> entry.data == [])
    requires dir in f.entries && |dir| <= MAX_PATH_DEPTH && dir + [name] !in f.entries
    requires |ChildNames(f.entries, dir)| < MAX_DIR_CHILDREN
    ensures WithinLimits(Flat(f.entries[dir + [name] := entry], f.count + 1))
  {
    hide ChildNames, PrefixClosed;
    var added := dir + [name];
    var after := f.entries[added := entry];
    forall p | p in after ensures |ChildNames(after, p)| <= MAX_DIR_CHILDREN {
      ChildNamesAfterAdd(f.entries, dir, name, entry, p);
      if p == added { NoOrphanChildren(f.entries, added); }
    }
    assert after.Keys == f.entries.Keys + {added};
  }

  lemma CreateKeepsOk(f: Flat, path: string, entry: Entry)
    requires FlatOk(f) && (entry.FileEntry? ==> entry.data == [])
    ensures FlatOk(Create(f, path, entry).0)
  {
    hide ChildNames, LocateParent, PrefixClosed, WithinLimits;
    if Create(f, path, entry).1.Ok? {
      CreateAdds(f, path, entry);
      var (dir, name) := LocateParent(f.entries, path).value;
      AddKeepsPrefixClosed(f.entries, dir, name, entry);
      AddKeepsLimits(f, dir, name, entry);
    }
  }

  // ---------------------------------------------------------------- writing

  lemma ChildNamesSameKeys(a: Entries, b: Entries, p: Path)
    requires a.Keys == b.Keys
    ensures ChildNames(a, p) == ChildNames(b, p)
  {
  }

  /** Overwriting a file keeps the invariant. */
  lemma OverwriteKeepsOk(f: Flat, parts: Path, data: Bytes)
    requires FlatOk(f) && parts in f.entries && f.entries[parts].FileEntry? && |data| <= MAX_FILE_SIZE
    ensures FlatOk(f.(entries := f.entries[parts := FileEntry(data)]))
  {
    hide ChildNames;
    var after := f.entries[parts := FileEntry(data)];
    assert after.Keys == f.entries.Keys;
    forall p | p in after ensures |ChildNames(after, p)| <= MAX_DIR_CHILDREN {
      ChildNamesSameKeys(after, f.entries, p);
    }
    assert |after| == |f.entries| by { assert |after.Keys| == |after| && |f.entries.Keys| == |f.entries|; }
  }

  lemma WriteKeepsOk(f: Flat, path: string, data: Bytes)
    requires FlatOk(f)
    ensures FlatOk(Write(f, path, data).0)
  {
    if Write(f, path, data).1.Ok? { OverwriteKeepsOk(f, SplitPath(path), data); }
  }

  lemma AppendKeepsOk(f: Flat, path: string, data: Bytes)
    requires FlatOk(f)
    ensures FlatOk(Append(f, path, data).0)
  {
    if Append(f, path, data).1.Ok? { OverwriteKeepsOk(f, SplitPath(path), f.entries[SplitPath(path)].data + data); }
  }

  // ---------------------------------------------------------------- removal

  lemma {:induction false} SizeBelow(a: set<Path>, b: set<Path>)
    requires a <= b
    ensures |a| <= |b| && |b - a| == |b| - |a|
  {
    assert b == a + (b - a);
  }

  /** Removal deletes exactly the path and its extensions. */
  lemma RemoveDeletes(f: Flat, path: string)
    requires Remove(f, path).1.Ok?
    ensures LocateParent(f.entries, path).Ok?
    ensures var (dir, name) := LocateParent(f.entries, path).value;
            var gone := dir + [name];
            && gone in f.entries
            && Remove(f, path).0.entries == f.entries - Subtree(f.entries, gone)
            && (forall q :: q in Remove(f, path).0.entries <==> q in f.entries && !(gone <= q))
            && |Remove(f, path).0.entries| == |f.entries| - |Subtree(f.entries, gone)|
            && |Subtree(f.entries, gone)| >= 1
  {
    var (dir, name) := LocateParent(f.entries, path).value;
    var gone := dir + [name];
    var after := Remove(f, path).0.entries;
    var sub := Subtree(f.entries, gone);
    assert gone in sub;
    assert after.Keys == f.entries.Keys - sub;
    SizeBelow(sub, f.entries.Keys);
    SizeBelow({gone}, sub);
  }

  lemma ChildNamesShrink(a: Entries, b: Entries, p: Path)
    requires a.Keys <= b.Keys
    ensures ChildNames(a, p) <= ChildNames(b, p) && |ChildNames(a, p)| <= |ChildNames(b, p)|
  {
    NameSizes(ChildNames(a, p), ChildNames(b, p));
  }

  lemma NameSizes(a: set<string>, b: set<string>)
    requires a <= b
    ensures |a| <= |b|
  {
    assert b == a + (b - a);
  }

  lemma PrunedIsPrefixClosed(entries: Entries, after: Entries, gone: Path)
    requires PrefixClosed(entries) && |gone| > 0
    requires forall q :: q in after <==> q in entries && !(gone <= q)
    requires forall q :: q in after ==> after[q] == entries[q]
    ensures PrefixClosed(after)
  {
    forall p | p in after && |p| > 0 ensures Front(p) in after && after[Front(p)].DirEntry? {
      assert p in entries;
      assert p == Front(p) + [Last(p)];
    }
  }

  lemma RemoveKeepsOk(f: Flat, path: string)
    requires FlatOk(f)
    ensures FlatOk(Remove(f, path).0)
  {
    hide ChildNames, LocateParent, Subtree, PrefixClosed;
    if Remove(f, path).1.Ok? {
      RemoveDeletes(f, path);
      var (dir, name) := LocateParent(f.entries, path).value;
      var after := Remove(f, path).0.entries;
      PrunedIsPrefixClosed(f.entries, after, dir + [name]);
      forall p | p in after ensures |ChildNames(after, p)| <= MAX_DIR_CHILDREN {
        ChildNamesShrink(after, f.entries, p);
      }
    }
  }

  // ---------------------------------------------------------------- runs

  datatype Call =
    | CreateFile(path: string)
    | CreateDir(path: string)
    | WriteFile(path: string, data: Bytes)
    | AppendFile(path: string, data: Bytes)
    | RemovePath(path: string)

  ghost function Apply(f: Flat, call: Call): Flat {
    match call
    case CreateFile(path) => Create(f, path, FileEntry([])).0
    case CreateDir(path) => Create(f, path, DirEntry).0
    case WriteFile(path, data) => Write(f, path, data).0
    case AppendFile(path, data) => Append(f, path, data).0
    case RemovePath(path) => Remove(f, path).0
  }

  /** The filesystem after a run of calls on an empty one. */
  ghost function After(calls: seq<Call>): Flat
    decreases |calls|
  {
    if |calls| == 0 then EmptyFlat() else Apply(After(calls[..|calls| - 1]), calls[|calls| - 1])
  }

  lemma ApplyKeepsOk(f: Flat, call: Call)
    requires FlatOk(f)
    ensures FlatOk(Apply(f, call))
  {
    hide FlatOk, Create, Write, Append, Remove;
    match call {
      case CreateFile(path) => CreateKeepsOk(f, path, FileEntry([]));
      case CreateDir(path) => CreateKeepsOk(f, path, DirEntry);
      case WriteFile(path, data) => WriteKeepsOk(f, path, data);
      case AppendFile(path, data) => AppendKeepsOk(f, path, data);
      case RemovePath(path) => RemoveKeepsOk(f, path);
    }
  }

  /** Over every run the limits hold: file sizes, children per directory, depth, and reachable inodes
      never exceed the counter, which never exceeds 512. */
  lemma {:induction false} RunKeepsLimits(calls: seq<Call>)
    ensures FlatOk(After(calls))
    decreases |calls|
  {
    hide FlatOk, Apply;
    if |calls| == 0 {
      EmptyFlatOk();
    } else {
      RunKeepsLimits(calls[..|calls| - 1]);
      ApplyKeepsOk(After(calls[..|calls| - 1]), calls[|calls| - 1]);
    }
  }

  /** A removal that takes more than the entry itself. */
  ghost predicate RemovesNonEmptyDir(f: Flat, call: Call) {
    && call.RemovePath? && Remove(f, call.path).1.Ok? && LocateParent(f.entries, call.path).Ok?
    && var (dir, name) := LocateParent(f.entries, call.path).value;
       |Subtree(f.entries, dir + [name])| > 1
  }

  /** How far the counter runs ahead of the inodes that exist. */
  function Leak(f: Flat): int {
    f.count - |f.entries|
  }

  /** How many inodes below the removed one a call takes with it. */
  ghost function Uncounted(f: Flat, call: Call): nat {
    if RemovesNonEmptyDir(f, call) then
      var (dir, name) := LocateParent(f.entries, call.path).value;
      |Subtree(f.entries, dir + [name])| - 1
    else 0
  }

  /** A call widens the gap between counter and inodes by the number of inodes below a directory it
      removes, so exactly when it removes a non-empty one. */
  lemma LeakStep(f: Flat, call: Call)
    requires FlatOk(f)
    ensures Leak(Apply(f, call)) == Leak(f) + Uncounted(f, call)
    ensures Leak(Apply(f, call)) == Leak(f) <==> !RemovesNonEmptyDir(f, call)
  {
    hide Create, Write, Append, Remove, FlatOk, RemovesNonEmptyDir, LocateParent, Subtree;
    match call {
      case CreateFile(path) => CreateCount(f, path, FileEntry([])); NoRemoval(f, call);
      case CreateDir(path) => CreateCount(f, path, DirEntry); NoRemoval(f, call);
      case WriteFile(path, data) => WriteCount(f, path, data); NoRemoval(f, call);
      case AppendFile(path, data) => AppendCount(f, path, data); NoRemoval(f, call);
      case RemovePath(path) => RemoveCount(f, path);
    }
    SomeUncounted(f, call);
  }

  lemma NoRemoval(f: Flat, call: Call)
    requires !call.RemovePath?
    ensures !RemovesNonEmptyDir(f, call)
  {
  }

  lemma SomeUncounted(f: Flat, call: Call)
    ensures Uncounted(f, call) > 0 <==> RemovesNonEmptyDir(f, call)
  {
  }

  lemma WriteCount(f: Flat, path: string, data: Bytes)
    ensures Leak(Write(f, path, data).0) == Leak(f)
  {
    hide SplitPath;
    if Write(f, path, data).1.Ok? { SameCount(f.entries, SplitPath(path), FileEntry(data)); }
  }

  lemma AppendCount(f: Flat, path: string, data: Bytes)
    ensures Leak(Append(f, path, data).0) == Leak(f)
  {
    hide SplitPath;
    if Append(f, path, data).1.Ok? {
      SameCount(f.entries, SplitPath(path), FileEntry(f.entries[SplitPath(path)].data + data));
    }
  }

  lemma RemoveCount(f: Flat, path: string)
    requires FlatOk(f)
    ensures Leak(Remove(f, path).0) == Leak(f) + Uncounted(f, RemovePath(path))
  {
    hide LocateParent, Subtree, PrefixClosed, ChildNames;
    if Remove(f, path).1.Ok? {
      RemoveDeletes(f, path);
      assert f.count > 0 by { assert |f.entries| > 0; }
    }
  }

  lemma CreateCount(f: Flat, path: string, entry: Entry)
    ensures Leak(Create(f, path, entry).0) == Leak(f)
  {
    hide ChildNames, LocateParent;
    if Create(f, path, entry).1.Ok? {
      CreateAdds(f, path, entry);
      var (dir, name) := LocateParent(f.entries, path).value;
      var after := f.entries[dir + [name] := entry];
      assert after.Keys == f.entries.Keys + {dir + [name]};
    }
  }

  lemma SameCount(entries: Entries, p: Path, entry: Entry)
    requires p in entries
    ensures |entries[p := entry]| == |entries|
  {
    var after := entries[p := entry];
    assert after.Keys == entries.Keys;
    assert |after.Keys| == |after| && |entries.Keys| == |entries|;
  }

  /** Call `i` of the run removes a non-empty directory. */
  ghost predicate LeaksAt(calls: seq<Call>, i: nat)
    requires i < |calls|
  {
    RemovesNonEmptyDir(After(calls[..i]), calls[i])
  }

  lemma LeaksAtPrefix(calls: seq<Call>, n: nat, i: nat)
    requires i < n <= |calls|
    ensures LeaksAt(calls[..n], i) <==> LeaksAt(calls, i)
  {
    assert calls[..n][..i] == calls[..i];
  }

  /** Over a whole run the counter is exact if and only if no non-empty directory was removed. */
  lemma {:induction false} CounterExactIff(calls: seq<Call>)
    ensures After(calls).count == |After(calls).entries| <==>
            forall i: nat :: i < |calls| ==> !LeaksAt(calls, i)
    decreases |calls|
  {
    hide Apply, RemovesNonEmptyDir, FlatOk, LeaksAt;
    if |calls| > 0 {
      var n := |calls| - 1;
      var before := calls[..n];
      CounterExactIff(before);
      RunKeepsLimits(before);
      LeakStep(After(before), calls[n]);
      LeakNonNegative(After(before));
      LeaksAtLast(calls);
      forall i: nat | i < n ensures LeaksAt(before, i) <==> LeaksAt(calls, i) { LeaksAtPrefix(calls, n, i); }
    }
  }

  lemma LeaksAtLast(calls: seq<Call>)
    requires |calls| > 0
    ensures LeaksAt(calls, |calls| - 1) <==> RemovesNonEmptyDir(After(calls[..|calls| - 1]), calls[|calls| - 1])
  {
  }

  lemma LeakNonNegative(f: Flat)
    requires FlatOk(f)
    ensures Leak(f) >= 0
  {
  }

  // ---------------------------------------------------------------- round trips and independence

  /** The components under which a creation or removal of `path` acts. */
  function Target(path: string): Path {
    if SplitPath(path) == [] then [""] else SplitPath(path)
  }

  /** Creation and removal act on exactly the path that lookups use, except that a path of two or more
      slashes and no component names the empty child of the root. */
  lemma ParentIsFront(entries: Entries, path: string)
    requires LocateParent(entries, path).Ok?
    ensures var (dir, name) := LocateParent(entries, path).value; dir + [name] == Target(path)
  {
    if SplitPath(path) == [] {
      ResolveNoComponents(path);
      NoComponents("");
    } else {
      ResolveAgrees(path);
      var p := SplitPath(path);
      assert p == Front(p) + [Last(p)];
    }
  }

  /** A created entry is found again exactly when its path has 1 to 16 components. */
  lemma CreateThenLookup(f: Flat, path: string, entry: Entry)
    requires FlatOk(f) && Create(f, path, entry).1.Ok?
    ensures var f' := Create(f, path, entry).0;
            Locate(f'.entries, SplitPath(path)) == Ok(entry) && SplitPath(path) !in f.entries <==>
            1 <= |SplitPath(path)| <= MAX_PATH_DEPTH
  {
    hide ChildNames;
    CreateAdds(f, path, entry);
    ParentIsFront(f.entries, path);
  }

  /** What is written is read back. */
  lemma WriteThenRead(f: Flat, path: string, data: Bytes)
    requires Write(f, path, data).1.Ok?
    ensures Read(Write(f, path, data).0, path) == Ok(data)
  {
  }

  /** What is appended is read back after what was there. */
  lemma AppendThenRead(f: Flat, path: string, data: Bytes)
    requires Append(f, path, data).1.Ok?
    ensures Read(f, path).Ok?
    ensures Read(Append(f, path, data).0, path) == Ok(Read(f, path).value + data)
  {
  }

  /** A new file of a reachable path reads back empty, and accepts data up to 64 KiB. */
  lemma CreateWriteRead(f: Flat, path: string, data: Bytes)
    requires FlatOk(f) && Create(f, path, FileEntry([])).1.Ok?
    requires 1 <= |SplitPath(path)| <= MAX_PATH_DEPTH
    ensures var f1 := Create(f, path, FileEntry([])).0;
            && Read(f1, path) == Ok([])
            && (|data| <= MAX_FILE_SIZE <==> Write(f1, path, data).1.Ok?)
            && (|data| <= MAX_FILE_SIZE ==> Read(Write(f1, path, data).0, path) == Ok(data))
  {
    CreateThenLookup(f, path, FileEntry([]));
  }

  /** Paths that no call on `path` can affect: neither the target nor below it. */
  ghost predicate Unrelated(path: string, q: Path) {
    !(Target(path) <= q) && q != SplitPath(path)
  }

  function PathOf(call: Call): string {
    call.path
  }

  /** A call leaves every unrelated path as it was, whether it succeeds or fails. */
  lemma CallsAreLocal(f: Flat, call: Call, q: Path)
    requires FlatOk(f) && Unrelated(PathOf(call), q)
    ensures q in Apply(f, call).entries <==> q in f.entries
    ensures q in f.entries ==> Apply(f, call).entries[q] == f.entries[q]
  {
    hide ChildNames, FlatOk;
    match call {
      case CreateFile(path) => CreateIsLocal(f, path, FileEntry([]), q);
      case CreateDir(path) => CreateIsLocal(f, path, DirEntry, q);
      case WriteFile(path, data) =>
      case AppendFile(path, data) =>
      case RemovePath(path) =>
        if Remove(f, path).1.Ok? {
          RemoveDeletes(f, path);
          ParentIsFront(f.entries, path);
        }
    }
  }

  lemma CreateIsLocal(f: Flat, path: string, entry: Entry, q: Path)
    requires Unrelated(path, q)
    ensures q in Create(f, path, entry).0.entries <==> q in f.entries
    ensures q in f.entries ==> Create(f, path, entry).0.entries[q] == f.entries[q]
  {
    hide ChildNames, LocateParent;
    if Create(f, path, entry).1.Ok? {
      CreateAdds(f, path, entry);
      ParentIsFront(f.entries, path);
    }
  }

  /** After a removal the path and everything below it is gone, and nothing else. */
  lemma RemoveIsExact(f: Flat, path: string, q: Path)
    requires FlatOk(f) && Remove(f, path).1.Ok?
    ensures q in Remove(f, path).0.entries <==> q in f.entries && !(Target(path) <= q)
  {
    RemoveDeletes(f, path);
    ParentIsFront(f.entries, path);
  }

  lemma PrefixIsSlice(p: Path, q: Path)
    requires p <= q
    ensures q[..|p|] == p
  {
  }

  lemma NothingBelowNew(entries: Entries, added: Path, entry: Entry)
    requires PrefixClosed(entries) && added !in entries
    ensures Subtree(entries[added := entry], added) == {added}
    ensures entries[added := entry] - {added} == entries
  {
    forall q | q in entries ensures !(added <= q) {
      if added <= q {
        PrefixIsSlice(added, q);
        PrefixInEntries(entries, q, |added|);
      }
    }
  }

  /** Removing what was just created restores the filesystem. */
  lemma RemoveUndoesCreate(f: Flat, path: string, entry: Entry)
    requires FlatOk(f) && Create(f, path, entry).1.Ok?
    ensures Remove(Create(f, path, entry).0, path) == (f, Ok(()))
  {
    hide ChildNames, LocateParent, Subtree, WithinLimits, PrefixClosed;
    CreateAdds(f, path, entry);
    var (dir, name) := LocateParent(f.entries, path).value;
    SameParent(f.entries, Create(f, path, entry).0.entries, path);
    NothingBelowNew(f.entries, dir + [name], entry);
  }

  lemma SameParent(a: Entries, b: Entries, path: string)
    requires LocateParent(a, path).Ok?
    requires var (dir, _) := LocateParent(a, path).value; dir in b && b[dir].DirEntry?
    ensures LocateParent(b, path) == LocateParent(a, path)
  {
  }

  lemma {:induction false} PrefixInEntries(entries: Entries, q: Path, n: nat)
    requires PrefixClosed(entries) && q in entries && n <= |q|
    ensures q[..n] in entries
    decreases |q|
  {
    if n == |q| {
      assert q[..n] == q;
    } else {
      PrefixInEntries(entries, Front(q), n);
      assert Front(q)[..n] == q[..n];
    }
  }
}
