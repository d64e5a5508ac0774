/** How the filesystem's calls answer for each other: lookups, listings and reads agree, every call's
    outcome follows from what the others show, and creations and removals appear in exactly one listing. */
module FsLaws {
  import opened FsPath
  import opened FsFlat

  /** A name a path can end with. */
  predicate IsName(name: string) {
    name != "" && NoSlash(name)
  }

  lemma JoinedPath(path: string, name: string)
    requires IsName(name)
    ensures SplitPath(path + "/" + name) == SplitPath(path) + [name]
  {
    hide SplitPath, Words, NoSlash;
    SplitPathIsWords(path + "/" + name);
    SplitPathIsWords(path);
    WordsJoin(path, name);
    WordsNoSlash(name);
  }

  // ---------------------------------------------------------------- what is there

  /** A path is a file, a directory, too deep to look up, or not there, and all lookups say which. */
  lemma LookupsAgree(f: Flat, path: string)
    ensures Exists(f, path) <==> Read(f, path).Ok? || List(f, path).Ok?
    ensures Read(f, path).Ok? <==> List(f, path) == Err(NotADirectory)
    ensures List(f, path).Ok? <==> Read(f, path) == Err(NotAFile)
    ensures !Exists(f, path) ==>
              var e := if |SplitPath(path)| > 16 then PathTooDeep else NotFound;
              Read(f, path) == Err(e) && List(f, path) == Err(e)
  {
    hide SplitPath, ChildNames;
  }

  /** A directory lists exactly the names under which something can be looked up in it. */
  lemma ListedIffExists(f: Flat, path: string, name: string)
    requires IsName(name) && |SplitPath(path)| < 16 && List(f, path).Ok?
    ensures name in List(f, path).value <==> Exists(f, path + "/" + name)
  {
    hide SplitPath, ChildNames, NoSlash;
    JoinedPath(path, name);
    ChildNamesHas(f.entries, SplitPath(path), name);
  }

  // ---------------------------------------------------------------- when calls succeed

  /** A write succeeds exactly for data of at most 64 KiB to a file that can be read. */
  lemma WriteOutcome(f: Flat, path: string, data: Bytes)
    ensures Write(f, path, data).1 ==
            if |data| > 65536 then Err(FileTooLarge)
            else match Read(f, path) case Err(e) => Err(e) case Ok(_) => Ok(())
    ensures Write(f, path, data).1.Err? ==> Write(f, path, data).0 == f
  {
    hide SplitPath;
  }

  /** An append succeeds exactly if what can be read and the data are together at most 64 KiB. */
  lemma AppendOutcome(f: Flat, path: string, data: Bytes)
    ensures Append(f, path, data).1 ==
            match Read(f, path)
            case Err(e) => Err(e)
            case Ok(before) => if |before| + |data| > 65536 then Err(FileTooLarge) else Ok(())
    ensures Append(f, path, data).1.Err? ==> Append(f, path, data).0 == f
  {
    hide SplitPath;
  }

  /** `dir` is the path of the directory that the last component of `path` is in. */
  predicate IsParent(dir: string, path: string) {
    SplitPath(path) != [] && SplitPath(dir) == Front(SplitPath(path))
  }

  predicate IsDots(name: string) {
    name == "." || name == ".."
  }

  lemma ParentByListing(f: Flat, dir: string, path: string)
    requires IsParent(dir, path)
    ensures var name := Last(SplitPath(path));
            if IsDots(name) then LocateParent(f.entries, path) == Err(InvalidPath)
            else
              match List(f, dir)
              case Err(e) => LocateParent(f.entries, path) == Err(e)
              case Ok(names) =>
                && LocateParent(f.entries, path) == Ok((SplitPath(dir), name))
                && names == ChildNames(f.entries, SplitPath(dir))
  {
    hide SplitPath, ResolvePath, ChildNames;
    ResolveAgrees(path);
  }

  /** A creation is decided by the counter, the name, and the listing of the parent, in this order. */
  lemma CreateOutcome(f: Flat, dir: string, path: string, entry: Entry)
    requires IsParent(dir, path)
    ensures var name := Last(SplitPath(path));
            Create(f, path, entry).1 ==
              if f.count >= 512 then Err(TooManyInodes)
              else if IsDots(name) then Err(InvalidPath)
              else
                match List(f, dir)
                case Err(e) => Err(e)
                case Ok(names) =>
                  if name in names then Err(AlreadyExists)
                  else if |names| >= 128 then Err(TooManyChildren)
                  else Ok(())
    ensures Create(f, path, entry).1.Err? ==> Create(f, path, entry).0 == f
  {
    hide SplitPath, LocateParent, ChildNames, List;
    ParentByListing(f, dir, path);
    ChildNamesHas(f.entries, SplitPath(dir), Last(SplitPath(path)));
  }

  /** A removal is decided by the name and the listing of the parent. */
  lemma RemoveOutcome(f: Flat, dir: string, path: string)
    requires IsParent(dir, path)
    ensures var name := Last(SplitPath(path));
            Remove(f, path).1 ==
              if IsDots(name) then Err(InvalidPath)
              else
                match List(f, dir)
                case Err(e) => Err(e)
                case Ok(names) => if name in names then Ok(()) else Err(NotFound)
    ensures Remove(f, path).1.Err? ==> Remove(f, path).0 == f
  {
    hide SplitPath, LocateParent, ChildNames, List, Subtree;
    ParentByListing(f, dir, path);
    ChildNamesHas(f.entries, SplitPath(dir), Last(SplitPath(path)));
  }

  // ---------------------------------------------------------------- what listings show afterwards

  lemma ChildNamesAdd(entries: Entries, p: Path, name: string, entry: Entry, q: Path)
    ensures ChildNames(entries[p + [name] := entry], q) ==
            ChildNames(entries, q) + if q == p then {name} else {}
  {
    hide ChildNames;
    var after := entries[p + [name] := entry];
    forall x ensures x in ChildNames(after, q) <==> x in ChildNames(entries, q) || (q == p && x == name) {
      ChildNamesHas(after, q, x);
      ChildNamesHas(entries, q, x);
      if q + [x] == p + [name] {
        assert (q + [x])[..|q|] == q && (p + [name])[..|p|] == p;
        assert (q + [x])[|q|] == x && (p + [name])[|p|] == name;
      }
    }
  }

  /** What listing `q` shows once the entry `target` is there too. */
  ghost function WithEntry(before: Result<set<string>>, q: Path, target: Path): Result<set<string>>
    requires |target| > 0
  {
    match before
    case Err(e) => Err(e)
    case Ok(names) => Ok(names + if q == Front(target) then {Last(target)} else {})
  }

  /** A successful creation adds its last component to its parent's listing, changes no other listing, and
      a new directory lists nothing. */
  lemma CreateListing(f: Flat, path: string, entry: Entry, q: string)
    requires FlatOk(f) && Create(f, path, entry).1.Ok?
    ensures var f', target := Create(f, path, entry).0, Target(path);
            if SplitPath(q) != target then List(f', q) == WithEntry(List(f, q), SplitPath(q), target)
            else if |target| > 16 then List(f', q) == Err(PathTooDeep)
            else List(f', q) == if entry.DirEntry? then Ok({}) else Err(NotADirectory)
  {
    hide SplitPath, ChildNames, LocateParent;
    CreateAdds(f, path, entry);
    ParentIsFront(f.entries, path);
    var (dir, name) := LocateParent(f.entries, path).value;
    var target := Target(path);
    assert Front(target) == dir && Last(target) == name;
    ChildNamesAdd(f.entries, dir, name, entry, SplitPath(q));
    assert target == dir + [name] && |target| == |dir| + 1;
    if SplitPath(q) == target {
      NewIsEmpty(f, target);
      assert ChildNames(f.entries[target := entry], target) == {};
    }
  }

  /** Nothing lies below a path that is not there. */
  lemma NewIsEmpty(f: Flat, p: Path)
    requires FlatOk(f) && p !in f.entries
    ensures ChildNames(f.entries, p) == {}
  {
    hide ChildNames, WithinLimits;
    forall x ensures x !in ChildNames(f.entries, p) {
      ChildNamesHas(f.entries, p, x);
      assert Front(p + [x]) == p;
    }
  }

  /** A successful removal takes its last component out of its parent's listing, changes no listing outside
      what it removes, and leaves nothing to list inside. */
  lemma RemoveListing(f: Flat, path: string, q: string)
    requires FlatOk(f) && Remove(f, path).1.Ok?
    ensures var f', target := Remove(f, path).0, Target(path);
            if target <= SplitPath(q) then List(f', q).Err?
            else
              match List(f, q)
              case Err(e) => List(f', q) == Err(e)
              case Ok(names) =>
                List(f', q) == Ok(names - if SplitPath(q) == Front(target) then {Last(target)} else {})
  {
    hide SplitPath, ChildNames, LocateParent, Subtree;
    RemoveDeletes(f, path);
    ParentIsFront(f.entries, path);
    var (dir, name) := LocateParent(f.entries, path).value;
    var target := Target(path);
    assert Front(target) == dir && Last(target) == name;
    var after, p := Remove(f, path).0.entries, SplitPath(q);
    if !(target <= p) { ChildNamesPruned(f.entries, after, target, p); }
  }

  lemma ChildNamesPruned(entries: Entries, after: Entries, target: Path, p: Path)
    requires |target| > 0 && !(target <= p) && forall q :: q in after <==> q in entries && !(target <= q)
    ensures ChildNames(after, p) == ChildNames(entries, p) - if p == Front(target) then {Last(target)} else {}
  {
    hide ChildNames;
    forall x ensures x in ChildNames(after, p) <==>
                     x in ChildNames(entries, p) && !(p == Front(target) && x == Last(target))
    {
      ChildNamesHas(after, p, x);
      ChildNamesHas(entries, p, x);
      BelowOne(target, p, x);
    }
  }

  /** A child of a path outside the target lies inside it exactly if it is the target. */
  lemma BelowOne(target: Path, p: Path, x: string)
    requires |target| > 0 && !(target <= p)
    ensures target <= p + [x] <==> p == Front(target) && x == Last(target)
  {
    var q := p + [x];
    assert q[..|p|] == p;
    if target <= q {
      assert target == q;
    }
    if p == Front(target) && x == Last(target) { assert q == target; }
  }
}
