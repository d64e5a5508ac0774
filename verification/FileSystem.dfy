/** The in-memory filesystem object: a tree of inodes and an inode counter. Every operation is proved to
    do on the tree what its flat-map specification says. */
module FileSystems {
  import opened Options
  import opened FsNames
  import opened FsPath
  import opened FsFlat
  import opened FsTree

  /** What following `parts` from `root` yields. */
  function Found(root: Inode, parts: Path): Result<Inode> {
    if |parts| > MAX_PATH_DEPTH then Err(PathTooDeep)
    else
      match Lookup(root, parts)
      case None => Err(NotFound)
      case Some(n) => Ok(n)
  }

  method FindInode(root: Inode, path: string) returns (r: Result<Inode>)
    ensures r == Found(root, SplitPath(path))
  {
    hide SplitPath;
    var parts := SplitPath(path);
    if |parts| > MAX_PATH_DEPTH {
      return Err(PathTooDeep);
    }
    var current := root;
    for i := 0 to |parts|
      invariant Lookup(root, parts) == Lookup(current, parts[i..])
    {
      assert parts[i..][1..] == parts[i + 1..];
      match FindChild(current, parts[i]) {
        case None => return Err(NotFound);
        case Some(child) => current := child;
      }
    }
    return Ok(current);
  }

  method FindDir(root: Inode, path: string) returns (r: Result<Inode>)
    ensures r == match Found(root, SplitPath(path))
                 case Err(e) => Err(e)
                 case Ok(n) => if n.kind.Directory? then Ok(n) else Err(NotADirectory)
  {
    hide SplitPath;
    var found := FindInode(root, path);
    match found {
      case Err(e) => return Err(e);
      case Ok(dir) =>
        if dir.kind.Directory? { return Ok(dir); } else { return Err(NotADirectory); }
    }
  }

  /** A lookup in the tree is a lookup in the flat map. */
  lemma FoundIsLocate(root: Inode, entries: Entries, parts: Path)
    requires TreeOk(root, entries)
    ensures match Found(root, parts)
            case Err(e) => Locate(entries, parts) == Err(e)
            case Ok(n) => Locate(entries, parts) == Ok(EntryOf(n)) && Lookup(root, parts) == Some(n)
  {
    hide TreeOk;
    ViewOf(root, entries, parts);
  }

  class FileSystem {
    var root: Inode
    var inodeCount: nat

    /** The flat map the tree stands for. */
    ghost var entries: Entries

    ghost function AsFlat(): Flat
      reads this
    {
      Flat(entries, inodeCount)
    }

    ghost predicate Valid()
      reads this
    {
      TreeOk(root, entries) && FlatOk(AsFlat())
    }

    constructor ()
      ensures Valid() && AsFlat() == EmptyFlat()
    {
      root := NewDirectory("/");
      inodeCount := 1;
      entries := EmptyFlat().entries;
      new;
      NewTreeOk();
      EmptyFlatOk();
    }

    /** `create_file` and `create_dir`, which differ only in the inode they insert. */
    method CreateInode(path: string, directory: bool) returns (r: Result<()>)
      requires Valid()
      modifies this
      ensures Valid()
      ensures (AsFlat(), r) == Create(old(AsFlat()), path, if directory then DirEntry else FileEntry([]))
    {
      hide TreeOk, FlatOk, ChildNames, Subtree, SplitPath, ResolvePath;
      CreateKeepsOk(AsFlat(), path, if directory then DirEntry else FileEntry([]));
      if inodeCount >= MAX_TOTAL_INODES {
        return Err(TooManyInodes);
      }
      var resolved := ResolvePath(path);
      if resolved.Err? {
        return Err(resolved.error);
      }
      var (parent, name) := resolved.value;
      FoundIsLocate(root, entries, SplitPath(parent));
      var found := FindDir(root, parent);
      if found.Err? {
        return Err(found.error);
      }
      var dir := found.value;
      ghost var p := SplitPath(parent);
      LookupChild(root, p, name);
      ViewOf(root, entries, p + [name]);
      ChildrenAreChildNames(root, entries, p);
      if FindChild(dir, name).Some? {
        return Err(AlreadyExists);
      }
      if |dir.kind.children| >= MAX_DIR_CHILDREN {
        ChildCount(dir, entries, p);
        return Err(TooManyChildren);
      }
      ChildCount(dir, entries, p);
      var leaf := if directory then NewDirectory(name) else NewFile(name);
      AddLeafOk(root, entries, p, name, leaf);
      root := SetKind(root, SplitPath(parent), Directory(dir.kind.children[name := leaf]));
      entries := entries[p + [name] := EntryOf(leaf)];
      inodeCount := inodeCount + 1;
      return Ok(());
    }

    static lemma ChildCount(dir: Inode, e: Entries, p: Path)
      requires dir.kind.Directory? && dir.kind.children.Keys == ChildNames(e, p)
      ensures |dir.kind.children| == |ChildNames(e, p)|
    {
      assert |dir.kind.children.Keys| == |dir.kind.children|;
    }

    method ReadFile(path: string) returns (r: Result<Bytes>)
      requires Valid()
      ensures r == Read(AsFlat(), path)
    {
      hide TreeOk, FlatOk, SplitPath;
      FoundIsLocate(root, entries, SplitPath(path));
      var found := FindInode(root, path);
      match found {
        case Err(e) => return Err(e);
        case Ok(n) =>
          match n.kind {
            case File(data) => return Ok(data);
            case Directory(_) => return Err(NotAFile);
          }
      }
    }

    method WriteFile(path: string, data: Bytes) returns (r: Result<()>)
      requires Valid()
      modifies this
      ensures Valid()
      ensures (AsFlat(), r) == Write(old(AsFlat()), path, data)
    {
      hide TreeOk, FlatOk, SplitPath;
      WriteKeepsOk(AsFlat(), path, data);
      if |data| > MAX_FILE_SIZE {
        return Err(FileTooLarge);
      }
      FoundIsLocate(root, entries, SplitPath(path));
      var found := FindInode(root, path);
      if found.Err? {
        return Err(found.error);
      }
      match found.value.kind {
        case Directory(_) => return Err(NotAFile);
        case File(_) =>
          SetFileOk(root, entries, SplitPath(path), data);
          root := SetKind(root, SplitPath(path), File(data));
          entries := entries[SplitPath(path) := FileEntry(data)];
          return Ok(());
      }
    }

    method AppendFile(path: string, data: Bytes) returns (r: Result<()>)
      requires Valid()
      modifies this
      ensures Valid()
      ensures (AsFlat(), r) == Append(old(AsFlat()), path, data)
    {
      hide TreeOk, FlatOk, SplitPath;
      AppendKeepsOk(AsFlat(), path, data);
      FoundIsLocate(root, entries, SplitPath(path));
      var found := FindInode(root, path);
      if found.Err? {
        return Err(found.error);
      }
      match found.value.kind {
        case Directory(_) => return Err(NotAFile);
        case File(buf) =>
          if |buf| + |data| > MAX_FILE_SIZE {
            return Err(FileTooLarge);
          }
          SetFileOk(root, entries, SplitPath(path), buf + data);
          root := SetKind(root, SplitPath(path), File(buf + data));
          entries := entries[SplitPath(path) := FileEntry(buf + data)];
          return Ok(());
      }
    }

    /** The names in a directory, in ascending order. */
    method ListDir(path: string) returns (r: Result<seq<string>>)
      requires Valid()
      ensures r == match List(AsFlat(), path)
                   case Err(e) => Err(e)
                   case Ok(names) => Ok(Sorted(names))
      ensures r.Ok? ==> Ascending(r.value)
    {
      hide TreeOk, FlatOk, SplitPath, ChildNames, Sorted, Ascending;
      FoundIsLocate(root, entries, SplitPath(path));
      var found := FindInode(root, path);
      match found {
        case Err(e) => return Err(e);
        case Ok(n) =>
          match n.kind {
            case Directory(children) =>
              ChildrenAreChildNames(root, entries, SplitPath(path));
              SortedIsAscending(children.Keys);
              return Ok(Sorted(children.Keys));
            case File(_) => return Err(NotADirectory);
          }
      }
    }

    method PathExists(path: string) returns (r: bool)
      requires Valid()
      ensures r == Exists(AsFlat(), path)
    {
      hide TreeOk, FlatOk, SplitPath;
      FoundIsLocate(root, entries, SplitPath(path));
      var found := FindInode(root, path);
      return found.Ok?;
    }

    method RemovePath(path: string) returns (r: Result<()>)
      requires Valid()
      modifies this
      ensures Valid()
      ensures (AsFlat(), r) == Remove(old(AsFlat()), path)
    {
      hide TreeOk, FlatOk, ChildNames, Subtree, SplitPath, ResolvePath;
      RemoveKeepsOk(AsFlat(), path);
      var resolved := ResolvePath(path);
      if resolved.Err? {
        return Err(resolved.error);
      }
      var (parent, name) := resolved.value;
      FoundIsLocate(root, entries, SplitPath(parent));
      var found := FindDir(root, parent);
      if found.Err? {
        return Err(found.error);
      }
      var dir := found.value;
      ghost var p := SplitPath(parent);
      LookupChild(root, p, name);
      ViewOf(root, entries, p + [name]);
      if name !in dir.kind.children {
        return Err(NotFound);
      }
      RemoveChildOk(root, entries, p, name);
      root := SetKind(root, SplitPath(parent), Directory(dir.kind.children - {name}));
      entries := entries - Subtree(entries, p + [name]);
      inodeCount := if inodeCount == 0 then 0 else inodeCount - 1;
      return Ok(());
    }
  }
}
