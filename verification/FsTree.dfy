/** The inode tree, lookups along a path, and what replacing one node's contents does to all lookups. */
module FsTree {
  import opened Options
  import opened FsPath
  import opened FsFlat

  datatype InodeKind = File(data: Bytes) | Directory(children: map<string, Inode>)

  datatype Inode = Inode(name: string, kind: InodeKind)

  function NewFile(name: string): Inode {
    Inode(name, File([]))
  }

  function NewDirectory(name: string): Inode {
    Inode(name, Directory(map[]))
  }

  function FindChild(n: Inode, name: string): Option<Inode> {
    match n.kind
    case File(_) => None
    case Directory(children) => if name in children then Some(children[name]) else None
  }

  /** The node at the end of `parts`. */
  function Lookup(n: Inode, parts: Path): Option<Inode>
    decreases |parts|
  {
    if |parts| == 0 then Some(n)
    else
      match FindChild(n, parts[0])
      case None => None
      case Some(child) => Lookup(child, parts[1..])
  }

  /** `n` with the contents of the node at `parts` replaced. */
  function SetKind(n: Inode, parts: Path, kind: InodeKind): Inode
    requires Lookup(n, parts).Some?
    decreases |parts|
  {
    if |parts| == 0 then n.(kind := kind)
    else
      var child := FindChild(n, parts[0]).value;
      n.(kind := Directory(n.kind.children[parts[0] := SetKind(child, parts[1..], kind)]))
  }

  // ---------------------------------------------------------------- what a path shows

  function EntryOf(n: Inode): Entry {
    match n.kind
    case File(data) => FileEntry(data)
    case Directory(_) => DirEntry
  }

  /** A node's own name and entry. */
  datatype View = View(name: string, entry: Entry)

  function ViewAt(n: Inode, q: Path): Option<View> {
    match Lookup(n, q)
    case None => None
    case Some(m) => Some(View(m.name, EntryOf(m)))
  }

  lemma {:induction false} LookupConcat(n: Inode, p: Path, q: Path)
    ensures Lookup(n, p + q) == match Lookup(n, p) case None => None case Some(m) => Lookup(m, q)
    decreases |p|
  {
    if |p| == 0 {
      assert p + q == q;
    } else {
      assert (p + q)[1..] == p[1..] + q;
      match FindChild(n, p[0]) {
        case None =>
        case Some(child) => LookupConcat(child, p[1..], q);
      }
    }
  }

  lemma LookupChild(n: Inode, p: Path, name: string)
    ensures Lookup(n, p + [name]) == match Lookup(n, p) case None => None case Some(m) => FindChild(m, name)
  {
    LookupConcat(n, p, [name]);
    if Lookup(n, p).Some? {
      var m := Lookup(n, p).value;
      assert [name][1..] == [];
    }
  }

  /** Replacing the contents at `p` changes what is seen at and below `p`, and nothing else. */
  lemma {:induction false} SetKindView(n: Inode, p: Path, kind: InodeKind, q: Path)
    requires Lookup(n, p).Some?
    ensures ViewAt(SetKind(n, p, kind), q) ==
            if p <= q then ViewAt(Lookup(n, p).value.(kind := kind), q[|p|..]) else ViewAt(n, q)
    decreases |p|
  {
    var n' := SetKind(n, p, kind);
    if |p| == 0 {
      assert q[|p|..] == q;
    } else if |q| == 0 {
    } else {
      var child := FindChild(n, p[0]).value;
      assert p <= q <==> p[0] == q[0] && p[1..] <= q[1..] by { PrefixTail(p, q); }
      if q[0] == p[0] {
        SetKindView(child, p[1..], kind, q[1..]);
        if p <= q { assert q[1..][|p[1..]|..] == q[|p|..]; }
      }
    }
  }

  lemma PrefixTail(p: Path, q: Path)
    requires |p| > 0 && |q| > 0
    ensures p <= q <==> p[0] == q[0] && p[1..] <= q[1..]
  {
    if p[0] == q[0] && p[1..] <= q[1..] {
      assert p == [p[0]] + p[1..] && q == [q[0]] + q[1..];
    }
    if p <= q {
      assert q[..|p|] == p;
      assert q[1..][..|p| - 1] == p[1..];
    }
  }

  // ---------------------------------------------------------------- the tree and the flat map

  /** The tree shows exactly the entries of the flat map. */
  ghost predicate Represents(root: Inode, entries: Entries) {
    forall q: Path {:trigger Lookup(root, q)} :: ShownAt(root, entries, q)
  }

  ghost predicate ShownAt(root: Inode, entries: Entries, q: Path) {
    match Lookup(root, q)
    case None => q !in entries
    case Some(m) => q in entries && entries[q] == EntryOf(m)
  }

  /** Each child's own name is its key. */
  ghost predicate NamesMatch(root: Inode) {
    forall q: Path {:trigger Lookup(root, q)} ::
      |q| > 0 && Lookup(root, q).Some? ==> Lookup(root, q).value.name == Last(q)
  }

  /** What is shown at `q`, for every `q`. */
  ghost predicate TreeOk(root: Inode, entries: Entries) {
    Represents(root, entries) && NamesMatch(root)
  }

  lemma NewTreeOk()
    ensures TreeOk(NewDirectory("/"), EmptyFlat().entries)
  {
    var root := NewDirectory("/");
    forall q: Path ensures ShownAt(root, EmptyFlat().entries, q) && (|q| > 0 ==> Lookup(root, q).None?) { }
  }

  /** The tree after a change, compared view by view. */
  lemma TreeFromViews(root: Inode, entries: Entries)
    requires forall q: Path {:trigger ViewAt(root, q)} ::
               match ViewAt(root, q)
               case None => q !in entries
               case Some(v) => q in entries && entries[q] == v.entry && (|q| > 0 ==> v.name == Last(q))
    ensures TreeOk(root, entries)
  {
    forall q: Path
      ensures ShownAt(root, entries, q)
      ensures |q| > 0 && Lookup(root, q).Some? ==> Lookup(root, q).value.name == Last(q)
    {
      assert ViewAt(root, q) == ViewAt(root, q);
    }
  }

  lemma ViewOf(root: Inode, entries: Entries, q: Path)
    requires TreeOk(root, entries)
    ensures match ViewAt(root, q)
            case None => q !in entries
            case Some(v) => q in entries && entries[q] == v.entry && (|q| > 0 ==> v.name == Last(q))
  {
    var found := Lookup(root, q);
    assert ShownAt(root, entries, q);
  }

  /** A directory's children are the names the flat map lists. */
  lemma ChildrenAreChildNames(root: Inode, entries: Entries, p: Path)
    requires TreeOk(root, entries) && Lookup(root, p).Some? && Lookup(root, p).value.kind.Directory?
    ensures Lookup(root, p).value.kind.children.Keys == ChildNames(entries, p)
  {
    var children := Lookup(root, p).value.kind.children;
    forall name ensures name in children <==> name in ChildNames(entries, p) {
      LookupChild(root, p, name);
      ChildNamesHas(entries, p, name);
      ViewOf(root, entries, p + [name]);
    }
  }

  // ---------------------------------------------------------------- the three kinds of change

  lemma SetFileOk(root: Inode, entries: Entries, p: Path, data: Bytes)
    requires TreeOk(root, entries) && Lookup(root, p).Some? && Lookup(root, p).value.kind.File?
    ensures TreeOk(SetKind(root, p, File(data)), entries[p := FileEntry(data)])
  {
    hide TreeOk;
    var root' := SetKind(root, p, File(data));
    var entries' := entries[p := FileEntry(data)];
    forall q: Path
      ensures match ViewAt(root', q)
              case None => q !in entries'
              case Some(v) => q in entries' && entries'[q] == v.entry && (|q| > 0 ==> v.name == Last(q))
    {
      SetKindView(root, p, File(data), q);
      ViewOf(root, entries, q);
      if p <= q { SeenBelowFile(root, p, data, q); }
    }
    TreeFromViews(root', entries');
  }

  lemma SeenBelowFile(root: Inode, p: Path, data: Bytes, q: Path)
    requires Lookup(root, p).Some? && Lookup(root, p).value.kind.File? && p <= q
    ensures var m := Lookup(root, p).value;
            && (q == p ==> ViewAt(m.(kind := File(data)), q[|p|..]) == Some(View(m.name, FileEntry(data)))
                           && ViewAt(root, q) == Some(View(m.name, EntryOf(m))))
            && (q != p ==> ViewAt(m.(kind := File(data)), q[|p|..]) == None && ViewAt(root, q) == None)
  {
    assert q == p + q[|p|..];
    LookupConcat(root, p, q[|p|..]);
  }

  /** Adding a leaf under a fresh name. */
  lemma AddLeafOk(root: Inode, entries: Entries, dir: Path, name: string, leaf: Inode)
    requires TreeOk(root, entries)
    requires Lookup(root, dir).Some? && Lookup(root, dir).value.kind.Directory?
    requires FindChild(Lookup(root, dir).value, name).None?
    requires leaf == NewFile(name) || leaf == NewDirectory(name)
    ensures var kind := Directory(Lookup(root, dir).value.kind.children[name := leaf]);
            TreeOk(SetKind(root, dir, kind), entries[dir + [name] := EntryOf(leaf)])
  {
    hide TreeOk;
    var kind := Directory(Lookup(root, dir).value.kind.children[name := leaf]);
    var root' := SetKind(root, dir, kind);
    var entries' := entries[dir + [name] := EntryOf(leaf)];
    forall q: Path
      ensures match ViewAt(root', q)
              case None => q !in entries'
              case Some(v) => q in entries' && entries'[q] == v.entry && (|q| > 0 ==> v.name == Last(q))
    {
      SetKindView(root, dir, kind, q);
      ViewOf(root, entries, q);
      if dir <= q { SeenBelowAdded(root, dir, name, leaf, q); }
    }
    TreeFromViews(root', entries');
  }

  lemma SeenBelowAdded(root: Inode, dir: Path, name: string, leaf: Inode, q: Path)
    requires Lookup(root, dir).Some? && Lookup(root, dir).value.kind.Directory? && dir <= q
    requires FindChild(Lookup(root, dir).value, name).None?
    requires leaf == NewFile(name) || leaf == NewDirectory(name)
    ensures var m := Lookup(root, dir).value;
            var m' := m.(kind := Directory(m.kind.children[name := leaf]));
            ViewAt(m', q[|dir|..]) ==
              if q == dir + [name] then Some(View(name, EntryOf(leaf))) else ViewAt(root, q)
  {
    var m := Lookup(root, dir).value;
    var m' := m.(kind := Directory(m.kind.children[name := leaf]));
    var rest := q[|dir|..];
    assert q == dir + rest;
    LookupConcat(root, dir, rest);
    if |rest| > 0 {
      if rest[0] == name {
        assert rest == [name] <==> |rest| == 1;
        LeafHasNothing(leaf, rest[1..]);
      }
    }
  }

  lemma LeafHasNothing(leaf: Inode, q: Path)
    requires match leaf.kind case File(_) => true case Directory(children) => children == map[]
    ensures Lookup(leaf, q) == if q == [] then Some(leaf) else None
  {
  }

  /** Removing a child, with everything below it. */
  lemma RemoveChildOk(root: Inode, entries: Entries, dir: Path, name: string)
    requires TreeOk(root, entries)
    requires Lookup(root, dir).Some? && Lookup(root, dir).value.kind.Directory?
    ensures var kind := Directory(Lookup(root, dir).value.kind.children - {name});
            TreeOk(SetKind(root, dir, kind), entries - Subtree(entries, dir + [name]))
  {
    hide TreeOk;
    var kind := Directory(Lookup(root, dir).value.kind.children - {name});
    var root' := SetKind(root, dir, kind);
    var entries' := entries - Subtree(entries, dir + [name]);
    forall q: Path
      ensures match ViewAt(root', q)
              case None => q !in entries'
              case Some(v) => q in entries' && entries'[q] == v.entry && (|q| > 0 ==> v.name == Last(q))
    {
      SetKindView(root, dir, kind, q);
      ViewOf(root, entries, q);
      if dir <= q { SeenBelowRemoved(root, dir, name, q); } else { NotBelow(dir, name, q); }
    }
    TreeFromViews(root', entries');
  }

  lemma NotBelow(dir: Path, name: string, q: Path)
    requires !(dir <= q)
    ensures !(dir + [name] <= q)
  {
    assert dir <= dir + [name];
  }

  lemma SeenBelowRemoved(root: Inode, dir: Path, name: string, q: Path)
    requires Lookup(root, dir).Some? && Lookup(root, dir).value.kind.Directory? && dir <= q
    ensures var m := Lookup(root, dir).value;
            var m' := m.(kind := Directory(m.kind.children - {name}));
            ViewAt(m', q[|dir|..]) == if dir + [name] <= q then None else ViewAt(root, q)
  {
    var rest := q[|dir|..];
    assert q == dir + rest;
    LookupConcat(root, dir, rest);
    assert dir + [name] <= q <==> |rest| > 0 && rest[0] == name;
  }
}
