/** Runs of the filesystem that show its documented promises failing: an entry created one level too
    deep to be found, a child with the empty name, and a counter that loses track. */
module FsWitnesses {
  import opened FsPath
  import opened FsFlat

  /** The path of `n` components, all `a`. */
  function NestedPath(n: nat): string {
    if n == 0 then "" else NestedPath(n - 1) + "/" + "a"
  }

  function As(n: nat): Path {
    seq(n, _ => "a")
  }

  lemma {:induction false} NestedWords(n: nat)
    ensures SplitPath(NestedPath(n)) == As(n)
    decreases n
  {
    hide SplitPath, Words;
    SplitPathIsWords(NestedPath(n));
    if n == 0 {
      WordsNoSlash("");
    } else {
      NestedWords(n - 1);
      SplitPathIsWords(NestedPath(n - 1));
      WordsJoin(NestedPath(n - 1), "a");
      WordsNoSlash("a");
      assert As(n) == As(n - 1) + ["a"];
    }
  }

  /** `n` nested directories, one in the other. */
  ghost predicate IsNest(f: Flat, n: nat) {
    && f.count == n + 1
    && (forall p :: p in f.entries <==> |p| <= n && p == As(|p|))
    && forall p :: p in f.entries ==> f.entries[p] == DirEntry
  }

  lemma NestParent(f: Flat, n: nat)
    requires IsNest(f, n) && n <= MAX_PATH_DEPTH
    ensures LocateParent(f.entries, NestedPath(n + 1)) == Ok((As(n), "a"))
  {
    hide SplitPath, ResolvePath;
    var path := NestedPath(n + 1);
    NestedWords(n + 1);
    ResolveAgrees(path);
    assert As(n + 1)[..n] == As(n);
    assert As(n) in f.entries;
  }

  /** A directory can be created inside the innermost of up to 16. */
  lemma NestGrows(f: Flat, n: nat, entry: Entry)
    requires IsNest(f, n) && n <= MAX_PATH_DEPTH
    ensures var made := Create(f, NestedPath(n + 1), entry);
            && made.1 == Ok(()) && made.0 == Flat(f.entries[As(n + 1) := entry], n + 2)
            && (entry == DirEntry ==> IsNest(made.0, n + 1))
  {
    hide NestedPath, LocateParent;
    NestParent(f, n);
    assert As(n) + ["a"] == As(n + 1);
    assert ChildNames(f.entries, As(n)) == {};
    var entries := f.entries[As(n + 1) := entry];
    forall p ensures p in entries <==> |p| <= n + 1 && p == As(|p|) {
      if |p| == n + 1 && p == As(|p|) { assert p == As(n + 1); }
    }
  }

  function NestCalls(n: nat): seq<Call> {
    if n == 0 then [] else NestCalls(n - 1) + [CreateDir(NestedPath(n))]
  }

  lemma AfterDir(calls: seq<Call>, path: string)
    ensures After(calls + [CreateDir(path)]) == Create(After(calls), path, DirEntry).0
  {
    hide Create;
    var longer := calls + [CreateDir(path)];
    assert longer[..|longer| - 1] == calls;
  }

  lemma EmptyNest()
    ensures IsNest(After([]), 0)
  {
    assert As(0) == [];
    assert After([]) == EmptyFlat();
  }

  lemma {:induction false} NestRun(n: nat)
    requires n <= MAX_PATH_DEPTH + 1
    ensures IsNest(After(NestCalls(n)), n)
    decreases n
  {
    hide Create, NestedPath, IsNest, After;
    if n == 0 {
      EmptyNest();
    } else {
      NestRun(n - 1);
      AfterDir(NestCalls(n - 1), NestedPath(n));
      NestGrows(After(NestCalls(n - 1)), n - 1, DirEntry);
    }
  }

  /** After sixteen nested directories a file is created at the seventeenth level and cannot be found. */
  lemma SeventeenthLevel()
    ensures var f := After(NestCalls(16));
            var made := Create(f, NestedPath(17), FileEntry([]));
            && made.1 == Ok(())
            && SplitPath(NestedPath(17)) in made.0.entries
            && Locate(made.0.entries, SplitPath(NestedPath(17))) == Err(PathTooDeep)
            && Read(made.0, NestedPath(17)) == Err(PathTooDeep)
  {
    hide Create, NestedPath, SplitPath, NestCalls, After;
    NestRun(16);
    NestGrows(After(NestCalls(16)), 16, FileEntry([]));
    NestedWords(17);
  }

  /** Two slashes create a child of the root with the empty name, and read as the root. */
  lemma EmptyName()
    ensures var made := Create(EmptyFlat(), "//", FileEntry([]));
            && made.1 == Ok(()) && [""] in made.0.entries
            && Read(made.0, "//") == Err(NotAFile)
  {
    hide SplitPath, ResolvePath;
    SlashesOnly();
    ResolveNoComponents("//");
    NoComponents("");
    assert ChildNames(EmptyFlat().entries, []) == {};
    var made := Create(EmptyFlat(), "//", FileEntry([]));
    assert [] + [""] == [""];
  }

  lemma SlashesOnly()
    ensures SplitPath("//") == []
  {
    hide SplitPath, Words;
    SplitPathIsWords("//");
    assert "//" == "" + "/" + "/" && "/" == "" + "/" + "";
    WordsJoin("", "/");
    WordsJoin("", "");
    WordsNoSlash("");
  }

  function LeakCalls(): seq<Call> {
    [CreateDir("/a"), CreateFile("/a/b"), RemovePath("/a")]
  }

  lemma LeakPaths()
    ensures SplitPath("/a") == ["a"] && SplitPath("/a/b") == ["a", "b"]
  {
    hide SplitPath, Words;
    assert "/a" == "" + "/" + "a" && "/a/b" == "/a" + "/" + "b";
    SplitPathIsWords("/a");
    SplitPathIsWords("/a/b");
    WordsJoin("", "a");
    WordsJoin("/a", "b");
    WordsNoSlash("");
    WordsNoSlash("a");
    WordsNoSlash("b");
  }

  /** After the two creations: the root, the directory and the file, all counted. */
  lemma BeforeRemoval()
    ensures After(LeakCalls()[..2]) == Flat(map[[] := DirEntry, ["a"] := DirEntry, ["a", "b"] := FileEntry([])], 3)
  {
    hide SplitPath, ResolvePath;
    LeakPaths();
    ResolveAgrees("/a");
    ResolveAgrees("/a/b");
    var e0 := EmptyFlat().entries;
    var e1 := e0[["a"] := DirEntry];
    assert ["a"][..0] == [] && [] + ["a"] == ["a"];
    assert ["a", "b"][..1] == ["a"] && ["a"] + ["b"] == ["a", "b"];
    assert ChildNames(e0, []) == {};
    assert ChildNames(e1, ["a"]) == {};
    assert Create(EmptyFlat(), "/a", DirEntry).0 == Flat(e1, 2);
    var calls := LeakCalls();
    assert calls[..2][..1] == calls[..1] && calls[..1][..0] == [];
    assert After(calls[..1]) == Flat(e1, 2);
  }

  /** Creating `/a` and `/a/b` and removing `/a` leaves one inode, and a counter of two. */
  lemma CounterLeaks()
    ensures var f := After(LeakCalls()); f.count == 2 && f.entries == map[[] := DirEntry] && |f.entries| == 1
  {
    hide SplitPath, ResolvePath, Create;
    BeforeRemoval();
    LeakPaths();
    ResolveAgrees("/a");
    var calls := LeakCalls();
    assert calls[..|calls| - 1] == calls[..2];
    var f := After(calls[..2]);
    assert ["a"][..0] == [] && [] + ["a"] == ["a"];
    assert Subtree(f.entries, ["a"]) == {["a"], ["a", "b"]};
    assert f.entries - {["a"], ["a", "b"]} == map[[] := DirEntry];
  }
}
