/** Path strings of the in-memory filesystem: splitting into components, and splitting off the parent. */
module FsPath {
  import opened Options

  datatype FsError =
    | NotFound | AlreadyExists | NotAFile | NotADirectory | InvalidPath
    | FileTooLarge | TooManyChildren | PathTooDeep | TooManyInodes | DirectoryNotEmpty

  datatype Result<T> = Ok(value: T) | Err(error: FsError)

  /** A path as its components. */
  type Path = seq<string>

  // ---------------------------------------------------------------- string functions

  function TrimStart(s: string): string {
    if |s| > 0 && s[0] == '/' then TrimStart(s[1..]) else s
  }

  function TrimEnd(s: string): string {
    if |s| > 0 && s[|s| - 1] == '/' then TrimEnd(s[..|s| - 1]) else s
  }

  /** `s.trim_matches('/')` */
  function Trim(s: string): string {
    TrimEnd(TrimStart(s))
  }

  /** `s.split('/')` */
  function Split(s: string): (parts: seq<string>)
    ensures |parts| > 0
  {
    if s == "" then [""]
    else
      var rest := Split(s[1..]);
      if s[0] == '/' then [""] + rest else [[s[0]] + rest[0]] + rest[1..]
  }

  /** `.filter(|s| !s.is_empty())` */
  function NonEmpty(parts: seq<string>): seq<string> {
    if |parts| == 0 then []
    else (if parts[0] == "" then [] else [parts[0]]) + NonEmpty(parts[1..])
  }

  /** `s.rfind('/')` */
  function RFind(s: string): (r: Option<nat>)
    ensures r.Some? ==> r.value < |s|
  {
    if |s| == 0 then None
    else if s[|s| - 1] == '/' then Some(|s| - 1)
    else RFind(s[..|s| - 1])
  }

  /** `split_path`: the components a lookup follows. */
  function SplitPath(path: string): Path {
    NonEmpty(Split(Trim(path)))
  }

  /** `resolve_path`: the parent's path and the last name. */
  function ResolvePath(path: string): Result<(string, string)> {
    if path == "" || path == "/" then Err(InvalidPath)
    else
      var t := Trim(path);
      match RFind(t)
      case Some(idx) =>
        var parent, name := t[..idx], t[idx + 1..];
        if name == "" || name == "." || name == ".." then Err(InvalidPath) else Ok((parent, name))
      case None =>
        if t == "." || t == ".." then Err(InvalidPath) else Ok(("", t))
  }

  // ---------------------------------------------------------------- components of a string

  /** The non-empty stretches between slashes. */
  function Words(s: string): Path {
    NonEmpty(Split(s))
  }

  predicate NoSlash(s: string) {
    forall i: nat :: i < |s| ==> s[i] != '/'
  }

  lemma {:induction false} SplitJoin(a: string, b: string)
    ensures Split(a + "/" + b) == Split(a) + Split(b)
  {
    var s := a + "/" + b;
    if a == "" {
      assert s[1..] == b;
    } else {
      assert s[1..] == a[1..] + "/" + b;
      SplitJoin(a[1..], b);
    }
  }

  lemma {:induction false} NonEmptyConcat(x: seq<string>, y: seq<string>)
    ensures NonEmpty(x + y) == NonEmpty(x) + NonEmpty(y)
  {
    if x == [] {
      assert x + y == y;
    } else {
      assert (x + y)[1..] == x[1..] + y;
      NonEmptyConcat(x[1..], y);
    }
  }

  /** A slash separates components. */
  lemma WordsJoin(a: string, b: string)
    ensures Words(a + "/" + b) == Words(a) + Words(b)
  {
    SplitJoin(a, b);
    NonEmptyConcat(Split(a), Split(b));
  }

  lemma {:induction false} SplitNoSlash(s: string)
    requires NoSlash(s)
    ensures Split(s) == [s]
  {
    if s != "" {
      assert NoSlash(s[1..]) by { forall i: nat | i < |s[1..]| ensures s[1..][i] != '/' { assert s[1..][i] == s[i + 1]; } }
      SplitNoSlash(s[1..]);
      assert s == [s[0]] + s[1..];
    }
  }

  lemma WordsNoSlash(s: string)
    requires NoSlash(s)
    ensures Words(s) == if s == "" then [] else [s]
  {
    SplitNoSlash(s);
    assert NonEmpty([]) == [];
  }

  lemma {:induction false} TrimStartWords(s: string)
    ensures Words(TrimStart(s)) == Words(s)
    ensures TrimStart(s) == "" || TrimStart(s)[0] != '/'
  {
    if |s| > 0 && s[0] == '/' {
      TrimStartWords(s[1..]);
      assert s == "" + "/" + s[1..];
      WordsJoin("", s[1..]);
      WordsNoSlash("");
    }
  }

  lemma {:induction false} TrimEndWords(s: string)
    ensures Words(TrimEnd(s)) == Words(s)
    ensures TrimEnd(s) == "" || TrimEnd(s)[|TrimEnd(s)| - 1] != '/'
  {
    if |s| > 0 && s[|s| - 1] == '/' {
      TrimEndWords(s[..|s| - 1]);
      assert s == s[..|s| - 1] + "/" + "";
      WordsJoin(s[..|s| - 1], "");
      WordsNoSlash("");
    }
  }

  /** Leading and trailing slashes add no components. */
  lemma SplitPathIsWords(path: string)
    ensures SplitPath(path) == Words(path) == Words(Trim(path))
    ensures Trim(path) == "" || Trim(path)[|Trim(path)| - 1] != '/'
  {
    TrimStartWords(path);
    TrimEndWords(TrimStart(path));
  }

  lemma {:induction false} RFindSplits(s: string)
    ensures RFind(s).None? ==> NoSlash(s)
    ensures RFind(s).Some? ==>
              var i := RFind(s).value;
              s == s[..i] + "/" + s[i + 1..] && NoSlash(s[i + 1..])
  {
    if |s| > 0 {
      var n := |s| - 1;
      if s[n] == '/' {
        assert s == s[..n] + "/" + s[n + 1..];
      } else {
        var front := s[..n];
        RFindSplits(front);
        assert s == front + [s[n]];
        if RFind(front).Some? {
          var i := RFind(front).value;
          assert s[i + 1..] == front[i + 1..] + [s[n]];
          assert s[..i] == front[..i];
        }
      }
    }
  }

  // ---------------------------------------------------------------- components are proper names

  /** Components are non-empty and contain no slash. */
  ghost predicate ProperNames(p: Path) {
    forall i: nat :: i < |p| ==> p[i] != "" && NoSlash(p[i])
  }

  lemma {:induction false} SplitHasNoSlash(s: string)
    ensures forall i: nat :: i < |Split(s)| ==> NoSlash(Split(s)[i])
  {
    if s != "" { SplitHasNoSlash(s[1..]); }
  }

  lemma {:induction false} NonEmptyProper(parts: seq<string>)
    requires forall i: nat :: i < |parts| ==> NoSlash(parts[i])
    ensures ProperNames(NonEmpty(parts))
  {
    if |parts| > 0 {
      assert forall i: nat :: i < |parts[1..]| ==> parts[1..][i] == parts[i + 1];
      NonEmptyProper(parts[1..]);
    }
  }

  lemma SplitPathProper(path: string)
    ensures ProperNames(SplitPath(path))
  {
    SplitHasNoSlash(Trim(path));
    NonEmptyProper(Split(Trim(path)));
  }

  // ---------------------------------------------------------------- the two resolutions agree

  /** When the path has components, `resolve_path` yields the parent's components and the last one; it
      rejects exactly the last names "." and "..". */
  lemma ResolveAgrees(path: string)
    requires SplitPath(path) != []
    ensures var parts := SplitPath(path);
            var last := parts[|parts| - 1];
            if last == "." || last == ".." then
              ResolvePath(path) == Err(InvalidPath)
            else
              && ResolvePath(path).Ok?
              && SplitPath(ResolvePath(path).value.0) == parts[..|parts| - 1]
              && ResolvePath(path).value.1 == last
  {
    hide Trim, SplitPath, Words, RFind, NoSlash;
    var t := Trim(path);
    var parts := SplitPath(path);
    SplitPathIsWords(path);
    RFindSplits(t);
    assert path != "" && path != "/" by { NoComponents(path); }
    match RFind(t) {
      case Some(idx) =>
        var parent, name := t[..idx], t[idx + 1..];
        WordsJoin(parent, name);
        WordsNoSlash(name);
        assert name != "" by { assert t[|t| - 1] != '/'; }
        SplitPathIsWords(parent);
        assert parts == Words(parent) + [name];
      case None =>
        WordsNoSlash(t);
        assert parts == [t];
        WordsNoSlash("");
        SplitPathIsWords("");
    }
  }

  lemma NoComponents(path: string)
    ensures path == "" || path == "/" ==> SplitPath(path) == []
  {
    SplitPathIsWords(path);
    WordsNoSlash("");
    if path == "/" {
      assert path == "" + "/" + "";
      WordsJoin("", "");
    }
  }

  /** With no component at all, the empty path and "/" are rejected, and longer runs of slashes resolve to
      the empty name in the root. */
  lemma ResolveNoComponents(path: string)
    requires SplitPath(path) == []
    ensures ResolvePath(path) == if path == "" || path == "/" then Err(InvalidPath) else Ok(("", ""))
  {
    var t := Trim(path);
    SplitPathIsWords(path);
    RFindSplits(t);
    match RFind(t) {
      case Some(idx) =>
        assert t[idx] == '/';
        var parent, name := t[..idx], t[idx + 1..];
        WordsJoin(parent, name);
        WordsNoSlash(name);
      case None => WordsNoSlash(t);
    }
  }
}
