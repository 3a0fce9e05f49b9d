/**
 * The filesystem the scratch-directory code talks to, as an abstract value.
 *
 * A tree is a finite map from paths (sequences of name segments) to nodes,
 * each either a directory or a file holding bytes. The primitives the core
 * calls (create a directory, create a directory and its ancestors, list a
 * directory, read metadata, copy a file, remove a directory tree) are pure
 * functions from a tree to a result and a new tree. Faults that a real
 * filesystem can raise at any call (permissions, devices, races) are
 * injected through an `Env`, which also fixes the order in which a
 * directory lists its entries.
 */
module Fs {

  type Segment = string
  type Path = seq<Segment>
  type Bytes = seq<bv8>

  datatype Node = Dir | File(contents: Bytes)

  type Tree = map<Path, Node>

  /** The kinds of `io::Error` the core can surface. `Injected` stands for
      any fault the model does not derive from the tree itself. */
  datatype ErrorKind =
    | NotFound
    | AlreadyExists
    | NotADirectory
    | IsADirectory
    | InvalidInput
    | Injected

  datatype Result<T> = Ok(value: T) | Err(error: ErrorKind)

  datatype Option<T> = None | Some(value: T)

  /** What a state-changing operation reports (`io::Result<()>`), with the
      tree it leaves behind, also when it fails part-way. */
  datatype Effect = Effect(status: Result<()>, tree: Tree)

  /** The oracle for everything the tree does not determine: the order of a
      directory's entries, and which primitive calls fail. `nextEntryFails(p, i)`
      is the i-th call to fetch the next entry while listing `p` (the call at
      index |order(p)| is the one that reports the end). */
  datatype Env = Env(
    order: Path -> seq<Segment>,
    readDirFails: Path -> bool,
    nextEntryFails: (Path, nat) -> bool,
    listMetaFails: Path -> bool,
    copyMetaFails: Path -> bool,
    writeFails: Path -> bool)

  predicate IsPrefix(p: Path, q: Path) {
    |p| <= |q| && q[..|p|] == p
  }

  predicate IsStrictPrefix(p: Path, q: Path) {
    |p| < |q| && q[..|p|] == p
  }

  function Parent(p: Path): Path
    requires p != []
  {
    p[..|p| - 1]
  }

  predicate IsDir(t: Tree, p: Path) {
    p in t && t[p].Dir?
  }

  /** A well-formed tree: every entry other than the root sits inside a directory. */
  ghost predicate Valid(t: Tree) {
    forall p :: p in t && p != [] ==> IsDir(t, Parent(p))
  }

  /** Every entry strictly below `p`. */
  ghost function Subtree(t: Tree, p: Path): set<Path> {
    set k | k in t && IsStrictPrefix(p, k)
  }

  /** The immediate children of `p` that the tree holds. */
  ghost function Children(t: Tree, p: Path): set<Path> {
    set k | k in t && |k| == |p| + 1 && IsPrefix(p, k)
  }

  predicate Distinct<T(==)>(s: seq<T>) {
    forall i, j :: 0 <= i < j < |s| ==> s[i] != s[j]
  }

  /** The paths of the entries named `names` inside `p`, in that order. */
  function ChildPaths(p: Path, names: seq<Segment>): (cs: seq<Path>)
    ensures |cs| == |names|
    ensures forall i :: 0 <= i < |cs| ==> cs[i] == p + [names[i]]
  {
    seq(|names|, i requires 0 <= i < |names| => p + [names[i]])
  }

  /** Each path of `ChildPaths(p, names)` is an immediate child of `p`. */
  lemma ChildPathsShape(p: Path, names: seq<Segment>, x: Path)
    requires x in ChildPaths(p, names)
    ensures |x| == |p| + 1 && x[..|p|] == p && Parent(x) == p
  {
    var i :| 0 <= i < |names| && ChildPaths(p, names)[i] == x;
    assert x == p + [names[i]];
  }

  /** The read order is a faithful listing of each directory: every child
      exactly once and nothing else. */
  ghost predicate Enumerates(t: Tree, env: Env) {
    forall p :: IsDir(t, p) ==>
      Distinct(env.order(p)) && (set c | c in ChildPaths(p, env.order(p))) == Children(t, p)
  }

  /** `fs::create_dir`: fails if the path exists or its parent is not a directory. */
  function CreateDir(t: Tree, env: Env, p: Path): (r: Result<Tree>)
    ensures r.Ok? <==> !env.writeFails(p) && p !in t && (p == [] || IsDir(t, Parent(p)))
    ensures r.Ok? ==> r.value.Keys == t.Keys + {p} && IsDir(r.value, p)
                      && forall q :: q in t ==> r.value[q] == t[q]
    ensures r.Err? && !env.writeFails(p) && p in t ==> r.error == AlreadyExists
    ensures r.Ok? && Valid(t) ==> Valid(r.value)
  {
    if env.writeFails(p) then Err(Injected)
    else if p in t then Err(AlreadyExists)
    else if p != [] && Parent(p) !in t then Err(NotFound)
    else if p != [] && !IsDir(t, Parent(p)) then Err(NotADirectory)
    else Ok(t[p := Dir])
  }

  /** The recursion behind `fs::create_dir_all`: create every missing
      ancestor of `p`, then `p`; an existing directory is left as it is. */
  function MakeDirs(t: Tree, p: Path): (r: Result<Tree>)
    decreases |p|
    ensures r.Ok? ==> IsDir(r.value, p)
    ensures r.Ok? ==> t.Keys <= r.value.Keys && forall q :: q in t ==> r.value[q] == t[q]
    ensures r.Ok? ==> forall q :: q in r.value && q !in t ==> IsPrefix(q, p) && r.value[q] == Dir
    ensures r.Err? ==> r.error == AlreadyExists || r.error == NotADirectory
    ensures IsDir(t, p) ==> r == Ok(t)
  {
    if p in t then
      if t[p].Dir? then Ok(t) else Err(AlreadyExists)
    else if p == [] then Ok(t[p := Dir])
    else if Parent(p) in t && t[Parent(p)].File? then Err(NotADirectory)
    else
      match MakeDirs(t, Parent(p))
      case Err(e) => Err(e)
      case Ok(t1) => Ok(t1[p := Dir])
  }

  /** `fs::create_dir_all`. */
  function CreateDirAll(t: Tree, env: Env, p: Path): (r: Result<Tree>)
    ensures r.Ok? ==> IsDir(r.value, p)
    ensures r.Ok? ==> t.Keys <= r.value.Keys && forall q :: q in t ==> r.value[q] == t[q]
    ensures r.Ok? ==> forall q :: q in r.value && q !in t ==> IsPrefix(q, p) && r.value[q] == Dir
    ensures r.Err? ==> r.error in {AlreadyExists, NotADirectory, Injected}
    ensures !env.writeFails(p) && IsDir(t, p) ==> r == Ok(t)
  {
    if env.writeFails(p) then Err(Injected) else MakeDirs(t, p)
  }

  /** `DirEntry::metadata`: the node at `p`, unless the call faults. */
  function Metadata(t: Tree, p: Path, fails: bool): (r: Result<Node>)
    ensures r.Ok? <==> !fails && p in t
    ensures r.Ok? ==> r.value == t[p]
    ensures r.Err? && !fails ==> r.error == NotFound
  {
    if fails then Err(Injected)
    else if p !in t then Err(NotFound)
    else Ok(t[p])
  }

  /** `fs::read_dir`: the names of `p`'s entries in read order. */
  function ReadDir(t: Tree, env: Env, p: Path): (r: Result<seq<Segment>>)
    ensures r.Ok? <==> !env.readDirFails(p) && IsDir(t, p)
    ensures r.Ok? ==> r.value == env.order(p)
  {
    if env.readDirFails(p) then Err(Injected)
    else if p !in t then Err(NotFound)
    else if t[p].File? then Err(NotADirectory)
    else Ok(env.order(p))
  }

  /** `fs::copy`: the bytes of the file `src` in `from` are written to `dst`
      in `to`, replacing a file already there. */
  function CopyFile(from: Tree, env: Env, src: Path, to: Tree, dst: Path): (r: Result<Tree>)
    ensures r.Ok? <==> !env.writeFails(dst) && src in from && from[src].File?
                       && !IsDir(to, dst) && dst != [] && IsDir(to, Parent(dst))
    ensures r.Ok? ==> r.value.Keys == to.Keys + {dst} && r.value[dst] == from[src]
                      && forall q :: q in to && q != dst ==> r.value[q] == to[q]
    ensures (r.Err? && !env.writeFails(dst) && src in from && from[src].File? && dst != []
             && !IsDir(to, dst)) ==> (r.error == NotFound <==> Parent(dst) !in to)
  {
    if env.writeFails(dst) then Err(Injected)
    else if src !in from then Err(NotFound)
    else if from[src].Dir? then Err(InvalidInput)
    else if IsDir(to, dst) then Err(IsADirectory)
    else if dst == [] || Parent(dst) !in to then Err(NotFound)
    else if to[Parent(dst)].File? then Err(NotADirectory)
    else Ok(to[dst := from[src]])
  }

  /** `fs::remove_dir_all`: `p` and everything beneath it disappear. */
  function RemoveDirAll(t: Tree, env: Env, p: Path): (r: Result<Tree>)
    ensures r.Ok? <==> !env.writeFails(p) && IsDir(t, p)
    ensures r.Err? && !env.writeFails(p) && p !in t ==> r.error == NotFound
    ensures r.Ok? ==> forall q :: q in r.value <==> q in t && !IsPrefix(p, q)
    ensures r.Ok? ==> forall q :: q in r.value ==> r.value[q] == t[q]
  {
    if env.writeFails(p) then Err(Injected)
    else if p !in t then Err(NotFound)
    else if t[p].File? then Err(NotADirectory)
    else Ok(map q | q in t && !IsPrefix(p, q) :: t[q])
  }

  // ---------------------------------------------------------------------
  // Facts about paths and well-formed trees
  // ---------------------------------------------------------------------

  /** In a well-formed tree every proper ancestor of an entry is a directory. */
  lemma {:induction false} AncestorIsDir(t: Tree, k: Path, j: nat)
    requires Valid(t) && k in t && j < |k|
    ensures IsDir(t, k[..j])
    decreases |k| - j
  {
    assert IsDir(t, Parent(k));
    if j < |k| - 1 {
      AncestorIsDir(t, Parent(k), j);
      assert Parent(k)[..j] == k[..j];
    } else {
      assert Parent(k) == k[..j];
    }
  }

  /** Removing a directory keeps a tree well-formed. */
  lemma RemoveDirAllValid(t: Tree, env: Env, p: Path)
    requires Valid(t) && RemoveDirAll(t, env, p).Ok?
    ensures Valid(RemoveDirAll(t, env, p).value)
  {
    var r := RemoveDirAll(t, env, p).value;
    forall q | q in r && q != []
      ensures IsDir(r, Parent(q))
    {
      assert IsDir(t, Parent(q));
    }
  }

  /** Creating directories keeps a tree well-formed. */
  lemma {:induction false} MakeDirsValid(t: Tree, p: Path)
    requires Valid(t) && MakeDirs(t, p).Ok?
    ensures Valid(MakeDirs(t, p).value)
    decreases |p|
  {
    if p !in t && p != [] {
      MakeDirsValid(t, Parent(p));
    }
  }

  lemma CreateDirAllValid(t: Tree, env: Env, p: Path)
    requires Valid(t) && CreateDirAll(t, env, p).Ok?
    ensures Valid(CreateDirAll(t, env, p).value)
  {
    MakeDirsValid(t, p);
  }

  /** No prefix of `p` up to length `n` is a file of `t`. */
  ghost predicate NoFileAlong(t: Tree, p: Path, n: nat)
    requires n <= |p|
  {
    forall j :: 0 <= j <= n && p[..j] in t ==> t[p[..j]].Dir?
  }

  /** For a path that is absent, no prefix is a file exactly when no prefix
      of its parent is a file. */
  lemma NoFileAlongParent(t: Tree, p: Path)
    requires p != [] && p !in t
    ensures NoFileAlong(t, p, |p|) <==> NoFileAlong(t, Parent(p), |Parent(p)|)
  {
    var q := Parent(p);
    assert forall j :: 0 <= j <= |q| ==> q[..j] == p[..j];
    assert p[..|p|] == p;
  }

  /** For a path that is present, no prefix is a file exactly when it is a directory. */
  lemma NoFileAlongPresent(t: Tree, p: Path)
    requires Valid(t) && p in t
    ensures NoFileAlong(t, p, |p|) <==> t[p].Dir?
  {
    assert p[..|p|] == p;
    if t[p].Dir? {
      forall j | 0 <= j < |p| ensures IsDir(t, p[..j]) {
        AncestorIsDir(t, p, j);
      }
    }
  }

  /** In a well-formed tree, `create_dir_all` succeeds (absent injected faults)
      exactly when no prefix of the path is a file. */
  lemma {:induction false} MakeDirsSucceeds(t: Tree, p: Path)
    requires Valid(t)
    ensures MakeDirs(t, p).Ok? <==> NoFileAlong(t, p, |p|)
    decreases |p|
  {
    if p in t {
      NoFileAlongPresent(t, p);
    } else if p != [] {
      var q := Parent(p);
      NoFileAlongParent(t, p);
      if q in t && t[q].File? {
        NoFileAlongPresent(t, q);
      } else {
        MakeDirsSucceeds(t, q);
      }
    }
  }

  lemma CopyFileValid(from: Tree, env: Env, src: Path, to: Tree, dst: Path)
    requires Valid(to) && CopyFile(from, env, src, to, dst).Ok?
    ensures Valid(CopyFile(from, env, src, to, dst).value)
  {
  }

  // ---------------------------------------------------------------------
  // Sequence facts, stated once so that larger proofs need not rediscover them
  // ---------------------------------------------------------------------

  lemma AppendAssoc<T>(a: seq<T>, b: seq<T>, c: seq<T>)
    ensures (a + b) + c == a + (b + c)
  {
  }

  lemma InitLast<T>(s: seq<T>)
    requires s != []
    ensures s[..|s| - 1] + [s[|s| - 1]] == s
  {
  }

  lemma TakeOfConcat<T>(a: seq<T>, b: seq<T>, i: nat)
    requires i <= |a| + |b|
    ensures i <= |a| ==> (a + b)[..i] == a[..i]
    ensures i >= |a| ==> (a + b)[..i] == a + b[..i - |a|]
  {
  }
}
