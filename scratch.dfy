/**
 * `TmpDir`: a scratch directory named `<prefix>-<10 random alphanumerics>`
 * directly under the temporary-files root, and its explicit removal.
 */
module Scratch {
  import opened Fs

  /** Length of the random part of a scratch directory's name. */
  const LEN_RNG: nat := 10

  predicate IsAlphanumeric(c: char) {
    'a' <= c <= 'z' || 'A' <= c <= 'Z' || '0' <= c <= '9'
  }

  /** What the random generator hands over: exactly `LEN_RNG` alphanumerics. */
  predicate IsRandomSuffix(s: string) {
    |s| == LEN_RNG && forall i :: 0 <= i < |s| ==> IsAlphanumeric(s[i])
  }

  /** The handle owns the path of its directory. */
  datatype TmpDir = TmpDir(inner: Path)

  /** The final segment of a scratch directory's path. */
  function ScratchName(prefix: string, suffix: string): string {
    prefix + "-" + suffix
  }

  /** The path `TmpDir::new` creates for `prefix`, given the random suffix. */
  function ScratchPath(tempRoot: Path, prefix: string, suffix: string): Path {
    tempRoot + [ScratchName(prefix, suffix)]
  }

  /** The name splits back into the prefix, a dash and the random suffix. */
  lemma ScratchNameParses(prefix: string, suffix: string)
    requires IsRandomSuffix(suffix)
    ensures var name := ScratchName(prefix, suffix);
      && |name| == |prefix| + 1 + LEN_RNG
      && name[..|prefix|] == prefix
      && name[|prefix|] == '-'
      && IsRandomSuffix(name[|prefix| + 1..])
  {
    var name := ScratchName(prefix, suffix);
    assert name[|prefix| + 1..] == suffix;
  }

  /** Distinct suffixes give distinct names, and so do distinct prefixes: a
      name determines both, because the suffix has a fixed length. */
  lemma {:induction false} ScratchNameInjective(p1: string, s1: string, p2: string, s2: string)
    requires IsRandomSuffix(s1) && IsRandomSuffix(s2)
    ensures ScratchName(p1, s1) == ScratchName(p2, s2) <==> p1 == p2 && s1 == s2
  {
    if ScratchName(p1, s1) == ScratchName(p2, s2) {
      var name := ScratchName(p1, s1);
      assert |p1| == |p2|;
      assert name[..|p1|] == p1 && name[..|p2|] == p2;
      assert name[|p1| + 1..] == s1 && name[|p2| + 1..] == s2;
    }
  }

  /** `TmpDir::new`: create the directory, failing (and changing nothing)
      when it cannot be created, for instance because it already exists. */
  function New(t: Tree, env: Env, tempRoot: Path, prefix: string, suffix: string): (r: (Result<TmpDir>, Tree))
    requires IsRandomSuffix(suffix)
    ensures var inner := ScratchPath(tempRoot, prefix, suffix);
      && (r.0.Ok? <==> !env.writeFails(inner) && inner !in t && IsDir(t, tempRoot))
      && (r.0.Ok? ==> r.0.value.inner == inner && IsDir(r.1, inner)
                      && r.1.Keys == t.Keys + {inner} && forall q :: q in t ==> r.1[q] == t[q])
      && (r.0.Err? ==> r.1 == t)
      && (r.0.Err? && !env.writeFails(inner) && inner in t ==> r.0.error == AlreadyExists)
  {
    var inner := ScratchPath(tempRoot, prefix, suffix);
    assert Parent(inner) == tempRoot;
    match CreateDir(t, env, inner)
    case Err(e) => (Err(e), t)
    case Ok(t1) => (Ok(TmpDir(inner)), t1)
  }

  /** A successfully created scratch directory keeps the tree well-formed
      and sits directly under the temporary root with the promised name. */
  lemma NewShape(t: Tree, env: Env, tempRoot: Path, prefix: string, suffix: string)
    requires IsRandomSuffix(suffix) && Valid(t)
    requires New(t, env, tempRoot, prefix, suffix).0.Ok?
    ensures var r := New(t, env, tempRoot, prefix, suffix);
      && Valid(r.1)
      && r.0.value.inner != [] && Parent(r.0.value.inner) == tempRoot
      && ScratchName(prefix, suffix) == r.0.value.inner[|r.0.value.inner| - 1]
      && ScratchName(prefix, suffix)[..|prefix| + 1] == prefix + "-"
      && IsRandomSuffix(ScratchName(prefix, suffix)[|prefix| + 1..])
  {
    var inner := ScratchPath(tempRoot, prefix, suffix);
    assert Parent(inner) == tempRoot;
    ScratchNameParses(prefix, suffix);
    var name := ScratchName(prefix, suffix);
    assert name[..|prefix| + 1] == name[..|prefix|] + [name[|prefix|]];
  }

  /** `TmpDir::close`: remove the directory and everything beneath it. */
  function Close(t: Tree, env: Env, d: TmpDir): (e: Effect)
    ensures e.status.Ok? <==> !env.writeFails(d.inner) && IsDir(t, d.inner)
    ensures e.status.Ok? ==> forall q :: q in e.tree <==> q in t && !IsPrefix(d.inner, q)
    ensures forall q :: q in e.tree ==> q in t && e.tree[q] == t[q]
    ensures e.status.Err? ==> e.tree == t
    ensures e.status.Err? && !env.writeFails(d.inner) && d.inner !in t ==> e.status.error == NotFound
  {
    match RemoveDirAll(t, env, d.inner)
    case Err(err) => Effect(Err(err), t)
    case Ok(t1) => Effect(Ok(()), t1)
  }

  /** Closing twice: the second removal, whatever faults it meets, fails,
      and unless it faults it finds nothing and reports `NotFound`. */
  lemma CloseTwice(t: Tree, env: Env, env': Env, d: TmpDir)
    requires Close(t, env, d).status.Ok?
    ensures var c := Close(Close(t, env, d).tree, env', d);
      && c.status.Err?
      && (!env'.writeFails(d.inner) ==> c.status == Err(NotFound))
  {
    assert IsPrefix(d.inner, d.inner);
  }

  /** Creating a scratch directory and closing it, each call meeting faults
      of its own: the close succeeds exactly when it does not fault, and
      then restores the tree. */
  lemma NewThenClose(t: Tree, env: Env, env': Env, tempRoot: Path, prefix: string, suffix: string)
    requires IsRandomSuffix(suffix) && Valid(t)
    requires New(t, env, tempRoot, prefix, suffix).0.Ok?
    ensures var r := New(t, env, tempRoot, prefix, suffix);
      var c := Close(r.1, env', r.0.value);
      && (c.status.Ok? <==> !env'.writeFails(ScratchPath(tempRoot, prefix, suffix)))
      && (c.status.Ok? ==> c.tree == t)
      && (c.status.Err? ==> c.tree == r.1)
  {
    var inner := ScratchPath(tempRoot, prefix, suffix);
    var r := New(t, env, tempRoot, prefix, suffix);
    var c := Close(r.1, env', r.0.value);
    assert r.0.value.inner == inner && IsDir(r.1, inner);
    forall q | q in t ensures !IsPrefix(inner, q) {
      if IsPrefix(inner, q) {
        if q != inner {
          AncestorIsDir(t, q, |inner|);
        }
      }
    }
    if c.status.Ok? {
      assert c.tree.Keys == t.Keys;
    }
  }
}
