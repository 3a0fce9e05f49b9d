/**
 * `TmpDir::copy`: create the destination, then replay the traversal stream
 * of the scratch directory onto it. Each entry's path loses the scratch
 * directory's prefix and is joined onto the destination; a directory entry
 * becomes `create_dir_all` there, any other entry `fs::copy`. The first
 * error, from the stream or from a step, ends the copy; what was written
 * before it stays written.
 *
 * Entries are listed and read from the tree as it was when the copy began,
 * and written to the tree being built.
 */
module TreeCopy {
  import opened Fs
  import opened Traversal
  import opened WalkFacts
  import opened Completeness
  import opened Scratch

  /** Where entry `k` of `src` lands: `dest` joined with `k` minus the prefix `src`. */
  function Target(src: Path, dest: Path, k: Path): (d: Path)
    requires IsPrefix(src, k)
    ensures |d| == |dest| + |k| - |src| && IsPrefix(dest, d)
  {
    dest + k[|src|..]
  }

  /** Copying one entry of the stream onto `out`. */
  function CopyEntry(t: Tree, env: Env, src: Path, dest: Path, out: Tree, k: Path): Result<Tree>
  {
    if !IsPrefix(src, k) then Err(InvalidInput)
    else
      var d := Target(src, dest, k);
      match Metadata(t, k, env.copyMetaFails(k))
      case Err(e) => Err(e)
      case Ok(node) =>
        if node.Dir? then CreateDirAll(out, env, d) else CopyFile(t, env, k, out, d)
  }

  /** Replaying a stream onto `out`, front to back, stopping at the first error. */
  function Replay(t: Tree, env: Env, src: Path, dest: Path, items: seq<Item>, out: Tree): Effect
    decreases |items|
  {
    if items == [] then Effect(Ok(()), out)
    else match items[0]
      case Err(e) => Effect(Err(e), out)
      case Ok(k) =>
        match CopyEntry(t, env, src, dest, out, k)
        case Err(e) => Effect(Err(e), out)
        case Ok(out') => Replay(t, env, src, dest, items[1..], out')
  }

  /** The whole copy as a value. */
  function CopySpec(t: Tree, env: Env, src: Path, dest: Path): Effect
  {
    match CreateDirAll(t, env, dest)
    case Err(e) => Effect(Err(e), t)
    case Ok(t1) => Replay(t, env, src, dest, Walk(t, env, [src]), t1)
  }

  /** `TmpDir::copy`. */
  method Copy(t: Tree, env: Env, dir: TmpDir, dest: Path) returns (status: Result<()>, out: Tree)
    ensures Effect(status, out) == CopySpec(t, env, dir.inner, dest)
  {
    var made := CreateDirAll(t, env, dest);
    if made.Err? {
      return Err(made.error), t;
    }
    out := made.value;
    var files := Traverse(t, env, dir.inner);
    var i := 0;
    while i < |files|
      invariant 0 <= i <= |files|
      invariant CopySpec(t, env, dir.inner, dest) == Replay(t, env, dir.inner, dest, files[i..], out)
    {
      assert files[i..][1..] == files[i + 1..];
      var file := files[i];
      if file.Err? {
        return Err(file.error), out;
      }
      var filePath := file.value;
      if !IsPrefix(dir.inner, filePath) {
        return Err(InvalidInput), out;
      }
      var diff := filePath[|dir.inner|..];
      var target := dest + diff;
      var md := Metadata(t, filePath, env.copyMetaFails(filePath));
      if md.Err? {
        return Err(md.error), out;
      }
      var step;
      if md.value.Dir? {
        step := CreateDirAll(out, env, target);
      } else {
        step := CopyFile(t, env, filePath, out, target);
      }
      if step.Err? {
        return Err(step.error), out;
      }
      out := step.value;
      i := i + 1;
    }
    status := Ok(());
  }

  // ---------------------------------------------------------------------
  // Targets
  // ---------------------------------------------------------------------

  /** Distinct entries land on distinct targets. */
  lemma TargetInjective(src: Path, dest: Path, a: Path, b: Path)
    requires IsPrefix(src, a) && IsPrefix(src, b)
    ensures Target(src, dest, a) == Target(src, dest, b) <==> a == b
  {
    if Target(src, dest, a) == Target(src, dest, b) {
      assert a[|src|..] == Target(src, dest, a)[|dest|..];
      assert b[|src|..] == Target(src, dest, b)[|dest|..];
      assert a == a[..|src|] + a[|src|..];
      assert b == b[..|src|] + b[|src|..];
    }
  }

  /** The target of an entry's parent is the parent of its target. */
  lemma TargetParent(src: Path, dest: Path, k: Path)
    requires IsStrictPrefix(src, k)
    ensures Target(src, dest, k) != [] && IsPrefix(src, Parent(k))
    ensures Parent(Target(src, dest, k)) == Target(src, dest, Parent(k))
    ensures Parent(k) == src ==> Target(src, dest, Parent(k)) == dest
  {
    assert Parent(k)[..|src|] == k[..|src|];
  }

  /** Whatever is a prefix of something below `dest` lies on `dest`'s line. */
  lemma PrefixOfBelow(q: Path, dest: Path, d: Path)
    requires IsPrefix(dest, d) && IsPrefix(q, d)
    ensures IsPrefix(q, dest) || IsPrefix(dest, q)
  {
    if |q| <= |dest| {
      assert dest[..|q|] == d[..|q|];
    } else {
      assert q[..|dest|] == d[..|dest|];
    }
  }

  // ---------------------------------------------------------------------
  // Copying only adds below the destination
  // ---------------------------------------------------------------------

  lemma TakeOneMore(s: seq<Item>, i: nat)
    requires i < |s|
    ensures s[..i + 1] == s[..i] + [s[i]]
  {
  }

  /** Paths that are neither above nor below `dest`. */
  predicate OffLine(q: Path, dest: Path) {
    !IsPrefix(q, dest) && !IsPrefix(dest, q)
  }

  /** `out` extends `t` as a copy into `dest` may: nothing disappears,
      directories stay directories, files stay files, and nothing off
      `dest`'s line appears or changes. */
  ghost predicate Extends(t: Tree, out: Tree, dest: Path) {
    && t.Keys <= out.Keys
    && (forall q :: q in t && t[q].Dir? ==> out[q] == Dir)
    && (forall q :: q in t && t[q].File? ==> out[q].File?)
    && (forall q :: OffLine(q, dest) ==> (q in out <==> q in t))
    && (forall q :: OffLine(q, dest) && q in t ==> out[q] == t[q])
  }

  lemma ExtendsTrans(a: Tree, b: Tree, c: Tree, dest: Path)
    requires Extends(a, b, dest) && Extends(b, c, dest)
    ensures Extends(a, c, dest)
  {
  }

  lemma CreateDirAllExtends(out: Tree, env: Env, dest: Path, d: Path)
    requires IsPrefix(dest, d) && CreateDirAll(out, env, d).Ok?
    ensures Extends(out, CreateDirAll(out, env, d).value, dest)
  {
    var out' := CreateDirAll(out, env, d).value;
    forall q | q in out' && q !in out ensures !OffLine(q, dest) {
      PrefixOfBelow(q, dest, d);
    }
  }

  lemma EntryExtends(t: Tree, env: Env, src: Path, dest: Path, out: Tree, k: Path)
    requires CopyEntry(t, env, src, dest, out, k).Ok?
    ensures Extends(out, CopyEntry(t, env, src, dest, out, k).value, dest)
  {
    var d := Target(src, dest, k);
    if t[k].Dir? {
      CreateDirAllExtends(out, env, dest, d);
    } else {
      assert !OffLine(d, dest);
    }
  }

  lemma {:induction false} ReplayExtends(t: Tree, env: Env, src: Path, dest: Path, items: seq<Item>, out: Tree)
    ensures Extends(out, Replay(t, env, src, dest, items, out).tree, dest)
    decreases |items|
  {
    if items != [] && items[0].Ok? {
      var step := CopyEntry(t, env, src, dest, out, items[0].value);
      if step.Ok? {
        EntryExtends(t, env, src, dest, out, items[0].value);
        ReplayExtends(t, env, src, dest, items[1..], step.value);
        ExtendsTrans(out, step.value, Replay(t, env, src, dest, items[1..], step.value).tree, dest);
      }
    }
  }

  /** Copying never deletes: every entry is still there afterwards,
      directories as directories and files as files, and away from the
      destination's line nothing appears or changes, whether the copy
      succeeds or stops part-way. */
  lemma CopyOnlyAdds(t: Tree, env: Env, src: Path, dest: Path)
    ensures var out := CopySpec(t, env, src, dest).tree;
      && t.Keys <= out.Keys
      && (forall q :: q in t && t[q].Dir? ==> out[q] == Dir)
      && (forall q :: q in t && t[q].File? ==> out[q].File?)
      && (forall q :: OffLine(q, dest) ==> (q in out <==> q in t))
      && (forall q :: OffLine(q, dest) && q in t ==> out[q] == t[q])
  {
    match CreateDirAll(t, env, dest)
    case Err(_) =>
    case Ok(t1) =>
      CreateDirAllExtends(t, env, dest, dest);
      ReplayExtends(t, env, src, dest, Walk(t, env, [src]), t1);
      ExtendsTrans(t, t1, CopySpec(t, env, src, dest).tree, dest);
  }

  /** `q` is the target of some entry of the stream. */
  ghost predicate Targeted(src: Path, dest: Path, items: seq<Item>, q: Path) {
    exists k :: Ok(k) in items && IsPrefix(src, k) && Target(src, dest, k) == q
  }

  lemma {:induction false} ReplayKeepsUntargeted(t: Tree, env: Env, src: Path, dest: Path, items: seq<Item>, out: Tree)
    ensures var out' := Replay(t, env, src, dest, items, out).tree;
      forall q :: q in out && !Targeted(src, dest, items, q) ==> q in out' && out'[q] == out[q]
    decreases |items|
  {
    if items != [] && items[0].Ok? {
      var k := items[0].value;
      var step := CopyEntry(t, env, src, dest, out, k);
      if step.Ok? {
        ReplayKeepsUntargeted(t, env, src, dest, items[1..], step.value);
        forall q | q in out && !Targeted(src, dest, items, q)
          ensures q in step.value && step.value[q] == out[q] && !Targeted(src, dest, items[1..], q)
        {
          assert items[0] in items;
          forall k' | Ok(k') in items[1..] && IsPrefix(src, k') ensures Target(src, dest, k') != q {
            assert Ok(k') in items;
          }
        }
      }
    }
  }

  /** Copy overwrites, it does not mirror: an entry the stream does not
      target keeps its node, wherever it is, also when the copy stops part-way. */
  lemma CopyKeepsUntargeted(t: Tree, env: Env, src: Path, dest: Path)
    ensures var out := CopySpec(t, env, src, dest).tree;
      forall q :: q in t && !Targeted(src, dest, Walk(t, env, [src]), q) ==> q in out && out[q] == t[q]
  {
    if CreateDirAll(t, env, dest).Ok? {
      ReplayKeepsUntargeted(t, env, src, dest, Walk(t, env, [src]), CreateDirAll(t, env, dest).value);
    }
  }

  /** When source and destination are unrelated, nothing in the source
      tree changes. */
  lemma CopyLeavesSourceAlone(t: Tree, env: Env, src: Path, dest: Path)
    requires OffLine(src, dest)
    ensures var out := CopySpec(t, env, src, dest).tree;
      forall q :: IsPrefix(src, q) ==> (q in out <==> q in t) && (q in t ==> out[q] == t[q])
  {
    CopyOnlyAdds(t, env, src, dest);
    forall q | IsPrefix(src, q) ensures OffLine(q, dest) {
      if IsPrefix(dest, q) {
        PrefixOfBelow(src, dest, q);
      }
    }
  }

  /** The copy keeps the tree well-formed. */
  lemma {:induction false} ReplayValid(t: Tree, env: Env, src: Path, dest: Path, items: seq<Item>, out: Tree)
    requires Valid(out)
    ensures Valid(Replay(t, env, src, dest, items, out).tree)
    decreases |items|
  {
    if items != [] && items[0].Ok? {
      var k := items[0].value;
      var step := CopyEntry(t, env, src, dest, out, k);
      if step.Ok? {
        if t[k].Dir? {
          CreateDirAllValid(out, env, Target(src, dest, k));
        } else {
          CopyFileValid(t, env, k, out, Target(src, dest, k));
        }
        ReplayValid(t, env, src, dest, items[1..], step.value);
      }
    }
  }

  lemma CopyValid(t: Tree, env: Env, src: Path, dest: Path)
    requires Valid(t)
    ensures Valid(CopySpec(t, env, src, dest).tree)
  {
    if CreateDirAll(t, env, dest).Ok? {
      CreateDirAllValid(t, env, dest);
      ReplayValid(t, env, src, dest, Walk(t, env, [src]), CreateDirAll(t, env, dest).value);
    }
  }

  // ---------------------------------------------------------------------
  // Stopping at the first error
  // ---------------------------------------------------------------------

  /** Nothing after an error in the stream is looked at, and the error is
      what the copy reports. */
  lemma {:induction false} ReplayStopsAtErr(t: Tree, env: Env, src: Path, dest: Path,
                                            a: seq<Item>, e: ErrorKind, b: seq<Item>, out: Tree)
    ensures Replay(t, env, src, dest, a + [Err(e)] + b, out) == Replay(t, env, src, dest, a + [Err(e)], out)
    ensures Replay(t, env, src, dest, a + [Err(e)], out).status.Err?
    ensures Replay(t, env, src, dest, a, out).status.Ok? ==>
      Replay(t, env, src, dest, a + [Err(e)], out).status == Err(e)
    decreases |a|
  {
    if a == [] {
      assert (a + [Err(e)] + b)[0] == Err(e);
    } else {
      assert (a + [Err(e)] + b)[0] == a[0] && (a + [Err(e)])[0] == a[0];
      assert (a + [Err(e)] + b)[1..] == a[1..] + [Err(e)] + b;
      assert (a + [Err(e)])[1..] == a[1..] + [Err(e)];
      if a[0].Ok? {
        var step := CopyEntry(t, env, src, dest, out, a[0].value);
        if step.Ok? {
          ReplayStopsAtErr(t, env, src, dest, a[1..], e, b, step.value);
        }
      }
    }
  }

  /** A copy that reports success met no error in the stream. */
  lemma {:induction false} ReplayOkNoErr(t: Tree, env: Env, src: Path, dest: Path, items: seq<Item>, out: Tree)
    ensures Replay(t, env, src, dest, items, out).status.Ok? ==> NoErr(items)
    decreases |items|
  {
    if items != [] && items[0].Ok? {
      var step := CopyEntry(t, env, src, dest, out, items[0].value);
      if step.Ok? {
        ReplayOkNoErr(t, env, src, dest, items[1..], step.value);
        if NoErr(items[1..]) {
          forall i | 0 <= i < |items| ensures items[i].Ok? {
            if i > 0 {
              assert items[i] == items[1..][i - 1];
            }
          }
        }
      }
    }
  }

  // ---------------------------------------------------------------------
  // Which errors a copy reports
  // ---------------------------------------------------------------------

  /** Every directory entry already copied has its target as a directory. */
  ghost predicate DirsCopied(t: Tree, src: Path, dest: Path, done: seq<Item>, out: Tree) {
    && IsDir(out, dest)
    && forall k :: Ok(k) in done && IsPrefix(src, k) && IsDir(t, k) ==> IsDir(out, Target(src, dest, k))
  }

  lemma DirsCopiedStep(t: Tree, env: Env, src: Path, dest: Path, done: seq<Item>, out: Tree, k: Path)
    requires DirsCopied(t, src, dest, done, out) && CopyEntry(t, env, src, dest, out, k).Ok?
    ensures DirsCopied(t, src, dest, done + [Ok(k)], CopyEntry(t, env, src, dest, out, k).value)
  {
    var out' := CopyEntry(t, env, src, dest, out, k).value;
    EntryExtends(t, env, src, dest, out, k);
    forall k' | Ok(k') in done + [Ok(k)] && IsPrefix(src, k') && IsDir(t, k')
      ensures IsDir(out', Target(src, dest, k'))
    {
      if Ok(k') !in done {
        assert k' == k;
      }
    }
  }

  /** The parent of the next entry's target is already a directory. */
  lemma ParentTargetIsDir(t: Tree, src: Path, dest: Path, all: seq<Item>, i: nat, out: Tree)
    requires i < |all| && all[i].Ok? && NoErr(all[..i]) && ParentFirst(t, src, all)
    requires forall x :: Ok(x) in all ==> IsStrictPrefix(src, x) && x in t
    requires DirsCopied(t, src, dest, all[..i], out)
    ensures IsStrictPrefix(src, all[i].value) && all[i].value in t
    ensures Target(src, dest, all[i].value) != []
    ensures IsDir(out, Parent(Target(src, dest, all[i].value)))
  {
    var k := all[i].value;
    assert all[i] in all;
    TargetParent(src, dest, k);
  }

  /** With the parent of its target a directory, a successful copy of an
      entry writes the entry's node at its target and changes nothing else. */
  lemma EntryWritesTarget(t: Tree, env: Env, src: Path, dest: Path, out: Tree, k: Path)
    requires IsPrefix(src, k) && k in t
    requires Target(src, dest, k) != [] && IsDir(out, Parent(Target(src, dest, k)))
    requires CopyEntry(t, env, src, dest, out, k).Ok?
    ensures var out' := CopyEntry(t, env, src, dest, out, k).value;
      && out'.Keys == out.Keys + {Target(src, dest, k)}
      && out'[Target(src, dest, k)] == t[k]
      && forall q :: q in out && q != Target(src, dest, k) ==> out'[q] == out[q]
  {
    var d := Target(src, dest, k);
    if t[k].Dir? {
      assert MakeDirs(out, Parent(d)) == Ok(out);
    }
  }

  /** With the parent of its target a directory, copying an entry fails only
      on a fault or a clash with what is already at the target. */
  lemma EntryErrKinds(t: Tree, env: Env, src: Path, dest: Path, out: Tree, k: Path)
    requires IsPrefix(src, k) && k in t
    requires Target(src, dest, k) != [] && IsDir(out, Parent(Target(src, dest, k)))
    ensures CopyEntry(t, env, src, dest, out, k).Err? ==>
      CopyEntry(t, env, src, dest, out, k).error in {Injected, AlreadyExists, IsADirectory}
  {
    var d := Target(src, dest, k);
    if t[k].Dir? && !env.writeFails(d) && !env.copyMetaFails(k) {
      assert MakeDirs(out, Parent(d)) == Ok(out);
    }
  }

  lemma {:induction false} ReplayErrKinds(t: Tree, env: Env, src: Path, dest: Path, all: seq<Item>, i: nat, out: Tree)
    requires i <= |all| && NoErr(all) && ParentFirst(t, src, all)
    requires forall x :: Ok(x) in all ==> IsStrictPrefix(src, x) && x in t
    requires DirsCopied(t, src, dest, all[..i], out)
    ensures var c := Replay(t, env, src, dest, all[i..], out);
      c.status.Err? ==> c.status.error in {Injected, AlreadyExists, IsADirectory}
    decreases |all| - i
  {
    if i < |all| {
      var k := all[i].value;
      assert all[i..][0] == Ok(k) && all[i..][1..] == all[i + 1..];
      ParentTargetIsDir(t, src, dest, all, i, out);
      EntryErrKinds(t, env, src, dest, out, k);
      var step := CopyEntry(t, env, src, dest, out, k);
      if step.Ok? {
        DirsCopiedStep(t, env, src, dest, all[..i], out, k);
        TakeOneMore(all, i);
        ReplayErrKinds(t, env, src, dest, all, i + 1, step.value);
      }
    }
  }

  /** The copy never reports `InvalidInput`: every entry lies below the
      scratch directory, and only files are handed to `fs::copy`. Once the
      destination exists and the stream is error-free, a copy fails only on
      a fault or a clash with what is already at a target. */
  lemma CopyErrKinds(t: Tree, env: Env, src: Path, dest: Path)
    ensures var c := CopySpec(t, env, src, dest);
      c.status.Err? ==> c.status.error != InvalidInput
    ensures var c := CopySpec(t, env, src, dest);
      c.status.Err? && CreateDirAll(t, env, dest).Ok? && NoErr(Walk(t, env, [src])) ==>
        c.status.error in {Injected, AlreadyExists, IsADirectory}
  {
    if CreateDirAll(t, env, dest).Ok? {
      var t1 := CreateDirAll(t, env, dest).value;
      var all := Walk(t, env, [src]);
      WalkBelowRoot(t, env, src);
      WalkErrKinds(t, env, src);
      ReplayNoInvalidInput(t, env, src, dest, all, t1);
      if NoErr(all) {
        WalkParentFirst(t, env, src);
        assert all[..0] == [] && all[0..] == all;
        ReplayErrKinds(t, env, src, dest, all, 0, t1);
      }
    }
  }

  lemma {:induction false} ReplayNoInvalidInput(t: Tree, env: Env, src: Path, dest: Path, items: seq<Item>, out: Tree)
    requires forall x :: Ok(x) in items ==> IsPrefix(src, x) && x in t
    requires forall e :: Err(e) in items ==> e != InvalidInput
    ensures var c := Replay(t, env, src, dest, items, out);
      c.status.Err? ==> c.status.error != InvalidInput
    decreases |items|
  {
    if items != [] {
      assert items[0] in items;
      if items[0].Ok? {
        var step := CopyEntry(t, env, src, dest, out, items[0].value);
        if step.Ok? {
          forall x | Ok(x) in items[1..] ensures IsPrefix(src, x) && x in t {
            assert Ok(x) in items;
          }
          forall e | Err(e) in items[1..] ensures e != InvalidInput {
            assert Err(e) in items;
          }
          ReplayNoInvalidInput(t, env, src, dest, items[1..], step.value);
        }
      }
    }
  }

  // ---------------------------------------------------------------------
  // Nothing new appears but the destination's line and the targets
  // ---------------------------------------------------------------------

  /** Every path of `out` that `t` lacks leads to `dest` or is the target of
      an entry of the stream. */
  ghost predicate AddsOnlyTargets(t: Tree, src: Path, dest: Path, all: seq<Item>, out: Tree) {
    forall q :: q in out && q !in t ==> IsPrefix(q, dest) || Targeted(src, dest, all, q)
  }

  lemma {:induction false} ReplayAddsOnlyTargets(t: Tree, env: Env, src: Path, dest: Path, all: seq<Item>, i: nat, out: Tree)
    requires i <= |all| && NoErr(all[..i]) && ParentFirst(t, src, all)
    requires forall x :: Ok(x) in all ==> IsStrictPrefix(src, x) && x in t
    requires DirsCopied(t, src, dest, all[..i], out) && AddsOnlyTargets(t, src, dest, all, out)
    ensures AddsOnlyTargets(t, src, dest, all, Replay(t, env, src, dest, all[i..], out).tree)
    decreases |all| - i
  {
    if i < |all| {
      assert all[i..][0] == all[i] && all[i..][1..] == all[i + 1..];
      if all[i].Ok? {
        var k := all[i].value;
        var step := CopyEntry(t, env, src, dest, out, k);
        if step.Ok? {
          AddsOnlyTargetsStep(t, env, src, dest, all, i, out);
          ReplayAddsOnlyTargets(t, env, src, dest, all, i + 1, step.value);
        }
      }
    }
  }

  /** One successful step adds only the entry's target. */
  lemma AddsOnlyTargetsStep(t: Tree, env: Env, src: Path, dest: Path, all: seq<Item>, i: nat, out: Tree)
    requires i < |all| && all[i].Ok? && NoErr(all[..i]) && ParentFirst(t, src, all)
    requires forall x :: Ok(x) in all ==> IsStrictPrefix(src, x) && x in t
    requires DirsCopied(t, src, dest, all[..i], out) && AddsOnlyTargets(t, src, dest, all, out)
    requires CopyEntry(t, env, src, dest, out, all[i].value).Ok?
    ensures var out' := CopyEntry(t, env, src, dest, out, all[i].value).value;
      && NoErr(all[..i + 1])
      && DirsCopied(t, src, dest, all[..i + 1], out') && AddsOnlyTargets(t, src, dest, all, out')
  {
    var k := all[i].value;
    ParentTargetIsDir(t, src, dest, all, i, out);
    EntryWritesTarget(t, env, src, dest, out, k);
    DirsCopiedStep(t, env, src, dest, all[..i], out, k);
    assert Ok(k) in all;
    TakeOneMore(all, i);
    NoErrConcat(all[..i], [all[i]]);
  }

  /** A copy, successful or stopped part-way, creates nothing but the
      missing directories on the way to `dest` and targets of the stream's
      entries: no stray path appears below the destination. */
  lemma CopyAddsOnlyTargets(t: Tree, env: Env, src: Path, dest: Path)
    ensures var out := CopySpec(t, env, src, dest).tree;
      forall q :: q in out && q !in t ==> IsPrefix(q, dest) || Targeted(src, dest, Walk(t, env, [src]), q)
  {
    if CreateDirAll(t, env, dest).Ok? {
      var t1 := CreateDirAll(t, env, dest).value;
      var all := Walk(t, env, [src]);
      WalkParentFirst(t, env, src);
      WalkBelowRoot(t, env, src);
      assert all[..0] == [] && all[0..] == all;
      ReplayAddsOnlyTargets(t, env, src, dest, all, 0, t1);
    }
  }

  // ---------------------------------------------------------------------
  // A successful copy mirrors the scratch directory
  // ---------------------------------------------------------------------

  /** Every entry already copied has its node at its target. */
  ghost predicate Mirrored(t: Tree, src: Path, dest: Path, done: seq<Item>, out: Tree) {
    forall k :: Ok(k) in done && IsPrefix(src, k) && k in t ==>
      Target(src, dest, k) in out && out[Target(src, dest, k)] == t[k]
  }

  lemma MirroredStep(t: Tree, env: Env, src: Path, dest: Path, done: seq<Item>, out: Tree, k: Path)
    requires Mirrored(t, src, dest, done, out) && CopyEntry(t, env, src, dest, out, k).Ok?
    ensures Mirrored(t, src, dest, done + [Ok(k)], CopyEntry(t, env, src, dest, out, k).value)
  {
    var out' := CopyEntry(t, env, src, dest, out, k).value;
    var d := Target(src, dest, k);
    forall k' | Ok(k') in done + [Ok(k)] && IsPrefix(src, k') && k' in t
      ensures Target(src, dest, k') in out' && out'[Target(src, dest, k')] == t[k']
    {
      TargetInjective(src, dest, k, k');
      if k' != k {
        assert Ok(k') in done;
      }
    }
  }

  lemma {:induction false} ReplayMirrors(t: Tree, env: Env, src: Path, dest: Path, all: seq<Item>, i: nat, out: Tree)
    requires i <= |all| && Mirrored(t, src, dest, all[..i], out)
    ensures var c := Replay(t, env, src, dest, all[i..], out);
      c.status.Ok? ==> Mirrored(t, src, dest, all, c.tree)
    decreases |all| - i
  {
    if i == |all| {
      assert all[..i] == all;
    } else {
      assert all[i..][0] == all[i] && all[i..][1..] == all[i + 1..];
      if all[i].Ok? {
        var k := all[i].value;
        var step := CopyEntry(t, env, src, dest, out, k);
        if step.Ok? {
          MirroredStep(t, env, src, dest, all[..i], out, k);
          TakeOneMore(all, i);
          ReplayMirrors(t, env, src, dest, all, i + 1, step.value);
        }
      }
    }
  }

  /** On success the destination exists, the stream had no error, and every
      emitted entry has its node, directory or file contents, at its target. */
  lemma CopyMirrors(t: Tree, env: Env, src: Path, dest: Path)
    ensures var c := CopySpec(t, env, src, dest);
      c.status.Ok? ==>
        && IsDir(c.tree, dest)
        && NoErr(Walk(t, env, [src]))
        && forall k :: Ok(k) in Walk(t, env, [src]) ==>
             IsStrictPrefix(src, k) && k in t
             && Target(src, dest, k) in c.tree && c.tree[Target(src, dest, k)] == t[k]
  {
    var c := CopySpec(t, env, src, dest);
    WalkBelowRoot(t, env, src);
    if CreateDirAll(t, env, dest).Ok? {
      var t1 := CreateDirAll(t, env, dest).value;
      var all := Walk(t, env, [src]);
      ReplayOkNoErr(t, env, src, dest, all, t1);
      assert all[..0] == [] && all[0..] == all;
      ReplayMirrors(t, env, src, dest, all, 0, t1);
      ReplayExtends(t, env, src, dest, all, t1);
    }
  }

  /** Completeness of a successful copy: on a well-formed tree whose read
      order lists each directory faithfully, every entry below the scratch
      directory is found at its target with the same node. */
  lemma CopyComplete(t: Tree, env: Env, src: Path, dest: Path)
    requires Valid(t) && Enumerates(t, env)
    ensures var c := CopySpec(t, env, src, dest);
      c.status.Ok? ==>
        forall k :: k in Subtree(t, src) ==>
          IsPrefix(src, k) && Target(src, dest, k) in c.tree && c.tree[Target(src, dest, k)] == t[k]
  {
    var c := CopySpec(t, env, src, dest);
    if c.status.Ok? {
      CopyMirrors(t, env, src, dest);
      WalkEmitsEachOnce(t, env, src);
      forall k | k in Subtree(t, src) ensures Ok(k) in Walk(t, env, [src]) {
        assert multiset(Oks(Walk(t, env, [src])))[k] == 1;
      }
    }
  }

  // ---------------------------------------------------------------------
  // When a copy succeeds
  // ---------------------------------------------------------------------

  /** No copy call faults. */
  ghost predicate NoCopyFaults(env: Env) {
    && (forall p :: !env.writeFails(p))
    && (forall p :: !env.copyMetaFails(p))
  }

  lemma {:induction false} OksNoErr(items: seq<Item>)
    requires NoErr(items)
    ensures |Oks(items)| == |items|
    ensures forall j :: 0 <= j < |items| ==> Oks(items)[j] == items[j].value
    decreases |items|
  {
    if items != [] {
      var init := items[..|items| - 1];
      assert NoErr(init);
      OksNoErr(init);
    }
  }

  lemma CountsDistinct(s: seq<Path>)
    requires forall x :: multiset(s)[x] <= 1
    ensures Distinct(s)
  {
    forall a, b | 0 <= a < b < |s| ensures s[a] != s[b] {
      assert s == s[..b] + s[b..];
      assert s[a] in s[..b] && s[b] in s[b..];
      assert multiset(s) == multiset(s[..b]) + multiset(s[b..]);
      assert s[a] in multiset(s[..b]) && s[b] in multiset(s[b..]);
      assert s[a] == s[b] ==> multiset(s)[s[a]] >= 2;
    }
  }

  /** A clean walk emits no entry twice. */
  lemma WalkDistinct(t: Tree, env: Env, src: Path)
    requires Valid(t) && Enumerates(t, env) && NoErr(Walk(t, env, [src]))
    ensures Distinct(Walk(t, env, [src]))
  {
    var all := Walk(t, env, [src]);
    WalkEmitsEachOnce(t, env, src);
    OksNoErr(all);
    CountsDistinct(Oks(all));
  }

  /** No target clashes with what is already there: where an entry's
      target exists, it is a directory exactly when the entry is. */
  ghost predicate NoClash(t: Tree, src: Path, dest: Path) {
    forall k :: k in t && IsStrictPrefix(src, k) && Target(src, dest, k) in t ==>
      t[Target(src, dest, k)].Dir? == t[k].Dir?
  }

  /** Below `dest`, `out` holds what `t` held there, and the targets of the
      entries already copied. */
  ghost predicate BelowDest(t: Tree, src: Path, dest: Path, done: seq<Item>, out: Tree) {
    forall q :: q in out && IsStrictPrefix(dest, q) ==>
      (q in t && out[q] == t[q]) || Targeted(src, dest, done, q)
  }

  lemma BelowDestStep(t: Tree, src: Path, dest: Path, done: seq<Item>, out: Tree, out': Tree, k: Path)
    requires BelowDest(t, src, dest, done, out) && IsPrefix(src, k)
    requires out'.Keys == out.Keys + {Target(src, dest, k)}
    requires forall q :: q in out && q != Target(src, dest, k) ==> out'[q] == out[q]
    ensures BelowDest(t, src, dest, done + [Ok(k)], out')
  {
    forall q | q in out' && IsStrictPrefix(dest, q)
      ensures (q in t && out'[q] == t[q]) || Targeted(src, dest, done + [Ok(k)], q)
    {
      assert Ok(k) in done + [Ok(k)];
      if q != Target(src, dest, k) && !(q in t && out[q] == t[q]) {
        var k' :| Ok(k') in done && IsPrefix(src, k') && Target(src, dest, k') == q;
        assert Ok(k') in done + [Ok(k)];
      }
    }
  }

  /** Where the next entry's target already exists, it has the entry's kind. */
  lemma TargetMatches(t: Tree, src: Path, dest: Path, all: seq<Item>, i: nat, out: Tree)
    requires NoClash(t, src, dest)
    requires i < |all| && NoErr(all) && Distinct(all)
    requires IsStrictPrefix(src, all[i].value) && all[i].value in t
    requires BelowDest(t, src, dest, all[..i], out)
    ensures Target(src, dest, all[i].value) in out ==>
      out[Target(src, dest, all[i].value)].Dir? == t[all[i].value].Dir?
  {
    var k := all[i].value;
    var d := Target(src, dest, k);
    if d in out {
      assert IsStrictPrefix(dest, d);
      if !(d in t && out[d] == t[d]) {
        var k' :| Ok(k') in all[..i] && IsPrefix(src, k') && Target(src, dest, k') == d;
        TargetInjective(src, dest, k, k');
      }
    }
  }

  /** Without faults, copying an entry under a directory onto a target of
      the same kind or a free one succeeds. */
  lemma EntryOntoMatching(t: Tree, env: Env, src: Path, dest: Path, out: Tree, k: Path)
    requires NoCopyFaults(env) && IsPrefix(src, k) && k in t
    requires Target(src, dest, k) != [] && IsDir(out, Parent(Target(src, dest, k)))
    requires Target(src, dest, k) in out ==> out[Target(src, dest, k)].Dir? == t[k].Dir?
    ensures CopyEntry(t, env, src, dest, out, k).Ok?
  {
    var d := Target(src, dest, k);
    assert !env.writeFails(d) && !env.copyMetaFails(k);
    if t[k].Dir? {
      assert MakeDirs(out, Parent(d)) == Ok(out);
    }
  }

  /** A successful first step hands the rest of the stream the new tree. */
  lemma ReplayCons(t: Tree, env: Env, src: Path, dest: Path, items: seq<Item>, out: Tree)
    requires items != [] && items[0].Ok? && CopyEntry(t, env, src, dest, out, items[0].value).Ok?
    ensures Replay(t, env, src, dest, items, out)
            == Replay(t, env, src, dest, items[1..], CopyEntry(t, env, src, dest, out, items[0].value).value)
  {
  }

  /** One step of a copy that meets no clash. */
  lemma SucceedsStep(t: Tree, env: Env, src: Path, dest: Path, all: seq<Item>, i: nat, out: Tree)
    requires NoCopyFaults(env) && NoClash(t, src, dest)
    requires i < |all| && NoErr(all) && Distinct(all) && ParentFirst(t, src, all)
    requires forall x :: Ok(x) in all ==> IsStrictPrefix(src, x) && x in t
    requires DirsCopied(t, src, dest, all[..i], out) && BelowDest(t, src, dest, all[..i], out)
    ensures CopyEntry(t, env, src, dest, out, all[i].value).Ok?
    ensures var out' := CopyEntry(t, env, src, dest, out, all[i].value).value;
      DirsCopied(t, src, dest, all[..i + 1], out') && BelowDest(t, src, dest, all[..i + 1], out')
  {
    var k := all[i].value;
    assert NoErr(all[..i]);
    ParentTargetIsDir(t, src, dest, all, i, out);
    TargetMatches(t, src, dest, all, i, out);
    EntryOntoMatching(t, env, src, dest, out, k);
    EntryWritesTarget(t, env, src, dest, out, k);
    var out' := CopyEntry(t, env, src, dest, out, k).value;
    DirsCopiedStep(t, env, src, dest, all[..i], out, k);
    BelowDestStep(t, src, dest, all[..i], out, out', k);
    TakeOneMore(all, i);
  }

  lemma {:induction false} ReplaySucceeds(t: Tree, env: Env, src: Path, dest: Path, all: seq<Item>, i: nat, out: Tree)
    requires NoCopyFaults(env) && NoClash(t, src, dest)
    requires i <= |all| && NoErr(all) && Distinct(all) && ParentFirst(t, src, all)
    requires forall x :: Ok(x) in all ==> IsStrictPrefix(src, x) && x in t
    requires DirsCopied(t, src, dest, all[..i], out) && BelowDest(t, src, dest, all[..i], out)
    ensures Replay(t, env, src, dest, all[i..], out).status.Ok?
    decreases |all| - i
  {
    if i < |all| {
      SucceedsStep(t, env, src, dest, all, i, out);
      assert all[i..][0] == all[i] && all[i..][1..] == all[i + 1..];
      ReplayCons(t, env, src, dest, all[i..], out);
      ReplaySucceeds(t, env, src, dest, all, i + 1, CopyEntry(t, env, src, dest, out, all[i].value).value);
    }
  }

  /** A copy succeeds when no call faults, the scratch directory is a
      directory, the read order lists each directory faithfully, no file
      lies on the path to the destination and no target clashes with what
      is already there: existing files are overwritten, existing directories
      reused. */
  lemma CopySucceeds(t: Tree, env: Env, src: Path, dest: Path)
    requires Valid(t) && Enumerates(t, env) && IsDir(t, src)
    requires NoListingFaults(env) && NoCopyFaults(env)
    requires NoFileAlong(t, dest, |dest|)
    requires NoClash(t, src, dest)
    ensures CopySpec(t, env, src, dest).status.Ok?
  {
    MakeDirsSucceeds(t, dest);
    assert !env.writeFails(dest);
    var t1 := CreateDirAll(t, env, dest).value;
    var all := Walk(t, env, [src]);
    WalkClean(t, env, src);
    WalkDistinct(t, env, src);
    WalkParentFirst(t, env, src);
    WalkBelowRoot(t, env, src);
    assert all[..0] == [] && all[0..] == all;
    ReplaySucceeds(t, env, src, dest, all, 0, t1);
  }

  /** The scenario of the copy test: a nested file of the scratch directory
      reaches the same place below a freshly created destination. */
  lemma CopyReachesNestedFile(t: Tree, env: Env, src: Path, dest: Path)
    requires Valid(t) && Enumerates(t, env) && NoListingFaults(env) && NoCopyFaults(env)
    requires IsDir(t, src) && IsDir(t, dest) && forall q :: q in t ==> !IsStrictPrefix(dest, q)
    requires src + ["dir1", "file1"] in t
    ensures var c := CopySpec(t, env, src, dest);
      && c.status.Ok?
      && dest + ["dir1", "file1"] in c.tree
      && c.tree[dest + ["dir1", "file1"]] == t[src + ["dir1", "file1"]]
  {
    var k := src + ["dir1", "file1"];
    forall j | 0 <= j <= |dest| && dest[..j] in t ensures t[dest[..j]].Dir? {
      if j < |dest| {
        AncestorIsDir(t, dest, j);
      } else {
        assert dest[..j] == dest;
      }
    }
    forall k' | k' in t && IsStrictPrefix(src, k') ensures Target(src, dest, k') !in t {
      assert IsStrictPrefix(dest, Target(src, dest, k'));
    }
    CopySucceeds(t, env, src, dest);
    CopyComplete(t, env, src, dest);
    assert k[..|src|] == src && k in Subtree(t, src);
    assert Target(src, dest, k) == dest + ["dir1", "file1"];
  }
}
