/**
 * What the traversal stream promises: it stays strictly below the root,
 * emits every entry after its parent up to its first error, and carries
 * only the errors of listings. That it emits every entry exactly once is
 * in the module Completeness.
 */
module WalkFacts {
  import opened Fs
  import opened Traversal

  /** The paths of the stream's entries, in stream order. */
  function Oks(items: seq<Item>): (ps: seq<Path>)
    ensures |ps| <= |items|
    ensures forall x :: x in ps <==> Ok(x) in items
  {
    if items == [] then []
    else
      var last := items[|items| - 1];
      Oks(items[..|items| - 1]) + (if last.Ok? then [last.value] else [])
  }

  predicate NoErr(items: seq<Item>) {
    forall i :: 0 <= i < |items| ==> items[i].Ok?
  }

  lemma {:induction false} OksConcat(a: seq<Item>, b: seq<Item>)
    ensures Oks(a + b) == Oks(a) + Oks(b)
    decreases |b|
  {
    if b == [] {
      assert a + b == a;
    } else {
      assert (a + b)[..|a + b| - 1] == a + b[..|b| - 1];
      OksConcat(a, b[..|b| - 1]);
    }
  }

  lemma {:induction false} OksOfOks(cs: seq<Path>)
    ensures Oks(Emit(Ok(cs))) == cs
    decreases |cs|
  {
    if cs != [] {
      var init := cs[..|cs| - 1];
      var e := Emit(Ok(cs));
      assert e[..|e| - 1] == Emit(Ok(init));
      OksOfOks(init);
      InitLast(cs);
    }
  }

  /** One unfolding of `Walk` on a non-empty worklist. */
  lemma WalkUnfold(t: Tree, env: Env, stack: seq<Path>)
    requires stack != []
    ensures Walk(t, env, stack)
            == Emit(Listing(t, env, stack[|stack| - 1]).result)
               + Walk(t, env, stack[..|stack| - 1] + Listing(t, env, stack[|stack| - 1]).pushed)
  {
  }

  // ---------------------------------------------------------------------
  // Every entry lies strictly below the root
  // ---------------------------------------------------------------------

  /** A child of a path below `root` is strictly below `root`. */
  lemma ChildBelow(root: Path, p: Path, names: seq<Segment>, x: Path)
    requires IsPrefix(root, p) && x in ChildPaths(p, names)
    ensures IsStrictPrefix(root, x)
  {
    ChildPathsShape(p, names, x);
    assert x[..|root|] == x[..|p|][..|root|];
  }

  /** One listing of a path below `root` emits and pushes only paths strictly below `root`. */
  lemma ListingBelow(t: Tree, env: Env, root: Path, p: Path)
    requires IsPrefix(root, p)
    ensures forall s :: s in Listing(t, env, p).pushed ==> IsPrefix(root, s)
    ensures forall x :: Ok(x) in Emit(Listing(t, env, p).result) ==> IsStrictPrefix(root, x) && x in t
  {
    var l := Listing(t, env, p);
    ListingFacts(t, env, p);
    forall s | s in l.pushed ensures IsPrefix(root, s) {
      assert s in DirsOf(t, ChildPaths(p, env.order(p)));
      ChildBelow(root, p, env.order(p), s);
    }
    forall x | Ok(x) in Emit(l.result) ensures IsStrictPrefix(root, x) && x in t {
      var i :| 0 <= i < |Emit(l.result)| && Emit(l.result)[i] == Ok(x);
      assert x in l.result.value;
      ChildBelow(root, p, env.order(p), x);
    }
  }

  lemma {:induction false} WalkBelowFrom(t: Tree, env: Env, root: Path, stack: seq<Path>)
    requires forall s :: s in stack ==> IsPrefix(root, s)
    ensures forall x :: Ok(x) in Walk(t, env, stack) ==> IsStrictPrefix(root, x) && x in t
    decreases SumW(t, env, stack)
  {
    if stack != [] {
      var p := stack[|stack| - 1];
      var rest := stack[..|stack| - 1];
      var l := Listing(t, env, p);
      var next := rest + l.pushed;
      StepDecreases(t, env, stack);
      WalkUnfold(t, env, stack);
      assert p in stack;
      ListingBelow(t, env, root, p);
      forall s | s in next ensures IsPrefix(root, s) {
        if s !in l.pushed {
          assert s in rest;
        }
      }
      WalkBelowFrom(t, env, root, next);
    }
  }

  /** The root itself is never emitted: every entry is strictly below it and in the tree. */
  lemma WalkBelowRoot(t: Tree, env: Env, root: Path)
    ensures forall x :: Ok(x) in Walk(t, env, [root]) ==> IsStrictPrefix(root, x) && x in t
  {
    WalkBelowFrom(t, env, root, [root]);
  }

  // ---------------------------------------------------------------------
  // Parent before child
  // ---------------------------------------------------------------------

  /** Up to the first error, every entry's parent is a directory that is
      either the root or an entry emitted earlier. */
  ghost predicate ParentFirst(t: Tree, root: Path, items: seq<Item>) {
    forall i :: 0 <= i < |items| && items[i].Ok? && NoErr(items[..i]) ==>
      items[i].value != [] && IsDir(t, Parent(items[i].value)) &&
      (Parent(items[i].value) == root || Ok(Parent(items[i].value)) in items[..i])
  }

  /** While no error has been emitted, everything on the worklist is the
      root or an entry already emitted. */
  ghost predicate StackEmitted(root: Path, done: seq<Item>, stack: seq<Path>) {
    NoErr(done) ==> forall s :: s in stack ==> s == root || Ok(s) in done
  }

  lemma NoErrPrefix(a: seq<Item>, b: seq<Item>)
    requires NoErr(a + b)
    ensures NoErr(a) && NoErr(b)
  {
    forall i | 0 <= i < |a| ensures a[i].Ok? { assert (a + b)[i] == a[i]; }
    forall i | 0 <= i < |b| ensures b[i].Ok? { assert (a + b)[|a| + i] == b[i]; }
  }

  /** A step that emits no error is a successful listing. */
  lemma NoErrEmit(r: Result<seq<Path>>)
    ensures NoErr(Emit(r)) ==> r.Ok?
  {
    if r.Err? {
      assert Emit(r)[0].Err?;
    }
  }

  /** The entries of one listing have the popped directory as parent. */
  lemma ParentFirstStep(t: Tree, env: Env, root: Path, done: seq<Item>, stack: seq<Path>)
    requires stack != []
    requires ParentFirst(t, root, done) && StackEmitted(root, done, stack)
    ensures ParentFirst(t, root, done + Emit(Listing(t, env, stack[|stack| - 1]).result))
  {
    var p := stack[|stack| - 1];
    var l := Listing(t, env, p);
    var b := Emit(l.result);
    var done' := done + b;
    ListingFacts(t, env, p);
    assert p in stack;
    forall i | 0 <= i < |done'| && done'[i].Ok? && NoErr(done'[..i])
      ensures done'[i].value != [] && IsDir(t, Parent(done'[i].value))
      ensures Parent(done'[i].value) == root || Ok(Parent(done'[i].value)) in done'[..i]
    {
      TakeOfConcat(done, b, i);
      if i >= |done| {
        NoErrPrefix(done, b[..i - |done|]);
        var x := done'[i].value;
        assert b[i - |done|] == Ok(x);
        assert l.result.Ok?;
        assert x in l.result.value;
        ChildPathsShape(p, env.order(p), x);
        assert Ok(p) in done ==> Ok(p) in done'[..i];
      }
    }
  }

  /** After one step, the worklist still holds only the root and emitted entries. */
  lemma StackEmittedStep(t: Tree, env: Env, root: Path, done: seq<Item>, stack: seq<Path>)
    requires stack != []
    requires StackEmitted(root, done, stack)
    ensures StackEmitted(root, done + Emit(Listing(t, env, stack[|stack| - 1]).result),
                         stack[..|stack| - 1] + Listing(t, env, stack[|stack| - 1]).pushed)
  {
    var p := stack[|stack| - 1];
    var l := Listing(t, env, p);
    var b := Emit(l.result);
    var done' := done + b;
    if NoErr(done') {
      NoErrPrefix(done, b);
      ListingFacts(t, env, p);
      NoErrEmit(l.result);
      forall s | s in stack[..|stack| - 1] + l.pushed
        ensures s == root || Ok(s) in done'
      {
        if s in l.pushed {
          assert s in l.result.value;
          var j :| 0 <= j < |l.result.value| && l.result.value[j] == s;
          assert done'[|done| + j] == Ok(s);
        } else {
          assert s in stack;
        }
      }
    }
  }

  lemma {:induction false} ParentFirstFrom(t: Tree, env: Env, root: Path, done: seq<Item>, stack: seq<Path>)
    requires ParentFirst(t, root, done) && StackEmitted(root, done, stack)
    ensures ParentFirst(t, root, done + Walk(t, env, stack))
    decreases SumW(t, env, stack)
  {
    if stack == [] {
      assert done + Walk(t, env, stack) == done;
    } else {
      var l := Listing(t, env, stack[|stack| - 1]);
      var next := stack[..|stack| - 1] + l.pushed;
      StepDecreases(t, env, stack);
      WalkUnfold(t, env, stack);
      ParentFirstStep(t, env, root, done, stack);
      StackEmittedStep(t, env, root, done, stack);
      ParentFirstFrom(t, env, root, done + Emit(l.result), next);
      AppendAssoc(done, Emit(l.result), Walk(t, env, next));
    }
  }

  /** Parent before child: up to the first error, each entry's parent
      directory is the root or was emitted earlier. */
  lemma WalkParentFirst(t: Tree, env: Env, root: Path)
    ensures ParentFirst(t, root, Walk(t, env, [root]))
  {
    ParentFirstFrom(t, env, root, [], [root]);
    assert [] + Walk(t, env, [root]) == Walk(t, env, [root]);
  }

  /** The root's listing: its only child, a directory, is pushed, then the
      next fetch faults. */
  lemma FetchFailsAfterDir(t: Tree, env: Env, root: Path, a: Segment)
    requires IsDir(t, root) && IsDir(t, root + [a]) && env.order(root) == [a]
    requires !env.readDirFails(root) && !env.listMetaFails(root + [a])
    requires !env.nextEntryFails(root, 0) && env.nextEntryFails(root, 1)
    ensures Listing(t, env, root) == Listed(Err(Injected), [root + [a]])
  {
    assert FirstFault(t, env, root, [a], 1) == 1;
    assert FirstFault(t, env, root, [a], 0) == 1;
    assert ChildPaths(root, [a])[..1] == [root + [a]];
    assert DirsOf(t, [root + [a]]) == [root + [a]];
  }

  /** A directory holding one file lists it and pushes nothing. */
  lemma ListsOneFile(t: Tree, env: Env, d: Path, b: Segment)
    requires IsDir(t, d) && d + [b] in t && t[d + [b]].File? && env.order(d) == [b]
    requires !env.readDirFails(d) && !env.listMetaFails(d + [b])
    requires !env.nextEntryFails(d, 0) && !env.nextEntryFails(d, 1)
    ensures Listing(t, env, d) == Listed(Ok([d + [b]]), [])
    ensures Walk(t, env, [d]) == [Ok(d + [b])]
  {
    assert FirstFault(t, env, d, [b], 2) == 2;
    assert FirstFault(t, env, d, [b], 1) == 2;
    assert FirstFault(t, env, d, [b], 0) == 2;
    assert ChildPaths(d, [b]) == [d + [b]];
    assert DirsOf(t, [d + [b]]) == [];
    WalkUnfold(t, env, [d]);
    assert [d][..0] + [] == [];
    assert Emit(Ok([d + [b]])) == [Ok(d + [b])];
  }

  /** Parent-first fails beyond the first error: when the fetch after the
      root's only child, a directory, faults, the root's listing reports one
      error, yet that directory stays pushed and is expanded next. Its child
      is emitted while the directory itself never is. */
  lemma PushedDirOutlivesFailedListing(t: Tree, env: Env, root: Path, a: Segment, b: Segment)
    requires IsDir(t, root) && IsDir(t, root + [a]) && root + [a, b] in t && t[root + [a, b]].File?
    requires env.order(root) == [a] && env.order(root + [a]) == [b]
    requires !env.readDirFails(root) && !env.readDirFails(root + [a])
    requires !env.nextEntryFails(root, 0) && env.nextEntryFails(root, 1)
    requires !env.nextEntryFails(root + [a], 0) && !env.nextEntryFails(root + [a], 1)
    requires !env.listMetaFails(root + [a]) && !env.listMetaFails(root + [a, b])
    ensures Walk(t, env, [root]) == [Err(Injected), Ok(root + [a, b])]
    ensures Ok(root + [a, b]) in Walk(t, env, [root]) && Ok(root + [a]) !in Walk(t, env, [root])
  {
    var d := root + [a];
    assert d + [b] == root + [a, b];
    FetchFailsAfterDir(t, env, root, a);
    ListsOneFile(t, env, d, b);
    WalkUnfold(t, env, [root]);
    assert [root][..0] + [d] == [d];
    assert Emit(Err(Injected)) == [Err(Injected)];
  }

  // ---------------------------------------------------------------------
  // Which errors the stream reports
  // ---------------------------------------------------------------------

  /** A failed listing reports an injected fault, a missing path or a file
      where a directory was expected, and nothing else. */
  lemma ListingErrKinds(t: Tree, env: Env, p: Path)
    ensures Listing(t, env, p).result.Err? ==>
      Listing(t, env, p).result.error in {Injected, NotFound, NotADirectory}
  {
  }

  lemma {:induction false} WalkErrKindsFrom(t: Tree, env: Env, stack: seq<Path>)
    ensures forall e :: Err(e) in Walk(t, env, stack) ==> e in {Injected, NotFound, NotADirectory}
    decreases SumW(t, env, stack)
  {
    if stack != [] {
      var p := stack[|stack| - 1];
      var l := Listing(t, env, p);
      var next := stack[..|stack| - 1] + l.pushed;
      StepDecreases(t, env, stack);
      WalkUnfold(t, env, stack);
      ListingErrKinds(t, env, p);
      WalkErrKindsFrom(t, env, next);
      forall e | Err(e) in Emit(l.result) ensures e in {Injected, NotFound, NotADirectory} {
        var i :| 0 <= i < |Emit(l.result)| && Emit(l.result)[i] == Err(e);
      }
    }
  }

  /** The only errors in the stream are those of failed listings. */
  lemma WalkErrKinds(t: Tree, env: Env, root: Path)
    ensures forall e :: Err(e) in Walk(t, env, [root]) ==> e in {Injected, NotFound, NotADirectory}
  {
    WalkErrKindsFrom(t, env, [root]);
  }
}
