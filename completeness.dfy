/**
 * Completeness and uniqueness of the traversal: on a well-formed tree whose
 * read order lists each directory faithfully, a walk that meets no error
 * emits every entry strictly below the root exactly once, and a walk with
 * no injected faults meets no error.
 */
module Completeness {
  import opened Fs
  import opened Traversal
  import opened WalkFacts

  /** No primitive call made while listing faults. */
  ghost predicate NoListingFaults(env: Env) {
    && (forall p :: !env.readDirFails(p))
    && (forall p :: !env.listMetaFails(p))
    && (forall p, i :: !env.nextEntryFails(p, i))
  }

  /** The entries below each path of the worklist, counted with multiplicity. */
  ghost function Forest(t: Tree, s: seq<Path>): multiset<Path> {
    if s == [] then multiset{} else Forest(t, s[..|s| - 1]) + multiset(Subtree(t, s[|s| - 1]))
  }

  /** The entries below some path of `s`. */
  ghost function Union(t: Tree, s: seq<Path>): set<Path> {
    if s == [] then {} else Union(t, s[..|s| - 1]) + Subtree(t, s[|s| - 1])
  }

  lemma {:induction false} ForestConcat(t: Tree, a: seq<Path>, b: seq<Path>)
    ensures Forest(t, a + b) == Forest(t, a) + Forest(t, b)
    decreases |b|
  {
    if b == [] {
      assert a + b == a;
    } else {
      assert (a + b)[..|a + b| - 1] == a + b[..|b| - 1];
      ForestConcat(t, a, b[..|b| - 1]);
    }
  }

  lemma {:induction false} UnionMember(t: Tree, s: seq<Path>, k: Path)
    ensures k in Union(t, s) <==> exists i :: 0 <= i < |s| && k in Subtree(t, s[i])
    decreases |s|
  {
    if s != [] {
      var init := s[..|s| - 1];
      UnionMember(t, init, k);
      if k in Union(t, init) {
        var i :| 0 <= i < |init| && k in Subtree(t, init[i]);
        assert s[i] == init[i];
      }
      if exists i :: 0 <= i < |s| && k in Subtree(t, s[i]) {
        var i :| 0 <= i < |s| && k in Subtree(t, s[i]);
        if i < |s| - 1 {
          assert init[i] == s[i];
        }
      }
    }
  }

  lemma MultisetOfDisjointUnion(a: set<Path>, b: set<Path>)
    requires a !! b
    ensures multiset(a + b) == multiset(a) + multiset(b)
  {
    forall x ensures multiset(a + b)[x] == (multiset(a) + multiset(b))[x] {
    }
  }

  lemma {:induction false} DistinctMultiset(s: seq<Path>)
    requires Distinct(s)
    ensures multiset(s) == multiset(set x | x in s)
    decreases |s|
  {
    if s != [] {
      var init := s[..|s| - 1];
      var last := s[|s| - 1];
      InitLast(s);
      DistinctMultiset(init);
      assert last !in init;
      assert (set x | x in s) == (set x | x in init) + {last};
      MultisetOfDisjointUnion(set x | x in init, {last});
    }
  }

  lemma {:induction false} DirsOfDistinct(t: Tree, cs: seq<Path>)
    requires Distinct(cs)
    ensures Distinct(DirsOf(t, cs))
    decreases |cs|
  {
    if cs != [] {
      var init := cs[..|cs| - 1];
      DirsOfDistinct(t, init);
      assert cs[|cs| - 1] !in init;
    }
  }

  lemma ChildPathsDistinct(p: Path, names: seq<Segment>)
    requires Distinct(names)
    ensures Distinct(ChildPaths(p, names))
  {
    var cs := ChildPaths(p, names);
    forall i, j | 0 <= i < j < |cs| ensures cs[i] != cs[j] {
      assert cs[i][|p|] == names[i] && cs[j][|p|] == names[j];
    }
  }

  /** Subtrees of distinct paths of one length are disjoint, so the forest
      counts each entry of their union once. */
  lemma {:induction false} ForestIsUnion(t: Tree, ds: seq<Path>, n: nat)
    requires Distinct(ds) && forall d :: d in ds ==> |d| == n
    ensures Forest(t, ds) == multiset(Union(t, ds))
    decreases |ds|
  {
    if ds != [] {
      var init := ds[..|ds| - 1];
      var last := ds[|ds| - 1];
      ForestIsUnion(t, init, n);
      forall k | k in Union(t, init) ensures k !in Subtree(t, last) {
        UnionMember(t, init, k);
        var i :| 0 <= i < |init| && k in Subtree(t, init[i]);
        assert init[i] == ds[i];
        assert k[..n] == init[i] != last;
      }
      MultisetOfDisjointUnion(Union(t, init), Subtree(t, last));
    }
  }

  /** Every entry below a directory is a child or lies below a directory child. */
  lemma SubtreeCovered(t: Tree, env: Env, p: Path, k: Path)
    requires Valid(t) && Enumerates(t, env) && IsDir(t, p) && k in Subtree(t, p)
    ensures k in Children(t, p) || k in Union(t, DirsOf(t, ChildPaths(p, env.order(p))))
  {
    var cs := ChildPaths(p, env.order(p));
    var ds := DirsOf(t, cs);
    var n := |p| + 1;
    if |k| > n {
      var d := k[..n];
      AncestorIsDir(t, k, n);
      assert d[..|p|] == p;
      assert d in Children(t, p);
      assert (set c | c in cs) == Children(t, p);
      assert d in cs;
      assert d in ds;
      var i :| 0 <= i < |ds| && ds[i] == d;
      assert k in Subtree(t, ds[i]);
      UnionMember(t, ds, k);
    }
  }

  /** Whatever lies below a directory child lies below the directory, and
      deeper than its children. */
  lemma UnionBelow(t: Tree, env: Env, p: Path, k: Path)
    requires k in Union(t, DirsOf(t, ChildPaths(p, env.order(p))))
    ensures k in Subtree(t, p) && |k| > |p| + 1
  {
    var ds := DirsOf(t, ChildPaths(p, env.order(p)));
    UnionMember(t, ds, k);
    var i :| 0 <= i < |ds| && k in Subtree(t, ds[i]);
    assert ds[i] in ds;
    ChildPathsShape(p, env.order(p), ds[i]);
    assert k[..|p|] == k[..|p| + 1][..|p|];
  }

  lemma SubtreeSets(t: Tree, env: Env, p: Path)
    requires Valid(t) && Enumerates(t, env) && IsDir(t, p)
    ensures Subtree(t, p) == Children(t, p) + Union(t, DirsOf(t, ChildPaths(p, env.order(p))))
    ensures Children(t, p) !! Union(t, DirsOf(t, ChildPaths(p, env.order(p))))
  {
    var u := Union(t, DirsOf(t, ChildPaths(p, env.order(p))));
    forall k | k in Subtree(t, p) ensures k in Children(t, p) + u {
      SubtreeCovered(t, env, p, k);
    }
    forall k | k in u ensures k in Subtree(t, p) && k !in Children(t, p) {
      UnionBelow(t, env, p, k);
    }
  }

  /** The entries below a directory are its children plus the entries below
      its directory children, each counted once. */
  lemma SubtreeSplit(t: Tree, env: Env, p: Path)
    requires Valid(t) && Enumerates(t, env) && IsDir(t, p)
    ensures multiset(Subtree(t, p))
            == multiset(ChildPaths(p, env.order(p))) + Forest(t, DirsOf(t, ChildPaths(p, env.order(p))))
  {
    var cs := ChildPaths(p, env.order(p));
    var ds := DirsOf(t, cs);
    assert Distinct(env.order(p)) && (set c | c in cs) == Children(t, p);
    ChildPathsDistinct(p, env.order(p));
    DirsOfDistinct(t, cs);
    forall d | d in ds ensures |d| == |p| + 1 {
      ChildPathsShape(p, env.order(p), d);
    }
    ForestIsUnion(t, ds, |p| + 1);
    DistinctMultiset(cs);
    SubtreeSets(t, env, p);
    MultisetOfDisjointUnion(Children(t, p), Union(t, ds));
  }

  lemma {:induction false} WalkForest(t: Tree, env: Env, stack: seq<Path>)
    requires Valid(t) && Enumerates(t, env) && NoErr(Walk(t, env, stack))
    ensures multiset(Oks(Walk(t, env, stack))) == Forest(t, stack)
    decreases SumW(t, env, stack)
  {
    if stack != [] {
      var p := stack[|stack| - 1];
      var rest := stack[..|stack| - 1];
      var l := Listing(t, env, p);
      var next := rest + l.pushed;
      StepDecreases(t, env, stack);
      WalkUnfold(t, env, stack);
      NoErrPrefix(Emit(l.result), Walk(t, env, next));
      NoErrEmit(l.result);
      ListingFacts(t, env, p);
      var cs := l.result.value;
      WalkForest(t, env, next);
      OksConcat(Emit(l.result), Walk(t, env, next));
      OksOfOks(cs);
      ForestConcat(t, rest, l.pushed);
      SubtreeSplit(t, env, p);
    }
  }

  /** Completeness and once-only: a walk that meets no error emits every
      entry strictly below the root exactly once, and nothing else. */
  lemma WalkEmitsEachOnce(t: Tree, env: Env, root: Path)
    requires Valid(t) && Enumerates(t, env) && NoErr(Walk(t, env, [root]))
    ensures multiset(Oks(Walk(t, env, [root]))) == multiset(Subtree(t, root))
    ensures forall k :: multiset(Oks(Walk(t, env, [root])))[k] == if k in Subtree(t, root) then 1 else 0
  {
    WalkForest(t, env, [root]);
    assert Forest(t, [root]) == multiset{} + multiset(Subtree(t, root));
  }

  /** A directory lists without error when nothing faults and its read order is faithful. */
  lemma ListingClean(t: Tree, env: Env, p: Path)
    requires Enumerates(t, env) && NoListingFaults(env) && IsDir(t, p)
    ensures Listing(t, env, p).result.Ok?
  {
    var names := env.order(p);
    var cs := ChildPaths(p, names);
    ListingFacts(t, env, p);
    assert (set c | c in cs) == Children(t, p);
    forall i | 0 <= i <= |names| ensures Fault(t, env, p, names, i).None? {
      assert !env.nextEntryFails(p, i);
      if i < |names| {
        assert cs[i] in cs;
        assert cs[i] == p + [names[i]];
        assert cs[i] in Children(t, p);
        assert !env.listMetaFails(cs[i]);
      }
    }
  }

  lemma NoErrConcat(a: seq<Item>, b: seq<Item>)
    requires NoErr(a) && NoErr(b)
    ensures NoErr(a + b)
  {
    forall i | 0 <= i < |a + b| ensures (a + b)[i].Ok? {
      if i >= |a| {
        assert (a + b)[i] == b[i - |a|];
      }
    }
  }

  lemma {:induction false} WalkCleanFrom(t: Tree, env: Env, stack: seq<Path>)
    requires Enumerates(t, env) && NoListingFaults(env)
    requires forall s :: s in stack ==> IsDir(t, s)
    ensures NoErr(Walk(t, env, stack))
    decreases SumW(t, env, stack)
  {
    if stack != [] {
      var p := stack[|stack| - 1];
      var rest := stack[..|stack| - 1];
      var l := Listing(t, env, p);
      var next := rest + l.pushed;
      StepDecreases(t, env, stack);
      WalkUnfold(t, env, stack);
      assert p in stack;
      ListingClean(t, env, p);
      ListingFacts(t, env, p);
      forall s | s in next ensures IsDir(t, s) {
        if s !in rest {
          assert s in l.pushed;
        }
      }
      WalkCleanFrom(t, env, next);
      NoErrConcat(Emit(l.result), Walk(t, env, next));
    }
  }

  /** A walk from a directory meets no error when no listing call faults and
      the read order lists each directory faithfully. */
  lemma WalkClean(t: Tree, env: Env, root: Path)
    requires Enumerates(t, env) && NoListingFaults(env) && IsDir(t, root)
    ensures NoErr(Walk(t, env, [root]))
  {
    WalkCleanFrom(t, env, [root]);
  }
}
