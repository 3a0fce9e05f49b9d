/**
 * The explicit-stack walk behind `TmpDir::traverse` and `TmpDir::list_contents`.
 *
 * The stream is seeded with the root on a worklist. Each step pops the last
 * path, lists it and emits every child (or, when the listing fails, one
 * error), pushing each child that is a directory. The stream ends when a
 * pop finds the worklist empty. `Walk` is the whole stream as a value;
 * `Traverse` and `ListContents` are the loops that compute it.
 */
module Traversal {
  import opened Fs

  /** One item of the stream: an entry's path, or the error of a failed listing. */
  type Item = Result<Path>

  // ---------------------------------------------------------------------
  // Listing one directory
  // ---------------------------------------------------------------------

  /** The fault met at step `i` of listing `path`: step `i < |names|` fetches
      entry `i` and reads its metadata; step `|names|` is the fetch that
      reports the end of the directory. */
  function Fault(t: Tree, env: Env, path: Path, names: seq<Segment>, i: nat): Option<ErrorKind>
    requires i <= |names|
  {
    if env.nextEntryFails(path, i) then Some(Injected)
    else if i == |names| then None
    else
      var child := path + [names[i]];
      match Metadata(t, child, env.listMetaFails(child))
      case Err(e) => Some(e)
      case Ok(_) => None
  }

  /** The first faulting step at or after `i`, or `|names| + 1` when none faults. */
  function FirstFault(t: Tree, env: Env, path: Path, names: seq<Segment>, i: nat): (k: nat)
    requires i <= |names| + 1
    decreases |names| + 1 - i
    ensures i <= k <= |names| + 1
    ensures k <= |names| ==> Fault(t, env, path, names, k).Some?
    ensures forall j :: i <= j < k ==> Fault(t, env, path, names, j).None?
  {
    if i > |names| then i
    else if Fault(t, env, path, names, i).Some? then i
    else FirstFault(t, env, path, names, i + 1)
  }

  /** The directories among `cs`, in the order of `cs`. */
  function DirsOf(t: Tree, cs: seq<Path>): (ds: seq<Path>)
    ensures |ds| <= |cs|
    ensures forall x :: x in ds <==> x in cs && IsDir(t, x)
  {
    if cs == [] then []
    else DirsOf(t, cs[..|cs| - 1]) + (if IsDir(t, cs[|cs| - 1]) then [cs[|cs| - 1]] else [])
  }

  /** What listing one directory produces: the entries (or an error) and the
      directories pushed on the worklist meanwhile. */
  datatype Listed = Listed(result: Result<seq<Path>>, pushed: seq<Path>)

  /** `list_contents` as a value. On success every entry is returned in read
      order and exactly the directory entries are pushed, in the same order.
      On a fault the entries gathered so far are dropped and one error is
      returned, while the directories already pushed stay pushed. */
  function Listing(t: Tree, env: Env, path: Path): Listed
  {
    match ReadDir(t, env, path)
    case Err(e) => Listed(Err(e), [])
    case Ok(names) =>
      var cs := ChildPaths(path, names);
      var k := FirstFault(t, env, path, names, 0);
      if k <= |names| then
        Listed(Err(Fault(t, env, path, names, k).value), DirsOf(t, cs[..k]))
      else
        Listed(Ok(cs), DirsOf(t, cs))
  }

  /** What `Listing` promises, as listed in its doc comment. */
  lemma ListingFacts(t: Tree, env: Env, path: Path)
    ensures var l := Listing(t, env, path);
      && (l.result.Ok? <==> (ReadDir(t, env, path).Ok? &&
                             forall i :: 0 <= i <= |env.order(path)| ==> Fault(t, env, path, env.order(path), i).None?))
      && (l.result.Ok? ==> IsDir(t, path)
                           && l.result.value == ChildPaths(path, env.order(path))
                           && l.pushed == DirsOf(t, l.result.value)
                           && forall c :: c in l.result.value ==> c in t)
      && l.pushed <= DirsOf(t, ChildPaths(path, env.order(path)))
      && (l.pushed != [] ==> IsDir(t, path))
  {
    match ReadDir(t, env, path)
    case Err(e) =>
    case Ok(names) =>
      var cs := ChildPaths(path, names);
      var k := FirstFault(t, env, path, names, 0);
      DirsOfPrefix(t, cs, k);
      if k > |names| {
        forall c | c in cs ensures c in t {
          var i :| 0 <= i < |cs| && cs[i] == c;
          assert Fault(t, env, path, names, i).None?;
        }
      }
  }

  /** Filtering a prefix gives a prefix of the filtered sequence. */
  lemma {:induction false} DirsOfPrefix(t: Tree, cs: seq<Path>, k: nat)
    ensures k <= |cs| ==> DirsOf(t, cs[..k]) <= DirsOf(t, cs)
    decreases |cs|
  {
    if k < |cs| {
      var init := cs[..|cs| - 1];
      assert init[..k] == cs[..k];
      DirsOfPrefix(t, init, k);
    } else if k == |cs| {
      assert cs[..k] == cs;
    }
  }

  /** The listing when fetching entry `i` is the first step that faults. */
  lemma ListingFetchFails(t: Tree, env: Env, path: Path, names: seq<Segment>, i: nat)
    requires ReadDir(t, env, path) == Ok(names) && i <= |names|
    requires FirstFault(t, env, path, names, 0) == FirstFault(t, env, path, names, i)
    requires env.nextEntryFails(path, i)
    ensures Listing(t, env, path) == Listed(Err(Injected), DirsOf(t, ChildPaths(path, names)[..i]))
  {
  }

  /** The listing when reading the metadata of entry `i` is the first step that faults. */
  lemma ListingMetadataFails(t: Tree, env: Env, path: Path, names: seq<Segment>, i: nat, e: ErrorKind)
    requires ReadDir(t, env, path) == Ok(names) && i < |names|
    requires FirstFault(t, env, path, names, 0) == FirstFault(t, env, path, names, i)
    requires !env.nextEntryFails(path, i)
    requires Metadata(t, path + [names[i]], env.listMetaFails(path + [names[i]])) == Err(e)
    ensures Listing(t, env, path) == Listed(Err(e), DirsOf(t, ChildPaths(path, names)[..i]))
  {
  }

  /** The listing when no step faults. */
  lemma ListingEnds(t: Tree, env: Env, path: Path, names: seq<Segment>)
    requires ReadDir(t, env, path) == Ok(names)
    requires FirstFault(t, env, path, names, 0) == FirstFault(t, env, path, names, |names|)
    requires !env.nextEntryFails(path, |names|)
    ensures ChildPaths(path, names)[..|names|] == ChildPaths(path, names)
    ensures Listing(t, env, path) == Listed(Ok(ChildPaths(path, names)), DirsOf(t, ChildPaths(path, names)))
  {
  }

  /** Fetching entry `i` without a fault extends the listing by that entry. */
  lemma ListingStep(t: Tree, env: Env, path: Path, names: seq<Segment>, i: nat)
    requires i < |names| && !env.nextEntryFails(path, i)
    requires Metadata(t, path + [names[i]], env.listMetaFails(path + [names[i]])).Ok?
    ensures FirstFault(t, env, path, names, i) == FirstFault(t, env, path, names, i + 1)
    ensures var cs := ChildPaths(path, names);
      && cs[..i + 1] == cs[..i] + [path + [names[i]]]
      && DirsOf(t, cs[..i + 1]) == DirsOf(t, cs[..i]) + (if IsDir(t, path + [names[i]]) then [path + [names[i]]] else [])
  {
    var cs := ChildPaths(path, names);
    assert cs[..i + 1][..i] == cs[..i];
  }

  /** `list_contents`: lists `path`, pushing each directory entry onto `toVisit`. */
  method ListContents(t: Tree, env: Env, path: Path, toVisit: seq<Path>)
    returns (r: Result<seq<Path>>, toVisit': seq<Path>)
    ensures r == Listing(t, env, path).result
    ensures toVisit' == toVisit + Listing(t, env, path).pushed
  {
    toVisit' := toVisit;
    var dir := ReadDir(t, env, path);
    if dir.Err? {
      return Err(dir.error), toVisit';
    }
    var names := dir.value;
    ghost var cs := ChildPaths(path, names);
    var files: seq<Path> := [];
    var i := 0;
    while i < |names|
      invariant 0 <= i <= |names|
      invariant FirstFault(t, env, path, names, 0) == FirstFault(t, env, path, names, i)
      invariant files == cs[..i]
      invariant toVisit' == toVisit + DirsOf(t, cs[..i])
    {
      if env.nextEntryFails(path, i) {
        ListingFetchFails(t, env, path, names, i);
        return Err(Injected), toVisit';
      }
      var child := path + [names[i]];
      var md := Metadata(t, child, env.listMetaFails(child));
      if md.Err? {
        ListingMetadataFails(t, env, path, names, i, md.error);
        return Err(md.error), toVisit';
      }
      ListingStep(t, env, path, names, i);
      if md.value.Dir? {
        AppendAssoc(toVisit, DirsOf(t, cs[..i]), [child]);
        toVisit' := toVisit' + [child];
        files := files + [child];
      } else {
        assert DirsOf(t, cs[..i]) + [] == DirsOf(t, cs[..i]);
        files := files + [child];
      }
      i := i + 1;
    }
    if env.nextEntryFails(path, |names|) {
      ListingFetchFails(t, env, path, names, i);
      return Err(Injected), toVisit';
    }
    ListingEnds(t, env, path, names);
    return Ok(files), toVisit';
  }

  // ---------------------------------------------------------------------
  // Termination measure
  // ---------------------------------------------------------------------

  function Sum(s: seq<nat>): nat {
    if s == [] then 0 else Sum(s[..|s| - 1]) + s[|s| - 1]
  }

  lemma {:induction false} SumConcat(a: seq<nat>, b: seq<nat>)
    ensures Sum(a + b) == Sum(a) + Sum(b)
    decreases |b|
  {
    if b != [] {
      assert (a + b)[..|a + b| - 1] == a + b[..|b| - 1];
      SumConcat(a, b[..|b| - 1]);
    } else {
      assert a + b == a;
    }
  }

  /** A directory child of `p` has a strictly smaller subtree. */
  lemma ChildShrinks(t: Tree, p: Path, names: seq<Segment>, x: Path)
    requires x in DirsOf(t, ChildPaths(p, names))
    ensures Subtree(t, x) < Subtree(t, p)
  {
    var cs := ChildPaths(p, names);
    var i :| 0 <= i < |cs| && cs[i] == x;
    assert x[..|p|] == p;
    forall k | k in Subtree(t, x) ensures k in Subtree(t, p) {
      assert k[..|p|] == k[..|x|][..|p|];
    }
    assert x in Subtree(t, p) && x !in Subtree(t, x);
  }

  /** The number of pops the walk spends below `p`, counting `p` itself. */
  ghost function W(t: Tree, env: Env, p: Path): nat
    decreases Subtree(t, p)
  {
    if IsDir(t, p) then
      var ds := DirsOf(t, ChildPaths(p, env.order(p)));
      1 + Sum(seq(|ds|, i requires 0 <= i < |ds| =>
                assert ds[i] in ds; ChildShrinks(t, p, env.order(p), ds[i]); W(t, env, ds[i])))
    else 1
  }

  ghost function Weights(t: Tree, env: Env, s: seq<Path>): seq<nat> {
    seq(|s|, i requires 0 <= i < |s| => W(t, env, s[i]))
  }

  ghost function SumW(t: Tree, env: Env, s: seq<Path>): nat {
    Sum(Weights(t, env, s))
  }

  lemma SumWConcat(t: Tree, env: Env, a: seq<Path>, b: seq<Path>)
    ensures SumW(t, env, a + b) == SumW(t, env, a) + SumW(t, env, b)
  {
    assert Weights(t, env, a + b) == Weights(t, env, a) + Weights(t, env, b);
    SumConcat(Weights(t, env, a), Weights(t, env, b));
  }

  lemma SumWPrefix(t: Tree, env: Env, a: seq<Path>, b: seq<Path>)
    requires a <= b
    ensures SumW(t, env, a) <= SumW(t, env, b)
  {
    assert b == a + b[|a|..];
    SumWConcat(t, env, a, b[|a|..]);
  }

  lemma WeightOfDir(t: Tree, env: Env, p: Path)
    requires IsDir(t, p)
    ensures W(t, env, p) == 1 + SumW(t, env, DirsOf(t, ChildPaths(p, env.order(p))))
  {
    var ds := DirsOf(t, ChildPaths(p, env.order(p)));
    assert Weights(t, env, ds) == seq(|ds|, i requires 0 <= i < |ds| =>
              assert ds[i] in ds; ChildShrinks(t, p, env.order(p), ds[i]); W(t, env, ds[i]));
  }

  lemma SumWSingle(t: Tree, env: Env, p: Path)
    ensures SumW(t, env, [p]) == W(t, env, p)
  {
    var w := Weights(t, env, [p]);
    assert w == [W(t, env, p)];
    assert w[..|w| - 1] == [];
    assert Sum(w) == Sum([]) + w[0];
  }

  /** One step of the walk: popping `p` and pushing what its listing pushes
      lowers the total weight of the worklist. */
  lemma StepDecreases(t: Tree, env: Env, stack: seq<Path>)
    requires stack != []
    ensures SumW(t, env, stack[..|stack| - 1] + Listing(t, env, stack[|stack| - 1]).pushed)
            < SumW(t, env, stack)
  {
    var p := stack[|stack| - 1];
    var rest := stack[..|stack| - 1];
    var pushed := Listing(t, env, p).pushed;
    assert stack == rest + [p];
    SumWConcat(t, env, rest, [p]);
    SumWConcat(t, env, rest, pushed);
    SumWSingle(t, env, p);
    ListingFacts(t, env, p);
    if IsDir(t, p) {
      WeightOfDir(t, env, p);
      SumWPrefix(t, env, pushed, DirsOf(t, ChildPaths(p, env.order(p))));
    } else {
      assert Weights(t, env, pushed) == [];
    }
  }

  // ---------------------------------------------------------------------
  // The stream
  // ---------------------------------------------------------------------

  /** The items one step contributes to the stream. */
  function Emit(r: Result<seq<Path>>): (items: seq<Item>)
    ensures r.Err? ==> items == [Err(r.error)]
    ensures r.Ok? ==> |items| == |r.value| && forall i :: 0 <= i < |items| ==> items[i] == Ok(r.value[i])
  {
    match r
    case Err(e) => [Err(e)]
    case Ok(cs) => seq(|cs|, i requires 0 <= i < |cs| => Ok(cs[i]))
  }

  /** The whole stream produced from worklist `stack`. */
  function Walk(t: Tree, env: Env, stack: seq<Path>): seq<Item>
    decreases SumW(t, env, stack)
  {
    if stack == [] then []
    else
      var p := stack[|stack| - 1];
      var l := Listing(t, env, p);
      StepDecreases(t, env, stack);
      Emit(l.result) + Walk(t, env, stack[..|stack| - 1] + l.pushed)
  }

  /** `traverse`: the stream seeded with `root` alone, computed with an explicit stack. */
  method Traverse(t: Tree, env: Env, root: Path) returns (items: seq<Item>)
    ensures items == Walk(t, env, [root])
  {
    var toVisit := [root];
    items := [];
    while toVisit != []
      invariant items + Walk(t, env, toVisit) == Walk(t, env, [root])
      decreases SumW(t, env, toVisit)
    {
      ghost var before := toVisit;
      StepDecreases(t, env, before);
      var path := toVisit[|toVisit| - 1];
      toVisit := toVisit[..|toVisit| - 1];
      var files;
      files, toVisit := ListContents(t, env, path, toVisit);
      items := items + Emit(files);
    }
  }
}
