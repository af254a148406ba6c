/** Starting modules: collecting the run dependencies of the requested modules, then starting them in batches. */
module RunSchedule {
  import opened Digraph
  import opened Dependencies
  import opened Options
  import Sets

  type DependencyMap = map<Node, seq<Node>>

  /**
   * The reduction in getRunDependencyMap. The source recurses without a limit; depth counts how many nested calls
   * are still allowed, and None means that they were used up.
   */
  function Collect(c: Config, depth: nat, modules: seq<Node>, collected: DependencyMap): Option<DependencyMap>
    decreases depth, |modules|
  {
    if modules == [] then Some(collected)
    else if modules[0] in collected then Collect(c, depth, modules[1..], collected)
    else if depth == 0 then None
    else
      var direct := GetDirectRunDeps(c, modules[0]);
      var nested := GetRunDependencyMap(c, depth - 1, direct);
      if nested.None? then None
      else Collect(c, depth, modules[1..], collected[modules[0] := direct] + nested.value)
  }

  function GetRunDependencyMap(c: Config, depth: nat, modules: seq<Node>): Option<DependencyMap>
    decreases depth, |modules| + 1
  {
    Collect(c, depth, modules, map[])
  }

  function RunGraph(c: Config): Graph {
    GetAdjacency(c, Run)
  }

  /** A map of direct dependencies, closed under them, from whose keys no walk visits more than bound nodes. */
  ghost predicate Complete(g: Graph, m: DependencyMap, bound: int) {
    && (forall k :: k in m ==> m[k] == g.Succ(k) && Bounded(g, k, bound))
    && ClosedUnder(g, m.Keys)
  }

  /** Adding a module whose direct dependencies have been collected. */
  lemma AddCollected(g: Graph, collected: DependencyMap, m: Node, nested: DependencyMap, depth: int)
    requires Complete(g, collected, depth) && Complete(g, nested, depth - 1) && ToSet(g.Succ(m)) <= nested.Keys
    requires 1 <= depth
    ensures Complete(g, collected[m := g.Succ(m)] + nested, depth)
  {
    ModuleBounded(g, m, nested, depth);
    forall k | k in nested ensures Bounded(g, k, depth) {
      assert Bounded(g, k, depth - 1);
    }
    hide Bounded;
    var more := collected[m := g.Succ(m)] + nested;
    forall k, d | k in more && d in g.Succ(k) ensures d in more {
      if k == m {
        assert d in ToSet(g.Succ(m));
      }
    }
  }

  lemma ModuleBounded(g: Graph, m: Node, nested: DependencyMap, depth: int)
    requires Complete(g, nested, depth - 1) && ToSet(g.Succ(m)) <= nested.Keys && 1 <= depth
    ensures Bounded(g, m, depth)
  {
    forall n | n in g.Succ(m) ensures Bounded(g, n, depth - 1) {
      assert n in ToSet(g.Succ(m));
    }
    BoundedStep(g, m, depth);
  }

  lemma {:induction false} CollectIsComplete(c: Config, depth: nat, modules: seq<Node>, collected: DependencyMap)
    requires Complete(RunGraph(c), collected, depth)
    requires Collect(c, depth, modules, collected).Some?
    ensures var r := Collect(c, depth, modules, collected).value;
      Complete(RunGraph(c), r, depth) && collected.Keys <= r.Keys && ToSet(modules) <= r.Keys
    decreases depth, |modules|
  {
    var g := RunGraph(c);
    if modules != [] {
      var m, rest := modules[0], modules[1..];
      assert ToSet(modules) == {m} + ToSet(rest);
      if m in collected {
        CollectIsComplete(c, depth, rest, collected);
      } else {
        var direct := GetDirectRunDeps(c, m);
        assert g.Succ(m) == direct;
        CollectIsComplete(c, depth - 1, direct, map[]);
        var nested := GetRunDependencyMap(c, depth - 1, direct).value;
        AddCollected(g, collected, m, nested, depth);
        CollectIsComplete(c, depth, rest, collected[m := direct] + nested);
      }
    }
  }

  lemma ReachedThrough(g: Graph, modules: seq<Node>, m: Node, k: Node)
    requires m in modules && (k == m || ReachedFrom(g, g.Succ(m), k))
    ensures ReachedFrom(g, modules, k)
  {
    ReachesSelf(g, m);
    if k != m {
      var a :| a in g.Succ(m) && Reaches(g, a, k);
      ReachesStep(g, m, a, k);
    }
  }

  lemma {:induction false} CollectIsReached(c: Config, depth: nat, modules: seq<Node>, collected: DependencyMap)
    requires Collect(c, depth, modules, collected).Some?
    ensures forall k :: k in Collect(c, depth, modules, collected).value ==>
              k in collected || ReachedFrom(RunGraph(c), modules, k)
    decreases depth, |modules|
  {
    hide Reaches;
    var g := RunGraph(c);
    if modules != [] {
      var m, rest := modules[0], modules[1..];
      assert forall k :: k in rest ==> k in modules;
      if m in collected {
        CollectIsReached(c, depth, rest, collected);
      } else {
        var direct := GetDirectRunDeps(c, m);
        assert g.Succ(m) == direct;
        CollectIsReached(c, depth - 1, direct, map[]);
        var nested := GetRunDependencyMap(c, depth - 1, direct).value;
        CollectIsReached(c, depth, rest, collected[m := direct] + nested);
        forall k | k in nested || k == m ensures ReachedFrom(g, modules, k) {
          ReachedThrough(g, modules, m, k);
        }
      }
    }
  }

  lemma {:induction false} CollectSucceeds(c: Config, depth: nat, modules: seq<Node>, collected: DependencyMap)
    requires AllBounded(RunGraph(c), modules, depth)
    ensures Collect(c, depth, modules, collected).Some?
    decreases depth, |modules|
  {
    if modules != [] {
      var m, rest := modules[0], modules[1..];
      assert modules == [m] + rest;
      if m in collected {
        CollectSucceeds(c, depth, rest, collected);
      } else {
        BoundedStep(RunGraph(c), m, depth);
        var direct := GetDirectRunDeps(c, m);
        CollectSucceeds(c, depth - 1, direct, map[]);
        CollectSucceeds(c, depth, rest, collected[m := direct] + GetRunDependencyMap(c, depth - 1, direct).value);
      }
    }
  }

  /**
   * The nesting that getRunDependencyMap needs is exactly the number of nodes on the longest walk from the requested
   * modules, and its result maps exactly the modules they reach to their direct run dependencies.
   */
  lemma RunDependencyMapExact(c: Config, depth: nat, modules: seq<Node>)
    ensures GetRunDependencyMap(c, depth, modules).Some? <==> AllBounded(RunGraph(c), modules, depth)
    ensures GetRunDependencyMap(c, depth, modules).Some? ==>
              var m := GetRunDependencyMap(c, depth, modules).value;
              && (forall k :: k in m <==> ReachedFrom(RunGraph(c), modules, k))
              && (forall k :: k in m ==> m[k] == GetDirectRunDeps(c, k))
              && Complete(RunGraph(c), m, depth)
  {
    var g := RunGraph(c);
    if GetRunDependencyMap(c, depth, modules).Some? {
      CollectIsComplete(c, depth, modules, map[]);
      CollectIsReached(c, depth, modules, map[]);
      var m := GetRunDependencyMap(c, depth, modules).value;
      forall n | n in modules ensures n in m && Bounded(g, n, depth) {
        assert n in ToSet(modules);
      }
      forall k | ReachedFrom(g, modules, k) ensures k in m {
        var a :| a in modules && Reaches(g, a, k);
        ClosedReaches(g, m.Keys, a, k);
      }
    }
    if AllBounded(g, modules, depth) {
      CollectSucceeds(c, depth, modules, map[]);
    }
  }

  ghost predicate Terminates(c: Config, modules: seq<Node>) {
    exists depth: nat :: GetRunDependencyMap(c, depth, modules).Some?
  }

  /** The recursion ends for every list of modules exactly when the validated graph has no cycle. */
  lemma TerminatesIffAcyclic(c: Config)
    ensures (forall modules :: Terminates(c, modules)) <==> Acyclic(RunGraph(c))
  {
    var g := RunGraph(c);
    if Acyclic(g) {
      forall modules ensures Terminates(c, modules) {
        AcyclicTerminates(c, modules);
      }
    } else {
      var p :| ClosedWalk(g, p);
      forall depth: nat ensures GetRunDependencyMap(c, depth, [p[0]]).None? {
        ReachesSelf(g, p[0]);
        CycleUnbounded(g, p[0], p, depth);
        RunDependencyMapExact(c, depth, [p[0]]);
        assert p[0] in [p[0]];
      }
      assert !Terminates(c, [p[0]]);
    }
  }

  /** After validation, one more nested call than there are configured modules is always enough. */
  lemma AcyclicTerminates(c: Config, modules: seq<Node>)
    requires Acyclic(RunGraph(c))
    ensures GetRunDependencyMap(c, |c.deps| + 1, modules).Some? && Terminates(c, modules)
  {
    var g := RunGraph(c);
    assert |g.out.Keys| == |c.deps.Keys|;
    assert |g.out| == |c.deps|;
    forall n | n in modules ensures Bounded(g, n, |c.deps| + 1) {
      AcyclicBounded(g, n);
    }
    RunDependencyMapExact(c, |c.deps| + 1, modules);
  }

  function Independent(m: DependencyMap): set<Node> {
    set k | k in m && m[k] == []
  }

  function Difference(s: seq<Node>, gone: set<Node>): (r: seq<Node>)
    ensures forall n :: n in r <==> n in s && n !in gone
  {
    if s == [] then []
    else
      assert s == [s[0]] + s[1..];
      (if s[0] in gone then [] else [s[0]]) + Difference(s[1..], gone)
  }

  /** The map for the next round: without the modules just started, also among the dependencies. */
  function Remaining(m: DependencyMap): (r: DependencyMap)
    ensures r.Keys == m.Keys - Independent(m)
    ensures forall k :: k in r ==> r[k] == Difference(m[k], Independent(m))
  {
    map k | k in m && k !in Independent(m) :: Difference(m[k], Independent(m))
  }

  lemma RemainingShrinks(m: DependencyMap)
    requires Independent(m) != {}
    ensures |Remaining(m)| < |m|
  {
    var x :| x in Independent(m);
    assert Remaining(m).Keys < m.Keys;
    Sets.SubsetSize(Remaining(m).Keys, m.Keys);
  }

  /**
   * The batches startModules starts, one set per round of its recursion. A round that starts nothing while modules
   * remain repeats itself with the same arguments for ever: that is None.
   */
  function Batches(m: DependencyMap): Option<seq<set<Node>>>
    decreases |m|
  {
    var batch := Independent(m);
    var remaining := Remaining(m);
    if remaining == map[] then Some([batch])
    else if batch == {} then None
    else
      RemainingShrinks(m);
      var later := Batches(remaining);
      if later.None? then None else Some([batch] + later.value)
  }

  ghost predicate ClosedMap(m: DependencyMap) {
    forall k, d :: k in m && d in m[k] ==> d in m
  }

  /** Where a module is started. */
  ghost predicate StartedIn(batches: seq<set<Node>>, k: Node, i: int) {
    0 <= i < |batches| && k in batches[i]
  }

  ghost predicate StartsExactly(m: DependencyMap, batches: seq<set<Node>>) {
    forall k :: k in m <==> exists i :: StartedIn(batches, k, i)
  }

  ghost predicate StartsOnce(batches: seq<set<Node>>) {
    forall k, i, j :: StartedIn(batches, k, i) && StartedIn(batches, k, j) ==> i == j
  }

  ghost predicate StartsAfterDependencies(m: DependencyMap, batches: seq<set<Node>>) {
    forall k, i, d, j :: StartedIn(batches, k, i) && k in m && d in m[k] && StartedIn(batches, d, j) ==> j < i
  }

  /** No module waits longer than it must: beyond the first batch, a dependency is in the batch just before. */
  ghost predicate StartsPromptly(m: DependencyMap, batches: seq<set<Node>>) {
    forall k, i :: StartedIn(batches, k, i) && 0 < i && k in m ==> exists d :: d in m[k] && StartedIn(batches, d, i - 1)
  }

  ghost predicate FirstHaveNone(m: DependencyMap, batches: seq<set<Node>>) {
    forall k :: StartedIn(batches, k, 0) && k in m ==> m[k] == []
  }

  ghost predicate GoodOrder(m: DependencyMap, batches: seq<set<Node>>) {
    && StartsExactly(m, batches)
    && StartsOnce(batches)
    && StartsAfterDependencies(m, batches)
    && StartsPromptly(m, batches)
    && FirstHaveNone(m, batches)
  }

  lemma {:induction false} BatchesInOrder(m: DependencyMap)
    requires ClosedMap(m) && Batches(m).Some?
    ensures GoodOrder(m, Batches(m).value)
    decreases |m|
  {
    var batch, rest, all := Independent(m), Remaining(m), Batches(m).value;
    hide Remaining, Difference;
    if rest == map[] {
      assert all == [batch];
      assert m.Keys == batch by {
        assert rest.Keys == {};
      }
      assert forall k :: k in m ==> StartedIn(all, k, 0);
    } else {
      RemainingShrinks(m);
      BatchesInOrder(rest);
      var later := Batches(rest).value;
      assert all == [batch] + later;
      LaterStartsExactly(m, rest, later);
      LaterStartsOnce(m, rest, later);
      LaterStartsAfterDependencies(m, rest, later);
      LaterStartsPromptly(m, rest, later);
    }
  }

  lemma LaterStartsExactly(m: DependencyMap, rest: DependencyMap, later: seq<set<Node>>)
    requires rest == Remaining(m) && StartsExactly(rest, later)
    ensures StartsExactly(m, [Independent(m)] + later)
  {
    hide Difference;
    var all := [Independent(m)] + later;
    forall k ensures k in m <==> exists i :: StartedIn(all, k, i) {
      if k in Independent(m) {
        assert StartedIn(all, k, 0);
      } else if k in m {
        assert k in rest;
        var i :| StartedIn(later, k, i);
        assert StartedIn(all, k, i + 1);
      }
      if i :| StartedIn(all, k, i) {
        if i == 0 {
          assert k in Independent(m);
        } else {
          assert StartedIn(later, k, i - 1);
          assert k in rest;
        }
        assert k in m;
      }
    }
  }

  lemma LaterStartsOnce(m: DependencyMap, rest: DependencyMap, later: seq<set<Node>>)
    requires rest == Remaining(m) && StartsExactly(rest, later) && StartsOnce(later)
    ensures StartsOnce([Independent(m)] + later)
  {
    hide Difference;
    var all := [Independent(m)] + later;
    forall k, i, j | StartedIn(all, k, i) && StartedIn(all, k, j) ensures i == j {
      assert i == 0 || StartedIn(later, k, i - 1);
      assert j == 0 || StartedIn(later, k, j - 1);
    }
  }

  lemma LaterStartsAfterDependencies(m: DependencyMap, rest: DependencyMap, later: seq<set<Node>>)
    requires rest == Remaining(m) && StartsExactly(rest, later) && StartsAfterDependencies(rest, later)
    ensures StartsAfterDependencies(m, [Independent(m)] + later)
  {
    hide Difference;
    var all := [Independent(m)] + later;
    forall k, i, d, j | StartedIn(all, k, i) && k in m && d in m[k] && StartedIn(all, d, j) ensures j < i {
      if 0 < i && 0 < j {
        assert StartedIn(later, k, i - 1) && StartedIn(later, d, j - 1);
        assert k in rest && d in rest;
        assert d in rest[k];
      }
    }
  }

  lemma LaterStartsPromptly(m: DependencyMap, rest: DependencyMap, later: seq<set<Node>>)
    requires rest == Remaining(m) && StartsExactly(rest, later)
    requires StartsPromptly(rest, later) && FirstHaveNone(rest, later)
    ensures StartsPromptly(m, [Independent(m)] + later) && FirstHaveNone(m, [Independent(m)] + later)
  {
    hide Difference;
    var all := [Independent(m)] + later;
    forall k, i | StartedIn(all, k, i) && 0 < i && k in m
      ensures exists d :: d in m[k] && StartedIn(all, d, i - 1)
    {
      assert StartedIn(later, k, i - 1);
      assert k in rest;
      if 1 < i {
        var d :| d in rest[k] && StartedIn(later, d, i - 2);
        assert StartedIn(all, d, i - 1);
      } else {
        assert rest[k] == [];
        assert m[k][0] !in rest[k];
        assert StartedIn(all, m[k][0], 0);
      }
    }
  }

  /** Each batch of a map whose walks are bounded uses up one node of the bound. */
  lemma {:induction false} BoundedBatches(g: Graph, m: DependencyMap, bound: nat)
    requires ClosedMap(m) && forall k :: k in m ==> ToSet(m[k]) <= ToSet(g.Succ(k)) && Bounded(g, k, bound)
    ensures Batches(m).Some?
    decreases |m|
  {
    hide Difference, Bounded;
    if Remaining(m) == map[] {
    } else if Independent(m) == {} {
      var k :| k in m;
      Stuck(g, m, k, bound);
    } else {
      RemainingShrinks(m);
      var rest := Remaining(m);
      forall k | k in rest ensures ToSet(rest[k]) <= ToSet(g.Succ(k)) {
        assert forall d :: d in rest[k] ==> d in ToSet(m[k]);
      }
      BoundedBatches(g, rest, bound);
    }
  }

  /** While every module of the map waits for another one, walks never end. */
  lemma {:induction false} Stuck(g: Graph, m: DependencyMap, k: Node, bound: nat)
    requires Independent(m) == {} && ClosedMap(m) && k in m
    requires forall n :: n in m ==> ToSet(m[n]) <= ToSet(g.Succ(n))
    ensures !Bounded(g, k, bound)
    decreases bound
  {
    BoundedStep(g, k, bound);
    if 1 <= bound {
      assert k !in Independent(m);
      var d := m[k][0];
      assert d in ToSet(m[k]);
      Stuck(g, m, d, bound - 1);
    }
  }

  /** The whole chain that a transitive dependency implies is started batch by batch. */
  lemma {:induction false} TransitivelyEarlier(g: Graph, m: DependencyMap, batches: seq<set<Node>>, p: seq<Node>, i: int, j: int)
    requires GoodOrder(m, batches) && (forall k :: k in m ==> m[k] == g.Succ(k)) && ClosedUnder(g, m.Keys)
    requires 1 <= |p| && Walk(g, p) && StartedIn(batches, p[0], i) && StartedIn(batches, p[|p| - 1], j)
    ensures j + |p| - 1 <= i
    decreases |p|
  {
    assert p[0] in m;
    if 2 <= |p| {
      TailWalk(g, p);
      var q := p[1..];
      assert p[1] in m;
      var next :| StartedIn(batches, p[1], next);
      TransitivelyEarlier(g, m, batches, q, next, j);
    }
  }

  ghost predicate EarlierByDistance(g: Graph, batches: seq<set<Node>>) {
    forall a, b, p, i, j :: StartedIn(batches, a, i) && StartedIn(batches, b, j) && Connects(g, a, b, p) ==>
      j + |p| - 1 <= i
  }

  lemma OrderAlongWalks(g: Graph, m: DependencyMap, batches: seq<set<Node>>)
    requires GoodOrder(m, batches) && (forall k :: k in m ==> m[k] == g.Succ(k)) && ClosedUnder(g, m.Keys)
    ensures EarlierByDistance(g, batches)
  {
    hide GoodOrder, Walk;
    forall a, b, p, i, j | StartedIn(batches, a, i) && StartedIn(batches, b, j) && Connects(g, a, b, p)
      ensures j + |p| - 1 <= i
    {
      TransitivelyEarlier(g, m, batches, p, i, j);
    }
  }

  /**
   * Once the validator has found no cycle among the run dependencies, starting any list of modules ends; it starts
   * exactly the modules they reach, each once; every transitive dependency is started at least as many batches
   * earlier as it is edges away; and no module waits for a batch that none of its dependencies was in.
   */
  lemma StartOrder(c: Config, roots: seq<Node>) returns (m: DependencyMap, batches: seq<set<Node>>)
    requires Acyclic(RunGraph(c))
    ensures GetRunDependencyMap(c, |c.deps| + 1, roots) == Some(m) && Batches(m) == Some(batches)
    ensures forall k :: k in m <==> ReachedFrom(RunGraph(c), roots, k)
    ensures forall k :: k in m ==> m[k] == GetDirectRunDeps(c, k)
    ensures StartsExactly(m, batches) && StartsOnce(batches) && StartsPromptly(m, batches)
    ensures EarlierByDistance(RunGraph(c), batches)
  {
    var g := RunGraph(c);
    AcyclicTerminates(c, roots);
    RunDependencyMapExact(c, |c.deps| + 1, roots);
    m := GetRunDependencyMap(c, |c.deps| + 1, roots).value;
    hide Collect, GetRunDependencyMap, Batches, ReachedFrom, Acyclic, StartsExactly, StartsOnce, StartsPromptly,
      StartsAfterDependencies, FirstHaveNone, EarlierByDistance;
    BoundedBatches(g, m, |c.deps| + 1);
    batches := Batches(m).value;
    BatchesInOrder(m);
    OrderAlongWalks(g, m, batches);
  }

  lemma BatchesUnfold(m: DependencyMap)
    requires Batches(m).Some?
    ensures Remaining(m) == map[] ==> Batches(m) == Some([Independent(m)])
    ensures Remaining(m) != map[] ==>
              && |Remaining(m)| < |m|
              && Batches(Remaining(m)).Some?
              && Batches(m) == Some([Independent(m)] + Batches(Remaining(m)).value)
  {
    if Remaining(m) != map[] {
      RemainingShrinks(m);
    }
  }

  /** What startModules does, with the batches it started as its trace. */
  class Starter {
    var started: seq<set<Node>>

    constructor ()
      ensures started == []
    {
      started := [];
    }

    /** The modules of a batch are started in parallel; the next round begins when all of them run. */
    method StartModules(dependencyMap: DependencyMap)
      requires Batches(dependencyMap).Some?
      modifies this
      ensures started == old(started) + Batches(dependencyMap).value
      decreases |dependencyMap|
    {
      hide Difference, Batches, Independent, Remaining;
      BatchesUnfold(dependencyMap);
      var independent := Independent(dependencyMap);
      var updated := Remaining(dependencyMap);
      started := started + [independent];
      if updated != map[] {
        StartModules(updated);
        assert started == old(started) + ([independent] + Batches(updated).value);
      }
    }
  }
}
