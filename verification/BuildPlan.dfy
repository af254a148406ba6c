/** The ordered list of builds and starts that building a list of modules performs. */
module BuildPlan {
  import opened Digraph
  import opened Dependencies
  import opened Options

  datatype Action = BuildModule(name: Node, pull: bool) | RunModule(name: Node)

  function BuildGraph(c: Config): Graph {
    GetAdjacency(c, Build)
  }

  /** A module with a local parent image is built without pulling. */
  function BuildOf(c: Config, m: Node): Action {
    BuildModule(m, GetBuildDeps(c, m) == [])
  }

  function RunsOf(names: seq<Node>): (r: seq<Action>)
    ensures forall a :: a in r <==> a.RunModule? && a.name in names
  {
    if names == [] then []
    else
      assert names == [names[0]] + names[1..];
      [RunModule(names[0])] + RunsOf(names[1..])
  }

  /** getBuildActions. The source recurses without a limit; depth counts the calls still allowed, None means none is left. */
  function GetBuildActions(c: Config, depth: nat, m: Node): Option<seq<Action>>
    decreases depth, 0
  {
    if depth == 0 then None
    else
      var nested := GetAllBuildActions(c, depth - 1, GetBuildDeps(c, m));
      if nested.None? then None
      else Some(nested.value + RunsOf(GetBuildRunDeps(c, m)) + [BuildOf(c, m)])
  }

  /** The flattened actions of a list of modules. */
  function GetAllBuildActions(c: Config, depth: nat, ms: seq<Node>): Option<seq<Action>>
    decreases depth, |ms| + 1
  {
    if ms == [] then Some([])
    else
      var first := GetBuildActions(c, depth, ms[0]);
      var rest := GetAllBuildActions(c, depth, ms[1..]);
      if first.None? || rest.None? then None else Some(first.value + rest.value)
  }

  /** Keeps the first occurrence of each action. */
  function Deduplicate(l: seq<Action>): seq<Action> {
    if l == [] then []
    else
      var front := Deduplicate(l[..|l| - 1]);
      if l[|l| - 1] in l[..|l| - 1] then front else front + [l[|l| - 1]]
  }

  /** What must be done before an action: a build needs its dependencies built and run, a start needs its own build. */
  ghost predicate Needs(c: Config, a: Action, b: Action) {
    match a
    case RunModule(m) => b == BuildOf(c, m)
    case BuildModule(m, _) =>
      || (b.BuildModule? && b == BuildOf(c, b.name) && b.name in GetBuildDeps(c, m))
      || (b.RunModule? && b.name in GetBuildRunDeps(c, m))
  }

  ghost predicate Supported(c: Config, l: seq<Action>) {
    forall i, b :: 0 <= i < |l| && Needs(c, l[i], b) ==> b in l[..i]
  }

  lemma SupportedJoin(c: Config, l: seq<Action>, r: seq<Action>)
    requires Supported(c, l) && Supported(c, r)
    ensures Supported(c, l + r)
  {
    var all := l + r;
    forall i, b | 0 <= i < |all| && Needs(c, all[i], b) ensures b in all[..i] {
      if i < |l| {
        assert all[..i] == l[..i];
      } else {
        assert all[i] == r[i - |l|] && all[..i] == l + r[..i - |l|];
      }
    }
  }

  /** Actions whose needs are all in l may follow l in any order. */
  lemma SupportedExtend(c: Config, l: seq<Action>, r: seq<Action>)
    requires Supported(c, l) && forall a, b :: a in r && Needs(c, a, b) ==> b in l
    ensures Supported(c, l + r)
  {
    var all := l + r;
    forall i, b | 0 <= i < |all| && Needs(c, all[i], b) ensures b in all[..i] {
      if i < |l| {
        assert all[..i] == l[..i];
      } else {
        assert all[i] == r[i - |l|] && all[i] in r;
        assert all[..i] == l + r[..i - |l|];
      }
    }
  }

  lemma RunDepsAreBuildDeps(c: Config, m: Node)
    ensures forall r :: r in GetBuildRunDeps(c, m) ==> r in GetBuildDeps(c, m)
  {}

  lemma {:induction false} ActionsSupported(c: Config, depth: nat, m: Node)
    requires GetBuildActions(c, depth, m).Some?
    ensures Supported(c, GetBuildActions(c, depth, m).value)
    decreases depth, 0
  {
    var deps := GetBuildDeps(c, m);
    var nested := GetAllBuildActions(c, depth - 1, deps).value;
    AllActionsSupported(c, depth - 1, deps);
    var runs := RunsOf(GetBuildRunDeps(c, m));
    RunDepsAreBuildDeps(c, m);
    SupportedExtend(c, nested, runs);
    SupportedExtend(c, nested + runs, [BuildOf(c, m)]);
  }

  lemma {:induction false} AllActionsSupported(c: Config, depth: nat, ms: seq<Node>)
    requires GetAllBuildActions(c, depth, ms).Some?
    ensures Supported(c, GetAllBuildActions(c, depth, ms).value)
    ensures forall m :: m in ms ==> BuildOf(c, m) in GetAllBuildActions(c, depth, ms).value
    decreases depth, |ms| + 1
  {
    if ms != [] {
      assert ms == [ms[0]] + ms[1..];
      ActionsSupported(c, depth, ms[0]);
      AllActionsSupported(c, depth, ms[1..]);
      var first, rest := GetBuildActions(c, depth, ms[0]).value, GetAllBuildActions(c, depth, ms[1..]).value;
      SupportedJoin(c, first, rest);
      assert first[|first| - 1] == BuildOf(c, ms[0]);
    }
  }

  lemma ActionsDefined(c: Config, depth: nat, m: Node)
    ensures GetBuildActions(c, depth, m).Some? <==> 0 < depth && GetAllBuildActions(c, depth - 1, GetBuildDeps(c, m)).Some?
  {}

  lemma AllActionsDefined(c: Config, depth: nat, ms: seq<Node>)
    ensures GetAllBuildActions(c, depth, ms).Some? <==>
              ms == [] || (GetBuildActions(c, depth, ms[0]).Some? && GetAllBuildActions(c, depth, ms[1..]).Some?)
  {}

  /** The nesting that getBuildActions needs is exactly the number of nodes on the longest chain of build dependencies. */
  lemma {:induction false} BuildDepthExact(c: Config, depth: nat, ms: seq<Node>)
    ensures GetAllBuildActions(c, depth, ms).Some? <==> AllBounded(BuildGraph(c), ms, depth)
    decreases depth, |ms|
  {
    hide Bounded, AllBounded, GetBuildActions, GetAllBuildActions, BuildGraph, GetBuildDeps;
    AllActionsDefined(c, depth, ms);
    if ms == [] {
      NoneBounded(BuildGraph(c), depth);
    } else {
      BuildSuccessors(c, ms[0]);
      var m, rest := ms[0], ms[1..];
      AllBoundedFirst(BuildGraph(c), ms, depth);
      BuildDepthExact(c, depth, rest);
      BoundedStep(BuildGraph(c), m, depth);
      ActionsDefined(c, depth, m);
      if 0 < depth {
        BuildDepthExact(c, depth - 1, GetBuildDeps(c, m));
      }
    }
  }

  lemma NoneBounded(g: Graph, depth: int)
    ensures AllBounded(g, [], depth)
  {}

  lemma BuildSuccessors(c: Config, m: Node)
    ensures BuildGraph(c).Succ(m) == GetBuildDeps(c, m)
  {}

  lemma AllBoundedFirst(g: Graph, ms: seq<Node>, depth: int)
    requires ms != []
    ensures AllBounded(g, ms, depth) <==> Bounded(g, ms[0], depth) && AllBounded(g, ms[1..], depth)
  {
    assert ms == [ms[0]] + ms[1..];
  }

  /** Which actions a list of modules gives rise to: builds of what they reach, and the starts those builds need. */
  ghost predicate Wanted(c: Config, ms: seq<Node>, a: Action) {
    match a
    case BuildModule(m, _) => a == BuildOf(c, m) && ReachedFrom(BuildGraph(c), ms, m)
    case RunModule(m) => exists x :: ReachedFrom(BuildGraph(c), ms, x) && m in GetBuildRunDeps(c, x)
  }

  lemma WantedThrough(c: Config, m: Node, ms: seq<Node>, a: Action)
    requires m in ms && (a == BuildOf(c, m) || a in RunsOf(GetBuildRunDeps(c, m)) || Wanted(c, GetBuildDeps(c, m), a))
    ensures Wanted(c, ms, a)
  {
    var g := BuildGraph(c);
    ReachesSelf(g, m);
    if Wanted(c, GetBuildDeps(c, m), a) {
      var x: Node :| ReachedFrom(g, GetBuildDeps(c, m), x) && (if a.BuildModule? then x == a.name else a.name in GetBuildRunDeps(c, x));
      var d :| d in GetBuildDeps(c, m) && Reaches(g, d, x);
      ReachesStep(g, m, d, x);
    }
  }

  lemma {:induction false} ActionsAreWanted(c: Config, depth: nat, ms: seq<Node>)
    requires GetAllBuildActions(c, depth, ms).Some?
    ensures forall a :: a in GetAllBuildActions(c, depth, ms).value ==> Wanted(c, ms, a)
    decreases depth, |ms|
  {
    hide Wanted;
    if ms != [] {
      var m, rest := ms[0], ms[1..];
      ActionsAreWanted(c, depth - 1, GetBuildDeps(c, m));
      ActionsAreWanted(c, depth, rest);
      forall a | a in GetAllBuildActions(c, depth, ms).value ensures Wanted(c, ms, a) {
        if a in GetBuildActions(c, depth, m).value {
          WantedThrough(c, m, ms, a);
        } else {
          WantedWeaken(c, rest, ms, a);
        }
      }
    }
  }

  lemma WantedWeaken(c: Config, ms: seq<Node>, more: seq<Node>, a: Action)
    requires Wanted(c, ms, a) && forall m :: m in ms ==> m in more
    ensures Wanted(c, more, a)
  {
    assert forall x :: ReachedFrom(BuildGraph(c), ms, x) ==> ReachedFrom(BuildGraph(c), more, x);
  }

  /** A supported list that builds the requested modules contains everything they give rise to. */
  lemma SupportedIsComplete(c: Config, ms: seq<Node>, l: seq<Action>, a: Action)
    requires Supported(c, l) && (forall m :: m in ms ==> BuildOf(c, m) in l) && Wanted(c, ms, a)
    ensures a in l
  {
    var g := BuildGraph(c);
    var x: Node :| ReachedFrom(g, ms, x) && (if a.BuildModule? then x == a.name else a.name in GetBuildRunDeps(c, x));
    var m :| m in ms && Reaches(g, m, x);
    var p :| Connects(g, m, x, p);
    ChainBuilt(c, l, p);
    var i :| 0 <= i < |l| && l[i] == BuildOf(c, x);
    assert a == BuildOf(c, x) || Needs(c, l[i], a);
  }

  lemma {:induction false} ChainBuilt(c: Config, l: seq<Action>, p: seq<Node>)
    requires Supported(c, l) && 1 <= |p| && Walk(BuildGraph(c), p) && BuildOf(c, p[0]) in l
    ensures BuildOf(c, p[|p| - 1]) in l
  {
    if 2 <= |p| {
      TailWalk(BuildGraph(c), p);
      var i :| 0 <= i < |l| && l[i] == BuildOf(c, p[0]);
      assert Needs(c, l[i], BuildOf(c, p[1]));
      ChainBuilt(c, l, p[1..]);
    }
  }

  lemma {:induction false} DeduplicateKeeps(c: Config, l: seq<Action>)
    ensures Distinct(Deduplicate(l)) && ToSet(Deduplicate(l)) == ToSet(l)
    ensures Supported(c, l) ==> Supported(c, Deduplicate(l))
  {
    if l != [] {
      var front, last := l[..|l| - 1], l[|l| - 1];
      assert l == front + [last];
      DeduplicateKeeps(c, front);
      assert forall x :: x in Deduplicate(front) <==> x in ToSet(Deduplicate(front));
      assert ToSet(l) == ToSet(front) + {last};
      if last !in front {
        assert last !in ToSet(front);
        assert last !in Deduplicate(front);
      }
      if Supported(c, l) {
        SupportedPrefix(c, front, last);
        if last !in front {
          forall a, b | a in [last] && Needs(c, a, b) ensures b in Deduplicate(front) {
            assert a == l[|l| - 1] && b in front;
          }
          SupportedExtend(c, Deduplicate(front), [last]);
        }
      }
    }
  }

  lemma SupportedPrefix(c: Config, front: seq<Action>, last: Action)
    requires Supported(c, front + [last])
    ensures Supported(c, front)
  {
    var l := front + [last];
    forall i, b | 0 <= i < |front| && Needs(c, front[i], b) ensures b in front[..i] {
      assert l[i] == front[i] && l[..i] == front[..i];
    }
  }

  /** In a plan only the modules without build dependencies, which have no local parent image, are built by pulling. */
  lemma PullTold(c: Config, ms: seq<Node>, a: Action)
    requires Wanted(c, ms, a) && a.BuildModule?
    ensures a.pull <==> a.name !in c.deps || c.deps[a.name].build == []
  {}

  /**
   * With an acyclic build graph, the plan for any list of modules exists, holds exactly the builds of the modules
   * they reach and the starts those builds need, each once, and does everything an action needs before it.
   */
  lemma BuildOrder(c: Config, ms: seq<Node>) returns (plan: seq<Action>)
    requires Acyclic(BuildGraph(c))
    ensures var all := GetAllBuildActions(c, |c.deps| + 1, ms); all.Some? && plan == Deduplicate(all.value)
    ensures Distinct(plan)
    ensures forall a :: a in plan <==> Wanted(c, ms, a)
    ensures forall i, j :: 0 <= i < |plan| && 0 <= j < |plan| && Needs(c, plan[i], plan[j]) ==> j < i
    ensures forall a, b :: a in plan && Needs(c, a, b) ==> b in plan
  {
    var g := BuildGraph(c);
    assert |g.out.Keys| == |c.deps.Keys|;
    assert |g.out| == |c.deps|;
    forall n | n in ms ensures Bounded(g, n, |c.deps| + 1) {
      AcyclicBounded(g, n);
    }
    BuildDepthExact(c, |c.deps| + 1, ms);
    var all := GetAllBuildActions(c, |c.deps| + 1, ms).value;
    plan := Deduplicate(all);
    AllActionsSupported(c, |c.deps| + 1, ms);
    ActionsAreWanted(c, |c.deps| + 1, ms);
    hide Wanted, Needs, GetAllBuildActions;
    forall a | Wanted(c, ms, a) ensures a in all {
      SupportedIsComplete(c, ms, all, a);
    }
    DeduplicateKeeps(c, all);
    assert forall a :: a in plan <==> a in ToSet(plan);
    DistinctSupport(c, plan);
  }

  lemma DistinctSupport(c: Config, plan: seq<Action>)
    requires Distinct(plan) && Supported(c, plan)
    ensures forall i, j :: 0 <= i < |plan| && 0 <= j < |plan| && Needs(c, plan[i], plan[j]) ==> j < i
    ensures forall a, b :: a in plan && Needs(c, a, b) ==> b in plan
  {
    forall i, j | 0 <= i < |plan| && 0 <= j < |plan| && Needs(c, plan[i], plan[j]) ensures j < i {
      assert plan[j] in plan[..i];
    }
  }

  /** Without validation the recursion of a cyclic build graph never ends. */
  lemma CyclicBuildDiverges(c: Config, p: seq<Node>, depth: nat)
    requires ClosedWalk(BuildGraph(c), p)
    ensures GetBuildActions(c, depth, p[0]).None?
  {
    var g := BuildGraph(c);
    ReachesSelf(g, p[0]);
    CycleUnbounded(g, p[0], p, depth);
    BuildDepthExact(c, depth, [p[0]]);
    assert p[0] in [p[0]];
  }
}
