/** The validation every CLI command runs first: circular dependencies of both graphs. */
module DepsValidation {
  import opened Digraph
  import opened Dependencies
  import opened Options
  import opened CycleFinder
  import BuildPlan
  import RunSchedule

  datatype Cycle = Cycle(kind: Kind, path: seq<Node>)

  ghost predicate RealCycle(c: Config, cycle: Cycle) {
    ReportedPath(GetAdjacency(c, cycle.kind), cycle.path) && ClosedWalk(GetAdjacency(c, cycle.kind), cycle.path)
  }

  /**
   * The configuration passes exactly when starting any modules and building any modules both come to an end;
   * everything reported is a real cycle of the named graph.
   */
  method FindDependencyCycles(c: Config) returns (cycles: seq<Cycle>)
    requires c.Valid()
    ensures forall x :: x in cycles ==> RealCycle(c, x)
    ensures cycles == [] <==> Acyclic(RunSchedule.RunGraph(c)) && Acyclic(BuildPlan.BuildGraph(c))
    ensures cycles == [] <==> (forall ms :: RunSchedule.Terminates(c, ms)) && (forall ms :: BuildTerminates(c, ms))
  {
    TerminationIsAcyclicity(c);
    hide ReportedPath, Acyclic, EveryCycleTouched, RunSchedule.Terminates, BuildTerminates, RealCycle;
    var run := FindGraphCycles(GetAdjacency(c, Run));
    var build := FindGraphCycles(GetAdjacency(c, Build));
    cycles := Label(Run, run) + Label(Build, build);
    LabelReal(c, Run, run);
    LabelReal(c, Build, build);
  }

  function Label(kind: Kind, paths: seq<seq<Node>>): (r: seq<Cycle>)
    ensures |r| == |paths| && forall i :: 0 <= i < |r| ==> r[i] == Cycle(kind, paths[i])
  {
    seq(|paths|, i requires 0 <= i < |paths| => Cycle(kind, paths[i]))
  }

  lemma LabelReal(c: Config, kind: Kind, paths: seq<seq<Node>>)
    requires forall p :: p in paths ==> ReportedPath(GetAdjacency(c, kind), p)
    ensures forall x :: x in Label(kind, paths) ==> RealCycle(c, x)
  {
    forall x | x in Label(kind, paths) ensures RealCycle(c, x) {
      assert x.kind == kind && x.path in paths;
      ReportedPathIsClosedWalk(GetAdjacency(c, kind), x.path);
    }
  }

  ghost predicate BuildTerminates(c: Config, ms: seq<Node>) {
    exists depth: nat :: BuildPlan.GetAllBuildActions(c, depth, ms).Some?
  }

  lemma TerminationIsAcyclicity(c: Config)
    ensures (forall ms :: RunSchedule.Terminates(c, ms)) <==> Acyclic(RunSchedule.RunGraph(c))
    ensures (forall ms :: BuildTerminates(c, ms)) <==> Acyclic(BuildPlan.BuildGraph(c))
  {
    RunSchedule.TerminatesIffAcyclic(c);
    var g := BuildPlan.BuildGraph(c);
    if Acyclic(g) {
      forall ms ensures BuildTerminates(c, ms) {
        var plan := BuildPlan.BuildOrder(c, ms);
        assert BuildPlan.GetAllBuildActions(c, |c.deps| + 1, ms).Some?;
      }
    } else {
      var p :| ClosedWalk(g, p);
      forall depth: nat ensures BuildPlan.GetAllBuildActions(c, depth, [p[0]]).None? {
        BuildPlan.CyclicBuildDiverges(c, p, depth);
      }
      assert !BuildTerminates(c, [p[0]]);
    }
  }
}
