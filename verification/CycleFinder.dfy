/** The depth-first search that reports the circular dependencies of a graph. */
module CycleFinder {
  import opened Digraph
  import opened CycleNaming

  function NextOnCycle(nodes: seq<Node>, i: nat): Node
    requires i < |nodes|
  {
    nodes[if i + 1 < |nodes| then i + 1 else 0]
  }

  /** Distinct nodes, each with an edge to the next, the last to the first. */
  ghost predicate SimpleCycle(g: Graph, nodes: seq<Node>) {
    && nodes != []
    && Distinct(nodes)
    && forall i :: 0 <= i < |nodes| ==> NextOnCycle(nodes, i) in g.Succ(nodes[i])
  }

  ghost predicate EdgeOnCycle(nodes: seq<Node>, u: Node, v: Node) {
    exists i :: 0 <= i < |nodes| && nodes[i] == u && NextOnCycle(nodes, i) == v
  }

  /** A reported path: a simple cycle in canonical rotation with its first node repeated at the end. */
  ghost predicate ReportedPath(g: Graph, path: seq<Node>) {
    && 2 <= |path|
    && path[0] == path[|path| - 1]
    && SimpleCycle(g, path[..|path| - 1])
    && Canonicalize(path[..|path| - 1]) == path[..|path| - 1]
  }

  /** A simple cycle through u -> v whose name is among the reported names. */
  ghost predicate NamedCycleThrough(g: Graph, names: set<string>, u: Node, v: Node) {
    exists nodes :: SimpleCycle(g, nodes) && EdgeOnCycle(nodes, u, v) && CycleKey(Canonicalize(nodes)) in names
  }

  ghost predicate EdgeOf(p: seq<Node>, u: Node, v: Node) {
    exists i :: 0 <= i < |p| - 1 && p[i] == u && p[i + 1] == v
  }

  lemma RotatedCycle(g: Graph, nodes: seq<Node>, k: nat)
    requires SimpleCycle(g, nodes) && k < |nodes|
    ensures SimpleCycle(g, Rotate(nodes, k))
  {
    var r := Rotate(nodes, k);
    RotateKeepsElements(nodes, k);
    assert |r| == |nodes|;
    forall i | 0 <= i < |r| ensures NextOnCycle(r, i) in g.Succ(r[i]) {
      var j := if i + k < |nodes| then i + k else i + k - |nodes|;
      assert r[i] == nodes[j];
      assert NextOnCycle(r, i) == NextOnCycle(nodes, j);
    }
  }

  lemma CanonicalCycle(g: Graph, nodes: seq<Node>)
    requires SimpleCycle(g, nodes)
    ensures SimpleCycle(g, Canonicalize(nodes)) && Canonicalize(Canonicalize(nodes)) == Canonicalize(nodes)
  {
    var k := IndexOf(nodes, Least(nodes));
    RotatedCycle(g, nodes, k);
    CanonicalizeRotation(nodes, k);
  }

  lemma ReportedPathIsClosedWalk(g: Graph, path: seq<Node>)
    requires ReportedPath(g, path)
    ensures ClosedWalk(g, path)
  {
    hide Canonicalize, Distinct;
    var nodes := path[..|path| - 1];
    forall i | 0 <= i < |path| - 1 ensures path[i + 1] in g.Succ(path[i]) {
      assert NextOnCycle(nodes, i) == path[i + 1];
    }
  }

  /** The end of the search path, from an occurrence of a module to which the last node has an edge, is a cycle. */
  lemma PathSuffixIsCycle(g: Graph, path: seq<Node>, index: nat)
    requires index < |path| && Distinct(path) && Walk(g, path) && path[index] in g.Succ(path[|path| - 1])
    ensures SimpleCycle(g, path[index..]) && EdgeOnCycle(path[index..], path[|path| - 1], path[index])
  {
    var nodes := path[index..];
    forall i | 0 <= i < |nodes| ensures NextOnCycle(nodes, i) in g.Succ(nodes[i]) {
      if i + 1 < |nodes| {
        assert path[index + i + 1] in g.Succ(path[index + i]);
      }
    }
    assert nodes[|nodes| - 1] == path[|path| - 1] && NextOnCycle(nodes, |nodes| - 1) == path[index];
  }

  lemma NamesGrow(g: Graph, names: set<string>, more: set<string>, u: Node, v: Node)
    requires names <= more && NamedCycleThrough(g, names, u, v)
    ensures NamedCycleThrough(g, more, u, v)
  {
    var nodes :| SimpleCycle(g, nodes) && EdgeOnCycle(nodes, u, v) && CycleKey(Canonicalize(nodes)) in names;
    assert CycleKey(Canonicalize(nodes)) in more;
  }

  /** Each finished node's edges lead to nodes finished before it, or are back edges. */
  ghost predicate FinishOrder(g: Graph, finished: seq<Node>, back: set<(Node, Node)>) {
    forall i, v :: 0 <= i < |finished| && v in g.Succ(finished[i]) ==> v in finished[..i] || (finished[i], v) in back
  }

  /** Along edges that are not back edges the finishing position drops, so a closed walk must use a back edge. */
  lemma ClosedWalkHasBackEdge(g: Graph, finished: seq<Node>, back: set<(Node, Node)>, p: seq<Node>)
    requires FinishOrder(g, finished, back) && g.out.Keys <= ToSet(finished) && ClosedWalk(g, p)
    ensures exists u, v :: (u, v) in back && EdgeOf(p, u, v)
  {
    if forall u, v :: (u, v) in back ==> !EdgeOf(p, u, v) {
      assert p[0 + 1] in g.Succ(p[0]);
      assert p[0] in ToSet(finished);
      var last := DescendingPositions(g, finished, back, p, |p| - 1);
      assert false;
    }
  }

  /** Where the j-th node of a walk without back edges was first finished: no later than the first node, less j. */
  lemma {:induction false} DescendingPositions(g: Graph, finished: seq<Node>, back: set<(Node, Node)>, p: seq<Node>, j: nat)
    returns (position: nat)
    requires FinishOrder(g, finished, back) && Walk(g, p) && j < |p| && p[0] in finished
    requires forall u, v :: (u, v) in back ==> !EdgeOf(p, u, v)
    ensures position + j <= IndexOf(finished, p[0])
    ensures p[j] in finished && position == IndexOf(finished, p[j])
  {
    if j == 0 {
      position := IndexOf(finished, p[0]);
    } else {
      var before := DescendingPositions(g, finished, back, p, j - 1);
      assert p[j - 1 + 1] in g.Succ(p[j - 1]);
      assert EdgeOf(p, p[j - 1], p[j]);
      assert p[j] in finished[..before];
      position := IndexOf(finished, p[j]);
      var earlier := IndexOf(finished[..before], p[j]);
      assert finished[earlier] == p[j];
    }
  }

  /** What the search has recorded: reported paths under their names, and a named cycle for every back edge. */
  ghost predicate Recorded(g: Graph, names: seq<string>, cycles: map<string, seq<Node>>, back: set<(Node, Node)>) {
    PathMap(g, names, cycles) && BackNamed(g, cycles.Keys, back)
  }

  ghost predicate BackNamed(g: Graph, names: set<string>, back: set<(Node, Node)>) {
    forall u, v :: (u, v) in back ==> NamedCycleThrough(g, names, u, v)
  }

  function PathName(path: seq<Node>): string {
    CycleKey(if path == [] then [] else path[..|path| - 1])
  }

  lemma ClosedPath(g: Graph, cycle: seq<Node>)
    requires SimpleCycle(g, cycle)
    ensures var path := Canonicalize(cycle) + [Canonicalize(cycle)[0]];
      ReportedPath(g, path) && PathName(path) == CycleKey(Canonicalize(cycle))
  {
    CanonicalCycle(g, cycle);
    var path := Canonicalize(cycle) + [Canonicalize(cycle)[0]];
    assert path[..|path| - 1] == Canonicalize(cycle);
  }

  lemma MoreNamed(g: Graph, names: set<string>, more: set<string>, back: set<(Node, Node)>, u: Node, v: Node)
    requires BackNamed(g, names, back) && names <= more && NamedCycleThrough(g, more, u, v)
    ensures BackNamed(g, more, back + {(u, v)})
  {
    forall x, y | (x, y) in back + {(u, v)} ensures NamedCycleThrough(g, more, x, y) {
      if (x, y) in back {
        NamesGrow(g, names, more, x, y);
      }
    }
  }

  /** The JavaScript Map that holds the cycles: its keys in insertion order and the path last set for each. */
  ghost predicate PathMap(g: Graph, names: seq<string>, cycles: map<string, seq<Node>>) {
    && Distinct(names)
    && ToSet(names) == cycles.Keys
    && forall k :: k in cycles ==> ReportedPath(g, cycles[k]) && PathName(cycles[k]) == k
  }

  lemma MorePaths(g: Graph, names: seq<string>, cycles: map<string, seq<Node>>, key: string, path: seq<Node>)
    requires PathMap(g, names, cycles) && ReportedPath(g, path) && PathName(path) == key
    ensures PathMap(g, if key in cycles then names else names + [key], cycles[key := path])
  {
    hide ReportedPath, PathName;
    assert cycles[key := path].Keys == cycles.Keys + {key};
    if key !in cycles {
      var more := names + [key];
      assert key !in names by {
        assert key in names ==> key in ToSet(names);
      }
      assert ToSet(more) == ToSet(names) + {key};
    } else {
      assert cycles.Keys + {key} == cycles.Keys;
    }
  }

  /** Recording one more cycle, for one more back edge. */
  lemma RecordCycle(g: Graph, names: seq<string>, cycles: map<string, seq<Node>>, back: set<(Node, Node)>,
                    cycle: seq<Node>, u: Node, v: Node, key: string, path: seq<Node>)
    requires Recorded(g, names, cycles, back) && SimpleCycle(g, cycle) && EdgeOnCycle(cycle, u, v)
    requires key == CycleKey(Canonicalize(cycle)) && path == Canonicalize(cycle) + [Canonicalize(cycle)[0]]
    ensures Recorded(g, if key in cycles then names else names + [key], cycles[key := path], back + {(u, v)})
  {
    hide EdgeOnCycle, ReportedPath, Canonicalize, CycleKey, PathName, NamedCycleThrough, PathMap, BackNamed;
    ClosedPath(g, cycle);
    var more := cycles[key := path];
    assert key in more.Keys;
    NamedBy(g, more.Keys, cycle, u, v);
    MoreNamed(g, cycles.Keys, more.Keys, back, u, v);
    MorePaths(g, names, cycles, key, path);
  }

  lemma NamedBy(g: Graph, names: set<string>, cycle: seq<Node>, u: Node, v: Node)
    requires SimpleCycle(g, cycle) && EdgeOnCycle(cycle, u, v) && CycleKey(Canonicalize(cycle)) in names
    ensures NamedCycleThrough(g, names, u, v)
  {}

  /** Between calls, the nodes visited are those on the search path and those finished. */
  ghost predicate Searching(g: Graph, path: seq<Node>, visited: set<Node>, finished: seq<Node>) {
    && Distinct(path)
    && Walk(g, path)
    && visited == ToSet(path) + ToSet(finished)
    && ToSet(path) !! ToSet(finished)
  }

  ghost predicate Settled(path: seq<Node>, finished: seq<Node>, back: set<(Node, Node)>, n: Node) {
    n in finished || (path != [] && (path[|path| - 1], n) in back)
  }

  ghost predicate AllSettled(path: seq<Node>, finished: seq<Node>, back: set<(Node, Node)>, ns: seq<Node>) {
    forall n :: n in ns ==> Settled(path, finished, back, n)
  }

  lemma OneMoreSettled(path: seq<Node>, finished: seq<Node>, back: set<(Node, Node)>, finished': seq<Node>,
                       back': set<(Node, Node)>, ns: seq<Node>, i: nat)
    requires i < |ns| && AllSettled(path, finished, back, ns[..i]) && Settled(path, finished', back', ns[i])
    requires finished <= finished' && back <= back'
    ensures AllSettled(path, finished', back', ns[..i + 1])
  {
    forall n | n in ns[..i + 1] ensures Settled(path, finished', back', n) {
      if n != ns[i] {
        assert n in ns[..i];
      }
    }
  }

  lemma ExtendPath(g: Graph, path: seq<Node>, visited: set<Node>, finished: seq<Node>, n: Node)
    requires Searching(g, path, visited, finished) && n !in visited
    requires path != [] ==> n in g.Succ(path[|path| - 1])
    ensures Searching(g, path + [n], visited + {n}, finished)
  {
    assert ToSet(path + [n]) == ToSet(path) + {n};
  }

  /** Leaving a node once all its edges are settled. */
  lemma FinishNode(g: Graph, path: seq<Node>, visited: set<Node>, finished: seq<Node>, back: set<(Node, Node)>, n: Node)
    requires Searching(g, path + [n], visited, finished) && FinishOrder(g, finished, back)
    requires AllSettled(path + [n], finished, back, g.Succ(n))
    ensures Searching(g, path, visited, finished + [n]) && FinishOrder(g, finished + [n], back)
  {
    var extended := path + [n];
    assert ToSet(extended) == ToSet(path) + {n};
    assert ToSet(finished + [n]) == ToSet(finished) + {n};
    forall i | 0 <= i < |path| ensures path[i] != n {
      assert extended[i] != extended[|path|];
    }
    SubWalk(g, extended, 0, |path|);
    assert extended[..|path|] == path;
    var more := finished + [n];
    forall i, v | 0 <= i < |more| && v in g.Succ(more[i]) ensures v in more[..i] || (more[i], v) in back {
      if i < |finished| {
        assert more[..i] == finished[..i];
      } else {
        assert more[..i] == finished && Settled(extended, finished, back, v);
      }
    }
  }

  lemma MoreBackEdges(g: Graph, finished: seq<Node>, back: set<(Node, Node)>, e: (Node, Node))
    requires FinishOrder(g, finished, back)
    ensures FinishOrder(g, finished, back + {e})
  {}

  class CycleFinder {
    const g: Graph
    /** A JavaScript Map: the keys in insertion order and the value last set for each. */
    var names: seq<string>
    var cycles: map<string, seq<Node>>
    var visited: set<Node>
    ghost var finished: seq<Node>
    ghost var back: set<(Node, Node)>

    constructor (g: Graph)
      ensures this.g == g && Valid() && visited == {} && finished == []
    {
      this.g := g;
      names, cycles, visited := [], map[], {};
      finished, back := [], {};
    }

    ghost predicate Valid()
      reads this
    {
      Recorded(g, names, cycles, back) && FinishOrder(g, finished, back)
    }

    method Visit(node: Node, path: seq<Node>, ghost universe: set<Node>)
      requires Valid() && Searching(g, path, visited, finished)
      requires path != [] ==> node in g.Succ(path[|path| - 1])
      requires node in universe && ClosedUnder(g, universe) && visited <= universe
      modifies this
      ensures Valid() && Searching(g, path, visited, finished) && Settled(path, finished, back, node)
      ensures visited <= universe && visited >= old(visited)
      ensures old(finished) <= finished && old(back) <= back
      decreases universe - visited
    {
      hide Recorded, FinishOrder, AllSettled, SimpleCycle, EdgeOnCycle, Canonicalize, Walk;
      if node in path {
        var index := IndexOf(path, node);
        PathSuffixIsCycle(g, path, index);
        var nodes := Canonicalize(path[index..]);
        var key := CycleKey(nodes);
        RecordCycle(g, names, cycles, back, path[index..], path[|path| - 1], node, key, nodes + [nodes[0]]);
        MoreBackEdges(g, finished, back, (path[|path| - 1], node));
        names := if key in cycles then names else names + [key];
        cycles := cycles[key := nodes + [nodes[0]]];
        back := back + {(path[|path| - 1], node)};
        return;
      }
      if node in visited {
        return;
      }
      ExtendPath(g, path, visited, finished, node);
      visited := visited + {node};
      var extended := path + [node];
      var dependencies := g.Succ(node);
      NoneSettled(extended, finished, back, dependencies);
      for i := 0 to |dependencies|
        invariant Valid() && Searching(g, extended, visited, finished)
        invariant visited <= universe && visited >= old(visited) + {node}
        invariant old(finished) <= finished && old(back) <= back
        invariant AllSettled(extended, finished, back, dependencies[..i])
      {
        ghost var finished0, back0 := finished, back;
        Visit(dependencies[i], extended, universe);
        OneMoreSettled(extended, finished0, back0, finished, back, dependencies, i);
      }
      assert dependencies[..|dependencies|] == dependencies;
      FinishNode(g, path, visited, finished, back, node);
      finished := finished + [node];
    }
  }

  lemma NoneSettled(path: seq<Node>, finished: seq<Node>, back: set<(Node, Node)>, ns: seq<Node>)
    ensures AllSettled(path, finished, back, ns[..0])
  {}

  function PathNames(paths: seq<seq<Node>>): set<string> {
    set p | p in paths :: PathName(p)
  }

  /** Every closed walk has an edge that lies on a cycle with a reported name. */
  ghost predicate EveryCycleTouched(g: Graph, names: set<string>) {
    forall p :: ClosedWalk(g, p) ==> exists u, v :: EdgeOf(p, u, v) && NamedCycleThrough(g, names, u, v)
  }

  /** What a search that finished every key of the graph has established. */
  lemma SearchComplete(g: Graph, names: seq<string>, cycles: map<string, seq<Node>>, finished: seq<Node>,
                       back: set<(Node, Node)>, result: seq<seq<Node>>)
    requires Recorded(g, names, cycles, back) && FinishOrder(g, finished, back) && g.out.Keys <= ToSet(finished)
    requires |result| == |names|
    requires forall i :: 0 <= i < |names| ==> names[i] in cycles && result[i] == cycles[names[i]]
    ensures forall p :: p in result ==> ReportedPath(g, p)
    ensures result == [] <==> Acyclic(g)
    ensures forall i, j :: 0 <= i < j < |result| ==> PathName(result[i]) != PathName(result[j])
    ensures EveryCycleTouched(g, PathNames(result))
  {
    forall i | 0 <= i < |result| ensures PathName(result[i]) == names[i] && ReportedPath(g, result[i]) {}
    forall k | k in cycles.Keys ensures k in PathNames(result) {
      assert k in ToSet(names);
      var i :| 0 <= i < |names| && names[i] == k;
      assert PathName(result[i]) == k;
    }
    forall p | ClosedWalk(g, p) ensures exists u, v :: EdgeOf(p, u, v) && NamedCycleThrough(g, PathNames(result), u, v) {
      ClosedWalkHasBackEdge(g, finished, back, p);
      var u, v :| (u, v) in back && EdgeOf(p, u, v);
      NamesGrow(g, cycles.Keys, PathNames(result), u, v);
    }
    hide Recorded, FinishOrder, ReportedPath, ClosedWalk, NamedCycleThrough;
    if result != [] {
      ReportedPathIsClosedWalk(g, result[0]);
    } else {
      NothingNamed(g, PathNames(result));
    }
  }

  lemma NothingNamed(g: Graph, names: set<string>)
    requires names == {}
    ensures forall u, v :: !NamedCycleThrough(g, names, u, v)
  {}

  /**
   * Every reported path is a simple cycle along real edges; nothing is reported exactly when the graph is acyclic;
   * and every closed walk of the graph uses an edge of a cycle whose name is reported.
   */
  method FindGraphCycles(g: Graph) returns (result: seq<seq<Node>>)
    requires g.Valid()
    ensures forall p :: p in result ==> ReportedPath(g, p)
    ensures result == [] <==> Acyclic(g)
    ensures forall i, j :: 0 <= i < j < |result| ==> PathName(result[i]) != PathName(result[j])
    ensures EveryCycleTouched(g, PathNames(result))
  {
    hide Recorded, FinishOrder, Walk, Acyclic, EveryCycleTouched, ReportedPath;
    var finder := new CycleFinder(g);
    ghost var universe := AllNodes(g);
    NodesClosed(g);
    for i := 0 to |g.keys|
      invariant finder.g == g && finder.Valid() && Searching(g, [], finder.visited, finder.finished)
      invariant finder.visited <= universe
      invariant forall j :: 0 <= j < i ==> g.keys[j] in finder.finished
    {
      finder.Visit(g.keys[i], [], universe);
    }
    RecordedKeys(g, finder.names, finder.cycles, finder.back);
    var names, cycles := finder.names, finder.cycles;
    result := seq(|names|, i requires 0 <= i < |names| => cycles[names[i]]);
    SearchComplete(g, names, cycles, finder.finished, finder.back, result);
  }

  ghost function AllNodes(g: Graph): set<Node> {
    ToSet(g.keys) + (set n, v | n in g.out && v in g.out[n] :: v)
  }

  lemma NodesClosed(g: Graph)
    ensures ClosedUnder(g, AllNodes(g)) && forall k :: k in g.keys ==> k in AllNodes(g)
    ensures Searching(g, [], {}, [])
  {}

  lemma RecordedKeys(g: Graph, names: seq<string>, cycles: map<string, seq<Node>>, back: set<(Node, Node)>)
    requires Recorded(g, names, cycles, back)
    ensures forall i :: 0 <= i < |names| ==> names[i] in cycles
  {
    forall i | 0 <= i < |names| ensures names[i] in cycles {
      assert names[i] in ToSet(names);
    }
  }
}
