/** Directed graphs over named nodes: walks, cycles, reachability and rotations of a cycle. */
module Digraph {

  type Node = string

  /** Successor lists of a graph, with its keys in the order Object.keys lists them. A successor need not be a key. */
  datatype Graph = Graph(keys: seq<Node>, out: map<Node, seq<Node>>) {
    ghost predicate Valid() {
      forall n :: n in keys <==> n in out
    }

    function Succ(n: Node): seq<Node> {
      if n in out then out[n] else []
    }
  }

  ghost predicate Walk(g: Graph, p: seq<Node>) {
    forall i :: 0 <= i < |p| - 1 ==> p[i + 1] in g.Succ(p[i])
  }

  ghost predicate ClosedWalk(g: Graph, p: seq<Node>) {
    2 <= |p| && Walk(g, p) && p[0] == p[|p| - 1]
  }

  ghost predicate Acyclic(g: Graph) {
    forall p :: !ClosedWalk(g, p)
  }

  ghost predicate WalkFrom(g: Graph, n: Node, p: seq<Node>) {
    1 <= |p| && p[0] == n && Walk(g, p)
  }

  /** No walk from n visits more than bound nodes, counting repeats. */
  ghost predicate Bounded(g: Graph, n: Node, bound: int) {
    forall p :: WalkFrom(g, n, p) ==> |p| <= bound
  }

  ghost predicate AllBounded(g: Graph, ns: seq<Node>, bound: int) {
    forall n :: n in ns ==> Bounded(g, n, bound)
  }

  ghost predicate Connects(g: Graph, a: Node, b: Node, p: seq<Node>) {
    WalkFrom(g, a, p) && p[|p| - 1] == b
  }

  ghost predicate Reaches(g: Graph, a: Node, b: Node) {
    exists p :: Connects(g, a, b, p)
  }

  ghost predicate ReachedFrom(g: Graph, roots: seq<Node>, b: Node) {
    exists a :: a in roots && Reaches(g, a, b)
  }

  ghost predicate Distinct<T>(s: seq<T>) {
    forall i, j :: 0 <= i < j < |s| ==> s[i] != s[j]
  }

  function ToSet<T>(s: seq<T>): set<T> {
    set x | x in s
  }

  lemma {:induction false} DistinctLength<T>(s: seq<T>, within: set<T>)
    requires Distinct(s) && ToSet(s) <= within
    ensures |s| <= |within|
  {
    if s != [] {
      var front := s[..|s| - 1];
      DistinctLength(front, within - {s[|s| - 1]});
    }
  }

  lemma StepForward(g: Graph, n: Node, m: Node, p: seq<Node>)
    requires m in g.Succ(n) && WalkFrom(g, m, p)
    ensures WalkFrom(g, n, [n] + p)
  {
    var q := [n] + p;
    assert forall i :: 0 < i < |q| ==> q[i] == p[i - 1];
  }

  lemma TailWalk(g: Graph, p: seq<Node>)
    requires 2 <= |p| && Walk(g, p)
    ensures p[1] in g.Succ(p[0]) && WalkFrom(g, p[1], p[1..])
  {
    var q := p[1..];
    forall i | 0 <= i < |q| - 1 ensures q[i + 1] in g.Succ(q[i]) {
      assert p[i + 1 + 1] in g.Succ(p[i + 1]);
    }
    assert p[0 + 1] in g.Succ(p[0]);
  }

  lemma SubWalk(g: Graph, p: seq<Node>, i: nat, j: nat)
    requires Walk(g, p) && i <= j <= |p|
    ensures Walk(g, p[i..j])
  {
    forall k | 0 <= k < |p[i..j]| - 1 ensures p[i..j][k + 1] in g.Succ(p[i..j][k]) {
      assert p[i + k + 1] in g.Succ(p[i + k]);
    }
  }

  lemma JoinWalks(g: Graph, p: seq<Node>, q: seq<Node>)
    requires 1 <= |p| && 1 <= |q| && Walk(g, p) && Walk(g, q) && p[|p| - 1] == q[0]
    ensures Walk(g, p + q[1..])
  {
    var r := p + q[1..];
    forall i | 0 <= i < |r| - 1 ensures r[i + 1] in g.Succ(r[i]) {
      if i < |p| - 1 {
        assert p[i + 1] in g.Succ(p[i]);
      } else {
        var k := i - (|p| - 1);
        assert r[i] == q[k] && r[i + 1] == q[k + 1];
      }
    }
  }

  /** Following one edge uses up one node of the bound; with no edges left the bound needs room for the node alone. */
  lemma BoundedStep(g: Graph, n: Node, bound: int)
    ensures Bounded(g, n, bound) <==> 1 <= bound && AllBounded(g, g.Succ(n), bound - 1)
  {
    if Bounded(g, n, bound) {
      assert WalkFrom(g, n, [n]);
      forall m, p | m in g.Succ(n) && WalkFrom(g, m, p) ensures |p| <= bound - 1 {
        StepForward(g, n, m, p);
      }
    }
    if 1 <= bound && AllBounded(g, g.Succ(n), bound - 1) {
      forall p | WalkFrom(g, n, p) ensures |p| <= bound {
        if 2 <= |p| {
          TailWalk(g, p);
          assert Bounded(g, p[1], bound - 1);
        }
      }
    }
  }

  lemma RevisitCloses(g: Graph, p: seq<Node>, i: nat, j: nat)
    requires Walk(g, p) && i < j < |p| && p[i] == p[j]
    ensures ClosedWalk(g, p[i..j + 1])
  {
    SubWalk(g, p, i, j + 1);
  }

  /** A walk that revisits a node contains a closed walk, so in an acyclic graph every walk is simple. */
  lemma AcyclicWalkDistinct(g: Graph, p: seq<Node>)
    requires Acyclic(g) && Walk(g, p)
    ensures Distinct(p)
  {
    forall i, j | 0 <= i < j < |p| ensures p[i] != p[j] {
      if p[i] == p[j] {
        RevisitCloses(g, p, i, j);
      }
    }
  }

  /** In an acyclic graph no walk is longer than the number of keys plus a final node without successors. */
  lemma AcyclicBounded(g: Graph, n: Node)
    requires Acyclic(g)
    ensures Bounded(g, n, |g.out| + 1)
  {
    forall p | WalkFrom(g, n, p) ensures |p| <= |g.out| + 1 {
      AcyclicWalkDistinct(g, p);
      var front := p[..|p| - 1];
      forall x | x in front ensures x in g.out.Keys {
        var i :| 0 <= i < |front| && front[i] == x;
        assert p[i + 1] in g.Succ(p[i]);
      }
      DistinctLength(front, g.out.Keys);
    }
  }

  /** Going round a cycle again and again makes walks of every length. */
  lemma {:induction false} Pump(g: Graph, c: seq<Node>, length: nat) returns (p: seq<Node>)
    requires ClosedWalk(g, c)
    ensures WalkFrom(g, c[0], p) && length <= |p| && p[|p| - 1] == c[0]
  {
    if length == 0 {
      p := c;
    } else {
      var q := Pump(g, c, length - 1);
      JoinWalks(g, c, q);
      p := c + q[1..];
    }
  }

  lemma CycleUnbounded(g: Graph, n: Node, c: seq<Node>, bound: nat)
    requires ClosedWalk(g, c) && Reaches(g, n, c[0])
    ensures !Bounded(g, n, bound)
  {
    var p :| Connects(g, n, c[0], p);
    var q := Pump(g, c, bound + 1);
    JoinWalks(g, p, q);
    assert WalkFrom(g, n, p + q[1..]);
  }

  lemma ReachesStep(g: Graph, a: Node, b: Node, c: Node)
    requires b in g.Succ(a) && Reaches(g, b, c)
    ensures Reaches(g, a, c)
  {
    var p :| Connects(g, b, c, p);
    StepForward(g, a, b, p);
    assert Connects(g, a, c, [a] + p);
  }

  lemma ReachesSelf(g: Graph, a: Node)
    ensures Reaches(g, a, a)
  {
    assert Connects(g, a, a, [a]);
  }

  ghost predicate ClosedUnder(g: Graph, s: set<Node>) {
    forall n, m :: n in s && m in g.Succ(n) ==> m in s
  }

  lemma {:induction false} ClosedReach(g: Graph, s: set<Node>, p: seq<Node>)
    requires ClosedUnder(g, s) && 1 <= |p| && Walk(g, p) && p[0] in s
    ensures p[|p| - 1] in s
  {
    if 2 <= |p| {
      TailWalk(g, p);
      ClosedReach(g, s, p[1..]);
    }
  }

  lemma ClosedReaches(g: Graph, s: set<Node>, a: Node, b: Node)
    requires ClosedUnder(g, s) && a in s && Reaches(g, a, b)
    ensures b in s
  {
    var p :| Connects(g, a, b, p);
    ClosedReach(g, s, p);
  }
}
