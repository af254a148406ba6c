/** The canonical rotation and the printed name of a dependency cycle. */
module CycleNaming {
  import opened Digraph

  /** String order by character code, the order of Array.prototype.sort. */
  predicate StringLeq(a: string, b: string) {
    a == [] || (b != [] && (a[0] < b[0] || (a[0] == b[0] && StringLeq(a[1..], b[1..]))))
  }

  /** A text comes before those it begins, and before those with a greater character at the first difference. */
  lemma {:induction false} Lexicographic(a: string, b: string)
    ensures StringLeq(a, b) <==>
            a <= b || exists i :: 0 <= i < |a| && i < |b| && a[..i] == b[..i] && a[i] < b[i]
  {
    if a != [] && b != [] {
      if a[0] == b[0] {
        Lexicographic(a[1..], b[1..]);
        if i :| 0 <= i < |a| && i < |b| && a[..i] == b[..i] && a[i] < b[i] {
          assert 0 < i && a[1..][..i - 1] == a[..i][1..] && b[1..][..i - 1] == b[..i][1..];
        }
        if i :| 0 <= i < |a[1..]| && i < |b[1..]| && a[1..][..i] == b[1..][..i] && a[1..][i] < b[1..][i] {
          assert a[..i + 1] == [a[0]] + a[1..][..i] && b[..i + 1] == [b[0]] + b[1..][..i];
          assert a[i + 1] < b[i + 1];
        }
        assert a <= b <==> a[1..] <= b[1..];
      } else {
        assert a[..0] == b[..0];
        if i :| 0 <= i < |a| && i < |b| && a[..i] == b[..i] && a[i] < b[i] {
          assert 0 < i ==> a[..i][0] == b[..i][0];
        }
      }
    }
  }

  lemma {:induction false} StringLeqAntisymmetric(a: string, b: string)
    requires StringLeq(a, b) && StringLeq(b, a)
    ensures a == b
  {
    if a != [] && b != [] {
      StringLeqAntisymmetric(a[1..], b[1..]);
      assert a == [a[0]] + a[1..] && b == [b[0]] + b[1..];
    }
  }

  lemma {:induction false} StringLeqTransitive(a: string, b: string, c: string)
    requires StringLeq(a, b) && StringLeq(b, c)
    ensures StringLeq(a, c)
  {
    if a != [] && b != [] && c != [] && a[0] == b[0] == c[0] {
      StringLeqTransitive(a[1..], b[1..], c[1..]);
    }
  }

  lemma {:induction false} StringLeqTotal(a: string, b: string)
    ensures StringLeq(a, b) || StringLeq(b, a)
  {
    if a != [] && b != [] && a[0] == b[0] {
      StringLeqTotal(a[1..], b[1..]);
    }
  }

  /** The first node in sorted order. */
  function Least(nodes: seq<Node>): (m: Node)
    requires nodes != []
    ensures m in nodes && forall n :: n in nodes ==> StringLeq(m, n)
  {
    if |nodes| == 1 then
      StringLeqTotal(nodes[0], nodes[0]);
      nodes[0]
    else
      var rest := Least(nodes[1..]);
      assert nodes == [nodes[0]] + nodes[1..];
      StringLeqTotal(nodes[0], rest);
      StringLeqTotal(nodes[0], nodes[0]);
      if StringLeq(nodes[0], rest) then
        assert forall n :: n in nodes[1..] ==> StringLeq(nodes[0], n) by {
          forall n | n in nodes[1..] ensures StringLeq(nodes[0], n) {
            StringLeqTransitive(nodes[0], rest, n);
          }
        }
        nodes[0]
      else rest
  }

  function IndexOf<T(==)>(s: seq<T>, x: T): (i: nat)
    requires x in s
    ensures i < |s| && s[i] == x && x !in s[..i]
  {
    if s[0] == x then 0
    else
      assert s == [s[0]] + s[1..];
      var k := IndexOf(s[1..], x);
      assert s[..k + 1] == [s[0]] + s[1..][..k];
      1 + k
  }

  function Rotate<T>(s: seq<T>, k: nat): seq<T>
    requires k <= |s|
  {
    s[k..] + s[..k]
  }

  /** The rotation of a cycle that starts at its least node. */
  function Canonicalize(nodes: seq<Node>): (r: seq<Node>)
    ensures |r| == |nodes|
  {
    if nodes == [] then [] else Rotate(nodes, IndexOf(nodes, Least(nodes)))
  }

  /** Rotating twice is rotating once. */
  lemma RotateTwice<T>(s: seq<T>, k: nat, j: nat) returns (t: nat)
    requires s != [] && k <= |s| && j <= |s|
    ensures t < |s| && Rotate(Rotate(s, k), j) == Rotate(s, t)
  {
    var r := Rotate(s, k);
    if k + j < |s| {
      t := k + j;
      assert r[j..] == s[t..] + s[..k];
      assert r[..j] == s[k..t];
      assert s[..t] == s[..k] + s[k..t];
    } else {
      t := k + j - |s|;
      if t == |s| {
        assert r == s && Rotate(r, j) == s == Rotate(s, 0);
        t := 0;
      } else {
        assert r[j..] == s[t..k];
        assert r[..j] == s[k..] + s[..t];
        assert s[t..] == s[t..k] + s[k..];
      }
    }
  }

  /** A rotation can be undone by a rotation. */
  lemma RotateBack<T>(s: seq<T>, k: nat)
    requires k <= |s|
    ensures Rotate(Rotate(s, k), |s| - k) == s
  {
    var r := Rotate(s, k);
    assert r[|s| - k..] == s[..k] && r[..|s| - k] == s[k..];
  }

  lemma RotateKeepsElements<T>(s: seq<T>, k: nat)
    requires k <= |s|
    ensures ToSet(Rotate(s, k)) == ToSet(s) && multiset(Rotate(s, k)) == multiset(s)
    ensures Distinct(s) ==> Distinct(Rotate(s, k))
  {
    assert s == s[..k] + s[k..];
    var r := Rotate(s, k);
    forall x ensures x in r <==> x in s {
      assert x in s <==> x in s[..k] || x in s[k..];
    }
  }

  /** Two rotations of one list of distinct nodes that start with the same node are the same list. */
  lemma RotationByHead<T>(s: seq<T>, a: nat, b: nat)
    requires Distinct(s) && a < |s| && b < |s| && Rotate(s, a)[0] == Rotate(s, b)[0]
    ensures a == b
  {}

  lemma LeastUnique(a: seq<Node>, b: seq<Node>)
    requires a != [] && ToSet(a) == ToSet(b)
    ensures b != [] && Least(a) == Least(b)
  {
    assert a[0] in ToSet(b);
    assert Least(a) in ToSet(b) && Least(b) in ToSet(a);
    StringLeqAntisymmetric(Least(a), Least(b));
  }

  /** Every rotation of a cycle of distinct nodes gets the same canonical form. */
  lemma CanonicalizeRotation(nodes: seq<Node>, k: nat)
    requires Distinct(nodes) && k <= |nodes|
    ensures Canonicalize(Rotate(nodes, k)) == Canonicalize(nodes)
  {
    if nodes != [] {
      var turned := Rotate(nodes, k);
      RotateKeepsElements(nodes, k);
      LeastUnique(nodes, turned);
      var j := IndexOf(turned, Least(turned));
      var t := RotateTwice(nodes, k, j);
      assert Rotate(turned, j)[0] == turned[j];
      RotationByHead(nodes, t, IndexOf(nodes, Least(nodes)));
    }
  }

  ghost predicate IsRotation<T(!new)>(a: seq<T>, b: seq<T>) {
    exists k: nat :: k <= |a| && b == Rotate(a, k)
  }

  /** Cycles of distinct nodes have the same canonical form exactly when one is a rotation of the other. */
  lemma CanonicalizeIdentifiesRotations(a: seq<Node>, b: seq<Node>)
    requires Distinct(a) && Distinct(b)
    ensures Canonicalize(a) == Canonicalize(b) <==> IsRotation(a, b)
  {
    if IsRotation(a, b) {
      var k: nat :| k <= |a| && b == Rotate(a, k);
      CanonicalizeRotation(a, k);
    }
    if Canonicalize(a) == Canonicalize(b) {
      SameCanonicalForm(a, b);
    }
  }

  lemma SameCanonicalForm(a: seq<Node>, b: seq<Node>)
    requires Canonicalize(a) == Canonicalize(b)
    ensures IsRotation(a, b)
  {
    if a == [] || b == [] {
      assert b == Rotate(a, 0);
    } else {
      var i := IndexOf(a, Least(a));
      var j := IndexOf(b, Least(b));
      RotateBack(b, j);
      assert |Rotate(a, i)| == |a|;
      var t := RotateTwice(a, i, |b| - j);
      assert b == Rotate(a, t);
    }
  }

  function Join(nodes: seq<string>, separator: string): string {
    if nodes == [] then ""
    else if |nodes| == 1 then nodes[0]
    else nodes[0] + separator + Join(nodes[1..], separator)
  }

  lemma {:induction false} JoinTold(a: seq<string>, b: seq<string>, separator: string)
    requires a != [] && b != []
    ensures Join(a + b, separator) == Join(a, separator) + separator + Join(b, separator)
  {
    if |a| == 1 {
      assert (a + b)[1..] == b;
    } else {
      assert (a + b)[1..] == a[1..] + b;
      JoinTold(a[1..], b, separator);
    }
  }

  const ARROW := " -> "

  /** The key a cycle is stored under. */
  function CycleKey(nodes: seq<Node>): string {
    Join(nodes, ARROW)
  }

  lemma KeyTold(nodes: seq<Node>, last: Node)
    requires nodes != []
    ensures CycleKey([last]) == last && CycleKey(nodes + [last]) == CycleKey(nodes) + " -> " + last
  {
    JoinTold(nodes, [last], ARROW);
  }
}
