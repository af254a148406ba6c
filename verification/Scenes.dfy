/** Choosing the best scenes of an area, and why reading only the first rows is enough. */
module Scenes {
  datatype Scene = Scene(id: string, cloudCover: real)

  /** The share of the area under cloud in all of the scenes. */
  function Cumulative(scenes: seq<Scene>): real {
    if scenes == [] then 1.0 else Cumulative(scenes[..|scenes| - 1]) * (scenes[|scenes| - 1].cloudCover / 100.0)
  }

  /** It is the product of the shares of the scenes. */
  lemma {:induction false} CumulativeMultiplies(a: seq<Scene>, b: seq<Scene>)
    ensures Cumulative(a + b) == Cumulative(a) * Cumulative(b)
    decreases |b|
  {
    if b == [] {
      assert a + b == a;
    } else {
      var front := b[..|b| - 1];
      CumulativeMultiplies(a, front);
      assert (a + b)[..|a + b| - 1] == a + front;
    }
  }

  lemma CumulativeOfOne(scene: Scene)
    ensures Cumulative([scene]) == scene.cloudCover / 100.0
  {
    assert [scene][..0] == [];
  }

  datatype Wanted = Wanted(minScenes: int, maxScenes: int, cloudCoverTarget: real)

  /** Whether the first n rows are enough. */
  predicate Enough(rows: seq<Scene>, n: nat, w: Wanted)
    requires n <= |rows|
  {
    w.maxScenes <= n || (w.minScenes <= n && Cumulative(rows[..n]) <= w.cloudCoverTarget)
  }

  /** The scenes are the shortest non-empty beginning of the rows that is enough, or all rows when none is. */
  ghost predicate Best(rows: seq<Scene>, scenes: seq<Scene>, w: Wanted) {
    && scenes <= rows
    && (rows != [] ==> scenes != [])
    && (|scenes| < |rows| ==> Enough(rows, |scenes|, w))
    && forall n :: 1 <= n < |scenes| ==> !Enough(rows, n, w)
  }

  lemma BestIsUnique(rows: seq<Scene>, a: seq<Scene>, b: seq<Scene>, w: Wanted)
    requires Best(rows, a, w) && Best(rows, b, w)
    ensures a == b
  {
    assert |a| == |b|;
  }

  method SelectBest(rows: seq<Scene>, w: Wanted) returns (scenes: seq<Scene>)
    ensures Best(rows, scenes, w)
  {
    scenes := [];
    var cumulative := 1.0;
    for i := 0 to |rows|
      invariant scenes == rows[..i] && cumulative == Cumulative(scenes)
      invariant forall n :: 1 <= n <= i ==> !Enough(rows, n, w)
    {
      var row := rows[i];
      scenes := scenes + [row];
      cumulative := cumulative * (row.cloudCover / 100.0);
      assert scenes[..|scenes| - 1] == rows[..i] && scenes == rows[..i + 1];
      if w.maxScenes <= |scenes| {
        break;
      }
      if !(cumulative > w.cloudCoverTarget || |scenes| < w.minScenes) {
        break;
      }
    }
  }

  /** LIMIT: the first rows only. */
  function Limit(rows: seq<Scene>, limit: nat): seq<Scene> {
    if limit < |rows| then rows[..limit] else rows
  }

  /**
   * Selecting from the first maxScenes rows gives what selecting from all rows gives, unless maxScenes is zero and
   * there are rows.
   */
  lemma LimitIsExact(rows: seq<Scene>, limited: seq<Scene>, all: seq<Scene>, w: Wanted)
    requires 0 <= w.maxScenes
    requires Best(Limit(rows, w.maxScenes), limited, w) && Best(rows, all, w)
    ensures limited == all <==> 1 <= w.maxScenes || rows == []
  {
    var few := Limit(rows, w.maxScenes);
    if 1 <= w.maxScenes {
      assert |all| <= |few| by {
        assert w.maxScenes < |all| ==> Enough(rows, w.maxScenes, w);
      }
      forall n | 1 <= n <= |few| ensures Enough(few, n, w) <==> Enough(rows, n, w) {
        assert few[..n] == rows[..n];
      }
      assert Best(few, all, w);
      BestIsUnique(few, limited, all, w);
    }
  }
}
