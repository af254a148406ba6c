/** The waiting line for local processing slots: who is in turn, and what keeps a waiter's place. */
module SlotLine {
  import opened Options
  import opened TaskTable
  import Sets

  const ABANDONED_AFTER_MS := 30 * 1000

  datatype Waiter = Waiter(id: TaskId, username: User, since: int, seen: int)

  /** The entries of a JavaScript Map keyed by task id, in insertion order. */
  type Line = seq<Waiter>

  ghost predicate ValidLine(ws: Line) {
    forall i, j :: 0 <= i < j < |ws| ==> ws[i].id != ws[j].id
  }

  function Ids(ws: Line): set<TaskId> {
    set w | w in ws :: w.id
  }

  function Held(held: map<User, nat>, u: User): nat {
    if u in held then held[u] else 0
  }

  function PositionOf(ws: Line, id: TaskId): (i: nat)
    requires id in Ids(ws)
    ensures i < |ws| && ws[i].id == id && forall j :: 0 <= j < i ==> ws[j].id != id
  {
    if ws[0].id == id then 0
    else
      assert ws == [ws[0]] + ws[1..];
      1 + PositionOf(ws[1..], id)
  }

  /** Waiters.set: a waiter keeps its place and the time it first asked. */
  function Enter(ws: Line, id: TaskId, username: User, now: int): Line {
    if id in Ids(ws) then
      var i := PositionOf(ws, id);
      ws[i := Waiter(id, username, ws[i].since, now)]
    else ws + [Waiter(id, username, now, now)]
  }

  function Keep(ws: Line, keep: Waiter -> bool): (r: Line)
    ensures forall w :: w in r <==> w in ws && keep(w)
  {
    if ws == [] then []
    else
      assert ws == [ws[0]] + ws[1..];
      (if keep(ws[0]) then [ws[0]] else []) + Keep(ws[1..], keep)
  }

  function DropAbandoned(ws: Line, now: int): Line {
    Keep(ws, (w: Waiter) => now - w.seen <= ABANDONED_AFTER_MS)
  }

  function Leave(ws: Line, id: TaskId): Line {
    Keep(ws, (w: Waiter) => w.id != id)
  }

  /** The comparator: fewer slots held by the owner first, then the longer wait. */
  predicate SortsBefore(held: map<User, nat>, a: Waiter, b: Waiter) {
    || Held(held, a.username) < Held(held, b.username)
    || (Held(held, a.username) == Held(held, b.username) && a.since < b.since)
  }

  /** Array.prototype.sort is stable: an element goes after all those it does not sort before. */
  function Place(held: map<User, nat>, sorted: seq<Waiter>, w: Waiter): seq<Waiter> {
    if sorted == [] then [w]
    else if SortsBefore(held, w, sorted[0]) then [w] + sorted
    else [sorted[0]] + Place(held, sorted[1..], w)
  }

  function Sort(held: map<User, nat>, ws: Line): seq<Waiter> {
    if ws == [] then [] else Place(held, Sort(held, ws[..|ws| - 1]), ws[|ws| - 1])
  }

  function InTurn(ws: Line, free: int, held: map<User, nat>): set<TaskId> {
    var sorted := Sort(held, ws);
    Ids(sorted[..if free <= 0 then 0 else if free < |sorted| then free else |sorted|])
  }

  /** The line after a request, and whether the task is in turn. */
  function Requested(ws: Line, id: TaskId, username: User, free: int, held: map<User, nat>, now: int): (Line, bool) {
    var live := DropAbandoned(Enter(ws, id, username, now), now);
    if id in InTurn(live, free, held) then (Leave(live, id), true) else (live, false)
  }

  // ---- The order the line stands for

  /** Waiter i comes before waiter j: slots held by the owner, then time of the first request, then arrival. */
  ghost predicate Precedes(held: map<User, nat>, ws: Line, i: int, j: int)
    requires 0 <= i < |ws| && 0 <= j < |ws|
  {
    SortsBefore(held, ws[i], ws[j]) || (!SortsBefore(held, ws[j], ws[i]) && i < j)
  }

  ghost predicate Ahead(held: map<User, nat>, ws: Line, a: TaskId, b: TaskId) {
    exists i, j :: 0 <= i < |ws| && 0 <= j < |ws| && ws[i].id == a && ws[j].id == b && Precedes(held, ws, i, j)
  }

  ghost function AheadOf(held: map<User, nat>, ws: Line, id: TaskId): set<TaskId> {
    set a | a in Ids(ws) && Ahead(held, ws, a, id)
  }

  lemma AheadByPosition(held: map<User, nat>, ws: Line, i: int, j: int)
    requires ValidLine(ws) && 0 <= i < |ws| && 0 <= j < |ws|
    ensures Ahead(held, ws, ws[i].id, ws[j].id) <==> Precedes(held, ws, i, j)
  {
    if Ahead(held, ws, ws[i].id, ws[j].id) {
      var x, y :| 0 <= x < |ws| && 0 <= y < |ws| && ws[x].id == ws[i].id && ws[y].id == ws[j].id && Precedes(held, ws, x, y);
      assert x == i && y == j;
    }
  }

  lemma {:induction false} PlaceKeeps(held: map<User, nat>, sorted: seq<Waiter>, w: Waiter)
    ensures multiset(Place(held, sorted, w)) == multiset(sorted) + multiset{w}
  {
    hide SortsBefore;
    if sorted == [] {
    } else if SortsBefore(held, w, sorted[0]) {
      assert Place(held, sorted, w) == [w] + sorted;
    } else {
      PlaceKeeps(held, sorted[1..], w);
      assert sorted == [sorted[0]] + sorted[1..];
    }
  }

  lemma SameMembers<T>(a: seq<T>, b: seq<T>)
    requires multiset(a) == multiset(b)
    ensures |a| == |b|
    ensures forall x :: x in a <==> x in b
  {
    assert |multiset(a)| == |multiset(b)|;
    forall x ensures x in a <==> x in b {
      assert x in a <==> x in multiset(a);
      assert x in b <==> x in multiset(b);
    }
  }

  lemma {:induction false} SortKeeps(held: map<User, nat>, ws: Line)
    ensures multiset(Sort(held, ws)) == multiset(ws) && |Sort(held, ws)| == |ws|
    ensures forall w :: w in Sort(held, ws) <==> w in ws
  {
    hide Place;
    if ws != [] {
      var front := ws[..|ws| - 1];
      SortKeeps(held, front);
      PlaceKeeps(held, Sort(held, front), ws[|ws| - 1]);
      assert ws == front + [ws[|ws| - 1]];
    }
    SameMembers(Sort(held, ws), ws);
  }

  /** A sequence of waiters of the line in strictly ascending order. */
  ghost predicate Ascending(held: map<User, nat>, ws: Line, s: seq<Waiter>) {
    forall x, y :: 0 <= x < y < |s| ==> Ahead(held, ws, s[x].id, s[y].id)
  }

  lemma AheadTransitive(held: map<User, nat>, ws: Line, a: TaskId, b: TaskId, c: TaskId)
    requires ValidLine(ws) && Ahead(held, ws, a, b) && Ahead(held, ws, b, c)
    ensures Ahead(held, ws, a, c)
  {
    var i, j :| 0 <= i < |ws| && 0 <= j < |ws| && ws[i].id == a && ws[j].id == b && Precedes(held, ws, i, j);
    var j', k :| 0 <= j' < |ws| && 0 <= k < |ws| && ws[j'].id == b && ws[k].id == c && Precedes(held, ws, j', k);
    assert j == j';
    assert Precedes(held, ws, i, k);
  }

  lemma AheadTotal(held: map<User, nat>, ws: Line, a: TaskId, b: TaskId)
    requires ValidLine(ws) && a in Ids(ws) && b in Ids(ws) && a != b
    ensures Ahead(held, ws, a, b) <==> !Ahead(held, ws, b, a)
  {
    AheadByPosition(held, ws, PositionOf(ws, a), PositionOf(ws, b));
    AheadByPosition(held, ws, PositionOf(ws, b), PositionOf(ws, a));
  }

  lemma AheadIrreflexive(held: map<User, nat>, ws: Line, a: TaskId)
    requires ValidLine(ws)
    ensures !Ahead(held, ws, a, a)
  {
    if a in Ids(ws) {
      AheadByPosition(held, ws, PositionOf(ws, a), PositionOf(ws, a));
    }
  }

  lemma AheadInLonger(held: map<User, nat>, ws: Line, w: Waiter, a: TaskId, b: TaskId)
    requires Ahead(held, ws, a, b)
    ensures Ahead(held, ws + [w], a, b)
  {
    var i, j :| 0 <= i < |ws| && 0 <= j < |ws| && ws[i].id == a && ws[j].id == b && Precedes(held, ws, i, j);
    assert Precedes(held, ws + [w], i, j);
  }

  function IndexIn<T(==)>(s: seq<T>, x: T): (i: nat)
    requires x in s
    ensures i < |s| && s[i] == x
  {
    if s[0] == x then 0 else 1 + IndexIn(s[1..], x)
  }

  /** Against the newest waiter the comparator decides alone. */
  lemma NewestAhead(held: map<User, nat>, ws: Line, x: Waiter)
    requires ws != [] && ValidLine(ws) && x in ws[..|ws| - 1]
    ensures var w := ws[|ws| - 1];
      && (Ahead(held, ws, w.id, x.id) <==> SortsBefore(held, w, x))
      && (Ahead(held, ws, x.id, w.id) <==> !SortsBefore(held, w, x))
  {
    hide Ahead;
    var p := IndexIn(ws[..|ws| - 1], x);
    AheadByPosition(held, ws, p, |ws| - 1);
    AheadByPosition(held, ws, |ws| - 1, p);
  }

  lemma FirstAscending(held: map<User, nat>, ws: Line, x: Waiter, s: seq<Waiter>)
    requires Ascending(held, ws, s) && forall v :: v in s ==> Ahead(held, ws, x.id, v.id)
    ensures Ascending(held, ws, [x] + s)
  {
    hide Ahead;
    assert forall y :: 0 <= y < |s| ==> s[y] in s;
  }

  /** Placing the newest waiter keeps the order ascending. */
  lemma {:induction false} PlaceAscending(held: map<User, nat>, ws: Line, s: seq<Waiter>, w: Waiter)
    requires ws != [] && w == ws[|ws| - 1] && ValidLine(ws) && Ascending(held, ws, s)
    requires forall x :: x in s ==> x in ws[..|ws| - 1]
    ensures Ascending(held, ws, Place(held, s, w))
  {
    hide Ahead, SortsBefore;
    if s != [] {
      assert s[0] in s;
      NewestAhead(held, ws, s[0]);
      if SortsBefore(held, w, s[0]) {
        forall v | v in s ensures Ahead(held, ws, w.id, v.id) {
          var y := IndexIn(s, v);
          if 0 < y {
            AheadTransitive(held, ws, w.id, s[0].id, v.id);
          }
        }
        FirstAscending(held, ws, w, s);
      } else {
        var rest := s[1..];
        assert forall x :: x in rest ==> x in s;
        PlaceAscending(held, ws, rest, w);
        PlaceKeeps(held, rest, w);
        forall v | v in Place(held, rest, w) ensures Ahead(held, ws, s[0].id, v.id) {
          assert v in multiset(Place(held, rest, w));
          if v != w {
            assert v in multiset(rest);
            assert s[IndexIn(rest, v) + 1] == v;
          }
        }
        FirstAscending(held, ws, s[0], Place(held, rest, w));
      }
    }
  }

  lemma {:induction false} SortAscending(held: map<User, nat>, ws: Line)
    requires ValidLine(ws)
    ensures Ascending(held, ws, Sort(held, ws))
  {
    if ws != [] {
      var front, w := ws[..|ws| - 1], ws[|ws| - 1];
      assert ws == front + [w];
      SortAscending(held, front);
      SortKeeps(held, front);
      var s := Sort(held, front);
      forall x, y | 0 <= x < y < |s| ensures Ahead(held, ws, s[x].id, s[y].id) {
        AheadInLonger(held, front, w, s[x].id, s[y].id);
      }
      PlaceAscending(held, ws, s, w);
    }
  }

  /** In the sorted line, those before a waiter are exactly those ahead of it. */
  lemma RankIsAheadCount(held: map<User, nat>, ws: Line, s: seq<Waiter>, r: nat)
    requires ValidLine(ws) && Ascending(held, ws, s) && r < |s|
    requires forall w :: w in s <==> w in ws
    ensures AheadOf(held, ws, s[r].id) == Ids(s[..r]) && |Ids(s[..r])| == r
  {
    forall a ensures a in AheadOf(held, ws, s[r].id) <==> a in Ids(s[..r]) {
      if a in AheadOf(held, ws, s[r].id) {
        var w :| w in ws && w.id == a;
        var x := IndexIn(s, w);
        if r < x {
          AheadTransitive(held, ws, a, s[r].id, a);
        }
        AheadIrreflexive(held, ws, a);
        assert x < r;
        assert s[x] in s[..r];
      }
      if a in Ids(s[..r]) {
        var w :| w in s[..r] && w.id == a;
        var x := IndexIn(s[..r], w);
        assert s[x] == w;
        assert w in ws;
      }
    }
    PrefixSize(held, ws, s, r);
  }

  lemma {:induction false} PrefixSize(held: map<User, nat>, ws: Line, s: seq<Waiter>, r: nat)
    requires ValidLine(ws) && Ascending(held, ws, s) && r <= |s|
    ensures |Ids(s[..r])| == r
  {
    if 0 < r {
      PrefixSize(held, ws, s, r - 1);
      assert s[..r] == s[..r - 1] + [s[r - 1]];
      assert Ids(s[..r]) == Ids(s[..r - 1]) + {s[r - 1].id};
      AheadIrreflexive(held, ws, s[r - 1].id);
      forall w | w in s[..r - 1] ensures w.id != s[r - 1].id {
        var x := IndexIn(s[..r - 1], w);
        assert Ahead(held, ws, s[x].id, s[r - 1].id);
      }
    }
  }

  /** A waiter is in turn exactly when fewer waiters than there are free slots come before it. */
  lemma InTurnExact(ws: Line, free: int, held: map<User, nat>, id: TaskId)
    requires ValidLine(ws) && id in Ids(ws)
    ensures id in InTurn(ws, free, held) <==> |AheadOf(held, ws, id)| < free
  {
    var s := Sort(held, ws);
    SortKeeps(held, ws);
    SortAscending(held, ws);
    var w :| w in ws && w.id == id;
    var r := IndexIn(s, w);
    RankIsAheadCount(held, ws, s, r);
    var n := if free <= 0 then 0 else if free < |s| then free else |s|;
    if r < n {
      assert s[r] in s[..n];
    }
    if id in Ids(s[..n]) {
      var v :| v in s[..n] && v.id == id;
      var x := IndexIn(s[..n], v);
      assert s[x] == v && v in ws;
      assert v == w by {
        assert ws[IndexIn(ws, v)].id == ws[IndexIn(ws, w)].id;
      }
      RankIsAheadCount(held, ws, s, x);
    }
  }

  // ---- Requests, polling and grants

  /** Where the waiters kept were in the line. */
  ghost predicate KeptFrom(ws: Line, kept: Line, from: seq<nat>) {
    && |from| == |kept|
    && (forall x :: 0 <= x < |from| ==> from[x] < |ws| && ws[from[x]] == kept[x])
    && (forall x, y :: 0 <= x < y < |from| ==> from[x] < from[y])
  }

  lemma ShiftPositions(w: Waiter, rest: Line, kept: Line, from: seq<nat>) returns (shifted: seq<nat>)
    requires KeptFrom(rest, kept, from)
    ensures KeptFrom([w] + rest, kept, shifted) && KeptFrom([w] + rest, [w] + kept, [0] + shifted)
  {
    shifted := seq(|from|, i requires 0 <= i < |from| => from[i] + 1);
    assert KeptFrom([w] + rest, kept, shifted);
  }

  lemma {:induction false} KeepKeepsPositions(ws: Line, keep: Waiter -> bool) returns (from: seq<nat>)
    ensures KeptFrom(ws, Keep(ws, keep), from)
  {
    if ws == [] {
      from := [];
    } else {
      assert ws == [ws[0]] + ws[1..];
      var rest := KeepKeepsPositions(ws[1..], keep);
      var shifted := ShiftPositions(ws[0], ws[1..], Keep(ws[1..], keep), rest);
      from := if keep(ws[0]) then [0] + shifted else shifted;
    }
  }

  /** Dropping waiters leaves a valid line, in which those kept are ahead of each other as before. */
  lemma KeepKeepsOrder(ws: Line, keep: Waiter -> bool)
    requires ValidLine(ws)
    ensures ValidLine(Keep(ws, keep)) && Ids(Keep(ws, keep)) <= Ids(ws)
    ensures forall held, a, b :: a in Ids(Keep(ws, keep)) && b in Ids(Keep(ws, keep)) ==>
              (Ahead(held, Keep(ws, keep), a, b) <==> Ahead(held, ws, a, b))
  {
    var from := KeepKeepsPositions(ws, keep);
    var kept := Keep(ws, keep);
    forall held, a, b | a in Ids(kept) && b in Ids(kept) ensures Ahead(held, kept, a, b) <==> Ahead(held, ws, a, b) {
      var x, y := PositionOf(kept, a), PositionOf(kept, b);
      AheadByPosition(held, kept, x, y);
      AheadByPosition(held, ws, from[x], from[y]);
    }
  }

  lemma EnterKeepsValid(ws: Line, id: TaskId, username: User, now: int)
    requires ValidLine(ws)
    ensures ValidLine(Enter(ws, id, username, now)) && Ids(Enter(ws, id, username, now)) == Ids(ws) + {id}
  {
    var r := Enter(ws, id, username, now);
    if id in Ids(ws) {
      var i := PositionOf(ws, id);
      forall a | a in Ids(ws) ensures a in Ids(r) {
        var w :| w in ws && w.id == a;
        var x := IndexIn(ws, w);
        assert r[x].id == a;
      }
    } else {
      assert r[|ws|].id == id;
      forall a | a in Ids(ws) ensures a in Ids(r) {
        var w :| w in ws && w.id == a;
        assert w in r;
      }
      forall i | 0 <= i < |ws| ensures ws[i].id != id {
        assert ws[i] in ws;
      }
    }
  }

  /** Lines with the same ids, owners and times of the first request order their waiters the same way. */
  lemma SameKeysSameOrder(held: map<User, nat>, ws: Line, r: Line, a: TaskId, b: TaskId)
    requires |ws| == |r|
    requires forall i :: 0 <= i < |ws| ==> ws[i].id == r[i].id && ws[i].username == r[i].username && ws[i].since == r[i].since
    requires Ahead(held, ws, a, b)
    ensures Ahead(held, r, a, b)
  {
    var i, j :| 0 <= i < |ws| && 0 <= j < |ws| && ws[i].id == a && ws[j].id == b && Precedes(held, ws, i, j);
    assert Precedes(held, r, i, j);
  }

  /** Polling again renews only when the waiter was last seen, so it is nowhere different in the order. */
  lemma PollKeepsOrder(held: map<User, nat>, ws: Line, id: TaskId, username: User, now: int, a: TaskId, b: TaskId)
    requires ValidLine(ws) && id in Ids(ws) && ws[PositionOf(ws, id)].username == username
    ensures Ahead(held, Enter(ws, id, username, now), a, b) <==> Ahead(held, ws, a, b)
  {
    var r := Enter(ws, id, username, now);
    hide Ahead;
    if Ahead(held, ws, a, b) {
      SameKeysSameOrder(held, ws, r, a, b);
    }
    if Ahead(held, r, a, b) {
      SameKeysSameOrder(held, r, ws, a, b);
    }
  }

  /**
   * A request is answered exactly when fewer waiters than there are free slots come before the task in the line of
   * those not abandoned, and then leaves that line; otherwise the task waits in it.
   */
  lemma RequestExact(ws: Line, id: TaskId, username: User, free: int, held: map<User, nat>, now: int)
    requires ValidLine(ws)
    ensures var live := DropAbandoned(Enter(ws, id, username, now), now);
      var (after, answer) := Requested(ws, id, username, free, held, now);
      && ValidLine(live) && id in Ids(live)
      && (answer <==> |AheadOf(held, live, id)| < free)
      && ValidLine(after) && Ids(after) == Ids(live) - (if answer then {id} else {})
  {
    var entered := Enter(ws, id, username, now);
    var live := DropAbandoned(entered, now);
    EnterKeepsValid(ws, id, username, now);
    var w := EnteredNow(ws, id, username, now);
    hide Enter, Ahead, ValidLine, InTurn, AheadOf;
    KeepKeepsOrder(entered, (w: Waiter) => now - w.seen <= ABANDONED_AFTER_MS);
    assert w in live;
    InTurnExact(live, free, held, id);
    LeaveIds(live, id);
  }

  // ---- Requests in terms of the waiters alone

  /** When a task asked first: when the waiter it already is did, else now. */
  ghost function AskedFirst(ws: Line, id: TaskId, now: int): int {
    if exists i :: 0 <= i < |ws| && ws[i].id == id then
      var i :| 0 <= i < |ws| && ws[i].id == id;
      ws[i].since
    else now
  }

  /**
   * A waiter that the task has to wait for: another one, seen within the last thirty seconds, whose owner holds fewer
   * slots, or as many and it asked first earlier, or at the same time and came into the line before.
   */
  ghost predicate InFrontOf(ws: Line, i: int, id: TaskId, u: User, held: map<User, nat>, now: int)
    requires 0 <= i < |ws|
  {
    && ws[i].id != id && now - ws[i].seen <= 30000
    && (|| Held(held, ws[i].username) < Held(held, u)
        || (Held(held, ws[i].username) == Held(held, u)
            && (|| ws[i].since < AskedFirst(ws, id, now)
                || (ws[i].since == AskedFirst(ws, id, now) && !exists k :: 0 <= k < i && ws[k].id == id))))
  }

  ghost function InFront(ws: Line, id: TaskId, u: User, held: map<User, nat>, now: int): set<TaskId> {
    set i | 0 <= i < |ws| && InFrontOf(ws, i, id, u, held, now) :: ws[i].id
  }

  /**
   * The answer counts those waiters against the free slots. Every other waiter stays as it is unless it was not seen
   * for more than thirty seconds; the task leaves the line with its answer, or waits in it since it first asked.
   */
  lemma RequestTold(ws: Line, id: TaskId, u: User, free: int, held: map<User, nat>, now: int)
    requires ValidLine(ws)
    ensures var (after, answer) := Requested(ws, id, u, free, held, now);
      && (answer <==> |InFront(ws, id, u, held, now)| < free)
      && (forall w: Waiter :: w.id != id ==> (w in after <==> w in ws && now - w.seen <= 30000))
      && (forall w: Waiter :: w.id == id ==> (w in after <==> !answer && w == Waiter(id, u, AskedFirst(ws, id, now), now)))
  {
    RequestExact(ws, id, u, free, held, now);
    EnterTold(ws, id, u, now);
    var entered := Enter(ws, id, u, now);
    var live := DropAbandoned(entered, now);
    FrontIsAhead(ws, id, u, held, now);
  }

  /** A newcomer does not pass those that are waiting: it stands behind all who hold no more and asked no later. */
  lemma NewcomerWaits(ws: Line, id: TaskId, u: User, free: int, held: map<User, nat>, now: int, waiting: set<TaskId>)
    requires ValidLine(ws) && (forall w <- ws :: w.id != id) && free <= |waiting|
    requires forall a <- waiting :: exists i :: 0 <= i < |ws| && ws[i].id == a && now - ws[i].seen <= 30000
                                                && Held(held, ws[i].username) <= Held(held, u) && ws[i].since <= now
    ensures !Requested(ws, id, u, free, held, now).1
  {
    RequestTold(ws, id, u, free, held, now);
    forall a <- waiting ensures a in InFront(ws, id, u, held, now) {
      var i :| 0 <= i < |ws| && ws[i].id == a && now - ws[i].seen <= 30000
                && Held(held, ws[i].username) <= Held(held, u) && ws[i].since <= now;
      assert forall k :: 0 <= k < |ws| ==> ws[k] in ws;
      assert InFrontOf(ws, i, id, u, held, now);
    }
    Sets.SubsetSize(waiting, InFront(ws, id, u, held, now));
  }

  lemma EnterTold(ws: Line, id: TaskId, u: User, now: int)
    requires ValidLine(ws)
    ensures var entered, p := Enter(ws, id, u, now), if id in Ids(ws) then PositionOf(ws, id) else |ws|;
      && p < |entered| && |ws| <= |entered| <= p + 1 + |ws| && (id !in Ids(ws) ==> |entered| == |ws| + 1)
      && (id in Ids(ws) ==> |entered| == |ws|)
      && entered[p] == Waiter(id, u, AskedFirst(ws, id, now), now)
      && (forall i :: 0 <= i < |ws| && i != p ==> entered[i] == ws[i] && ws[i].id != id)
  {
    forall i | 0 <= i < |ws| && ws[i].id == id ensures id in Ids(ws) && i == PositionOf(ws, id) {
      assert ws[i] in ws;
    }
  }

  lemma FrontIsAhead(ws: Line, id: TaskId, u: User, held: map<User, nat>, now: int)
    requires ValidLine(ws)
    ensures AheadOf(held, DropAbandoned(Enter(ws, id, u, now), now), id) == InFront(ws, id, u, held, now)
  {
    var entered := Enter(ws, id, u, now);
    var live := DropAbandoned(entered, now);
    var p := if id in Ids(ws) then PositionOf(ws, id) else |ws|;
    EnterTold(ws, id, u, now);
    EnterKeepsValid(ws, id, u, now);
    KeepKeepsOrder(entered, (w: Waiter) => now - w.seen <= ABANDONED_AFTER_MS);
    assert entered[p] in live;
    hide Enter, Keep;
    forall a ensures a in AheadOf(held, live, id) <==> a in InFront(ws, id, u, held, now) {
      OneInFront(ws, entered, live, p, id, u, held, now, a);
    }
  }

  lemma OneInFront(ws: Line, entered: Line, live: Line, p: nat, id: TaskId, u: User, held: map<User, nat>, now: int, a: TaskId)
    requires ValidLine(ws) && ValidLine(entered) && p < |entered| && p <= |ws| <= |entered|
    requires |entered| == if p < |ws| then |ws| else |ws| + 1
    requires entered[p] == Waiter(id, u, AskedFirst(ws, id, now), now)
    requires forall i :: 0 <= i < |ws| && i != p ==> entered[i] == ws[i] && ws[i].id != id
    requires p < |ws| ==> ws[p].id == id
    requires forall w :: w in live <==> w in entered && now - w.seen <= 30000
    requires id in Ids(live)
    requires forall x, y :: x in Ids(live) && y in Ids(live) ==> (Ahead(held, live, x, y) <==> Ahead(held, entered, x, y))
    ensures a in AheadOf(held, live, id) <==> a in InFront(ws, id, u, held, now)
  {
    hide Ahead;
    if a in AheadOf(held, live, id) {
      var w :| w in live && w.id == a;
      var i := IndexIn(entered, w);
      AheadByPosition(held, entered, i, p);
      assert InFrontOf(ws, i, id, u, held, now);
    }
    if a in InFront(ws, id, u, held, now) {
      var i :| 0 <= i < |ws| && InFrontOf(ws, i, id, u, held, now) && ws[i].id == a;
      assert entered[i] in entered && entered[i] in live;
      AheadByPosition(held, entered, i, p);
    }
  }

  lemma EnteredNow(ws: Line, id: TaskId, username: User, now: int) returns (w: Waiter)
    requires ValidLine(ws)
    ensures w in Enter(ws, id, username, now) && w.id == id && w.seen == now
  {
    var entered := Enter(ws, id, username, now);
    if id in Ids(ws) {
      w := entered[PositionOf(ws, id)];
    } else {
      w := entered[|ws|];
    }
  }

  lemma LeaveIds(ws: Line, id: TaskId)
    requires ValidLine(ws)
    ensures ValidLine(Leave(ws, id)) && Ids(Leave(ws, id)) == Ids(ws) - {id}
  {
    KeepKeepsOrder(ws, (w: Waiter) => w.id != id);
    forall a | a in Ids(ws) && a != id ensures a in Ids(Leave(ws, id)) {
      var w :| w in ws && w.id == a;
      assert w in Leave(ws, id);
    }
  }

  function OneMore(held: map<User, nat>, u: User): map<User, nat> {
    held[u := Held(held, u) + 1]
  }

  /**
   * A poll by a waiter that is not yet in turn never changes the order of those still waiting, for whatever holders
   * the order is taken.
   */
  lemma PollingKeepsOrder(held: map<User, nat>, ws: Line, id: TaskId, username: User, free: int, heldNow: map<User, nat>, now: int)
    requires ValidLine(ws) && id in Ids(ws) && ws[PositionOf(ws, id)].username == username
    requires !Requested(ws, id, username, free, heldNow, now).1
    ensures var after := Requested(ws, id, username, free, heldNow, now).0;
      forall a, b :: a in Ids(after) && b in Ids(after) ==> (Ahead(held, after, a, b) <==> Ahead(held, ws, a, b))
  {
    var entered := Enter(ws, id, username, now);
    EnterKeepsValid(ws, id, username, now);
    KeepKeepsOrder(entered, (w: Waiter) => now - w.seen <= ABANDONED_AFTER_MS);
    var after := Requested(ws, id, username, free, heldNow, now).0;
    forall a, b | a in Ids(after) && b in Ids(after) ensures Ahead(held, after, a, b) <==> Ahead(held, ws, a, b) {
      PollKeepsOrder(held, ws, id, username, now, a, b);
    }
  }

  /** After a grant, whoever is ahead of a waiter of another user was ahead of it before. */
  lemma GrantMovesNoneAhead(held: map<User, nat>, ws: Line, granted: TaskId, x: TaskId, w: TaskId)
    requires ValidLine(ws) && granted in Ids(ws) && w in Ids(ws)
    requires ws[PositionOf(ws, w)].username != ws[PositionOf(ws, granted)].username
    requires Ahead(OneMore(held, ws[PositionOf(ws, granted)].username), ws, x, w)
    ensures Ahead(held, ws, x, w)
  {
    var u := ws[PositionOf(ws, granted)].username;
    var more := OneMore(held, u);
    var i, j :| 0 <= i < |ws| && 0 <= j < |ws| && ws[i].id == x && ws[j].id == w && Precedes(more, ws, i, j);
    assert j == PositionOf(ws, w);
    hide PositionOf, ValidLine;
    assert Held(held, ws[i].username) <= Held(more, ws[i].username) && Held(more, ws[j].username) == Held(held, ws[j].username);
    assert Precedes(held, ws, i, j);
  }

  lemma AheadAfterGrant(held: map<User, nat>, ws: Line, granted: TaskId, w: TaskId)
    requires ValidLine(ws) && granted in Ids(ws) && w in Ids(ws)
    requires ws[PositionOf(ws, w)].username != ws[PositionOf(ws, granted)].username
    ensures var more := OneMore(held, ws[PositionOf(ws, granted)].username);
      AheadOf(more, Leave(ws, granted), w) <= AheadOf(held, ws, w) - {granted}
  {
    var more := OneMore(held, ws[PositionOf(ws, granted)].username);
    var left := Leave(ws, granted);
    LeaveIds(ws, granted);
    KeepKeepsOrder(ws, (v: Waiter) => v.id != granted);
    hide Ahead, PositionOf, Keep;
    forall x | x in AheadOf(more, left, w) ensures x in AheadOf(held, ws, w) && x != granted {
      assert Ahead(more, ws, x, w);
      GrantMovesNoneAhead(held, ws, granted, x, w);
    }
  }

  /** Whoever is ahead of a waiter that is itself ahead of another is ahead of that one too. */
  lemma AheadOfIsNested(held: map<User, nat>, ws: Line, w: TaskId, v: TaskId)
    requires ValidLine(ws) && w in Ids(ws) && Ahead(held, ws, w, v)
    ensures |AheadOf(held, ws, w)| < |AheadOf(held, ws, v)|
  {
    AheadIrreflexive(held, ws, w);
    forall x | x in AheadOf(held, ws, w) ensures x in AheadOf(held, ws, v) {
      AheadTransitive(held, ws, x, w, v);
    }
    Sets.SubsetSize(AheadOf(held, ws, w), AheadOf(held, ws, v) - {w});
  }

  /** A grant to one task keeps in turn every waiter of another user that was in turn before it. */
  lemma GrantKeepsOthersInTurn(held: map<User, nat>, ws: Line, free: int, granted: TaskId, w: TaskId)
    requires ValidLine(ws) && granted in Ids(ws) && w in Ids(ws)
    requires ws[PositionOf(ws, w)].username != ws[PositionOf(ws, granted)].username
    requires granted in InTurn(ws, free, held) && w in InTurn(ws, free, held)
    ensures var more := OneMore(held, ws[PositionOf(ws, granted)].username);
      w in Ids(Leave(ws, granted)) && w in InTurn(Leave(ws, granted), free - 1, more)
  {
    hide Ahead, Keep, InTurn, PositionOf, Precedes, Ids, Leave, OneMore, ValidLine;
    var more := OneMore(held, ws[PositionOf(ws, granted)].username);
    var left := Leave(ws, granted);
    LeaveIds(ws, granted);
    InTurnExact(ws, free, held, granted);
    InTurnExact(ws, free, held, w);
    InTurnExact(left, free - 1, more, w);
    AheadAfterGrant(held, ws, granted, w);
    AheadTotal(held, ws, granted, w);
    Sets.SubsetSize(AheadOf(more, left, w), AheadOf(held, ws, w) - {granted});
    if Ahead(held, ws, granted, w) {
      assert granted in AheadOf(held, ws, w);
    } else {
      AheadOfIsNested(held, ws, w, granted);
    }
  }

  /** Waiter i asked before waiter j: the time of the first request, then arrival. */
  ghost predicate Earlier(ws: Line, i: int, j: int)
    requires 0 <= i < |ws| && 0 <= j < |ws|
  {
    ws[i].since < ws[j].since || (ws[i].since == ws[j].since && i < j)
  }

  /**
   * Whom a grant to user u moves ahead of u's waiter w: waiters of other users that asked later and whose owner holds
   * as many slots as u did, and waiters that asked earlier and whose owner holds one more.
   */
  ghost function Passing(held: map<User, nat>, ws: Line, u: User, w: TaskId): set<TaskId> {
    set x | x in Ids(ws) && Passes(held, ws, u, x, w)
  }

  ghost predicate Passes(held: map<User, nat>, ws: Line, u: User, x: TaskId, w: TaskId)
    requires x in Ids(ws)
  {
    w in Ids(ws) &&
    var i, j := PositionOf(ws, x), PositionOf(ws, w);
    && ws[i].username != u
    && (if Earlier(ws, i, j) then Held(held, ws[i].username) == Held(held, u) + 1
        else Held(held, ws[i].username) == Held(held, u))
  }

  lemma AheadOrPasses(held: map<User, nat>, ws: Line, u: User, x: TaskId, w: TaskId)
    requires ValidLine(ws) && x in Ids(ws) && w in Ids(ws) && ws[PositionOf(ws, w)].username == u
    ensures Ahead(OneMore(held, u), ws, x, w) <==> Ahead(held, ws, x, w) || Passes(held, ws, u, x, w)
    ensures !(Ahead(held, ws, x, w) && Passes(held, ws, u, x, w))
  {
    var i, j := PositionOf(ws, x), PositionOf(ws, w);
    AheadByPosition(held, ws, i, j);
    AheadByPosition(OneMore(held, u), ws, i, j);
    hide Ahead, PositionOf, ValidLine, Ids;
  }

  lemma OwnDoesNotPass(held: map<User, nat>, ws: Line, u: User, x: TaskId, w: TaskId)
    requires x in Ids(ws) && ws[PositionOf(ws, x)].username == u
    ensures !Passes(held, ws, u, x, w)
  {}

  lemma AheadAfterOwnGrant(held: map<User, nat>, ws: Line, granted: TaskId, w: TaskId)
    requires ValidLine(ws) && granted in Ids(ws) && w in Ids(ws) && w != granted
    requires ws[PositionOf(ws, w)].username == ws[PositionOf(ws, granted)].username
    ensures var u := ws[PositionOf(ws, granted)].username;
      && AheadOf(OneMore(held, u), Leave(ws, granted), w) == (AheadOf(held, ws, w) - {granted}) + Passing(held, ws, u, w)
      && AheadOf(held, ws, w) !! Passing(held, ws, u, w)
  {
    hide Ahead, Keep, InTurn, PositionOf, Precedes, Passes, ValidLine, OneMore;
    var u := ws[PositionOf(ws, granted)].username;
    var more, left := OneMore(held, u), Leave(ws, granted);
    LeaveIds(ws, granted);
    KeepKeepsOrder(ws, (v: Waiter) => v.id != granted);
    OwnDoesNotPass(held, ws, u, granted, w);
    hide Leave, Ids;
    forall x | x in Ids(ws)
      ensures Ahead(more, ws, x, w) <==> Ahead(held, ws, x, w) || Passes(held, ws, u, x, w)
      ensures !(Ahead(held, ws, x, w) && Passes(held, ws, u, x, w))
    {
      AheadOrPasses(held, ws, u, x, w);
    }
    assert w in Ids(left);
    forall x ensures x in AheadOf(more, left, w) <==> x in (AheadOf(held, ws, w) - {granted}) + Passing(held, ws, u, w) {
      if x in Ids(left) {
        assert Ahead(more, left, x, w) <==> Ahead(more, ws, x, w);
      }
    }
  }

  /**
   * For a waiter of the same user the count is exact: it is in turn after the grant if and only if those that were
   * ahead of it, but for the task granted, and those that pass it are fewer than the slots then free.
   */
  lemma GrantToSameUserExact(held: map<User, nat>, ws: Line, free: int, granted: TaskId, w: TaskId)
    requires ValidLine(ws) && granted in Ids(ws) && w in Ids(ws) && w != granted
    requires ws[PositionOf(ws, w)].username == ws[PositionOf(ws, granted)].username
    ensures var u := ws[PositionOf(ws, granted)].username;
      w in InTurn(Leave(ws, granted), free - 1, OneMore(held, u)) <==>
      |AheadOf(held, ws, w) - {granted}| + |Passing(held, ws, u, w)| < free - 1
  {
    hide Ahead, AheadOf, Keep, InTurn, PositionOf, Precedes, Passing, ValidLine, OneMore, Leave, Ids;
    var u := ws[PositionOf(ws, granted)].username;
    var more, left := OneMore(held, u), Leave(ws, granted);
    LeaveIds(ws, granted);
    InTurnExact(left, free - 1, more, w);
    AheadAfterOwnGrant(held, ws, granted, w);
    assert (AheadOf(held, ws, w) - {granted}) !! Passing(held, ws, u, w);
  }

  const G := Waiter("g", "u", 0, 2)
  const W := Waiter("w", "u", 1, 2)
  const X := Waiter("x", "v", 2, 2)

  /**
   * And it can fall out of turn: g and w of one user asked before x of another, two slots are free and none is held.
   * Then g and w are in turn, but once g has its slot the one left is for x.
   */
  lemma GrantCanPassSameUser()
    ensures ValidLine([G, W, X]) && "g" in Ids([G, W, X]) && "w" in Ids([G, W, X])
    ensures "g" in InTurn([G, W, X], 2, map[]) && "w" in InTurn([G, W, X], 2, map[])
    ensures "w" !in InTurn(Leave([G, W, X], "g"), 1, OneMore(map[], "u"))
  {
    var ws := [G, W, X];
    ThreeWaiters(ws);
    WitnessAhead(ws);
    WitnessPasses(ws);
    hide InTurn, Leave, Keep, PositionOf, AheadOf, Ids, Passing, ValidLine;
    InTurnExact(ws, 2, map[], "g");
    InTurnExact(ws, 2, map[], "w");
    GrantToSameUserExact(map[], ws, 2, "g", "w");
    Sets.SubsetSize({"x"}, Passing(map[], ws, "u", "w"));
  }

  lemma ThreeWaiters(ws: Line)
    requires ws == [G, W, X]
    ensures ValidLine(ws) && Ids(ws) == {"g", "w", "x"}
    ensures PositionOf(ws, "g") == 0 && PositionOf(ws, "w") == 1 && PositionOf(ws, "x") == 2
  {
    assert ws[0] in ws && ws[1] in ws && ws[2] in ws;
  }

  lemma WitnessAhead(ws: Line)
    requires ws == [G, W, X]
    ensures |AheadOf(map[], ws, "g")| <= 1 && |AheadOf(map[], ws, "w")| <= 1
  {
    ThreeWaiters(ws);
    AheadByPosition(map[], ws, 1, 0);
    AheadByPosition(map[], ws, 2, 0);
    AheadByPosition(map[], ws, 1, 1);
    AheadByPosition(map[], ws, 2, 1);
    hide Ahead, PositionOf, Ids;
    Sets.SubsetSize(AheadOf(map[], ws, "g"), {"g"});
    Sets.SubsetSize(AheadOf(map[], ws, "w"), {"g"});
  }

  lemma WitnessPasses(ws: Line)
    requires ws == [G, W, X]
    ensures "x" in Passing(map[], ws, "u", "w")
  {
    ThreeWaiters(ws);
    hide PositionOf, Ids;
  }

  class LocalProcessingSlots {
    var waiters: Line

    constructor ()
      ensures waiters == []
    {
      waiters := [];
    }

    method Request(id: TaskId, username: User, free: int, held: map<User, nat>, now: int) returns (inTurn: bool)
      modifies this
      ensures (waiters, inTurn) == Requested(old(waiters), id, username, free, held, now)
    {
      waiters := Enter(waiters, id, username, now);
      waiters := DropAbandoned(waiters, now);
      inTurn := id in InTurn(waiters, free, held);
      if inTurn {
        waiters := Leave(waiters, id);
      }
    }

    method Remove(id: TaskId)
      modifies this
      ensures waiters == Leave(old(waiters), id)
    {
      waiters := Leave(waiters, id);
    }
  }
}
