/** The session-use table: what each statement does, and what any order of deliveries converges to. */
module SessionUse {
  import opened Options

  type SessionId = string

  datatype Payload = Payload(username: string, instanceType: string, from: int)

  datatype Use = Use(payload: Payload, to: Option<int>)

  type Rows = map<SessionId, Use>

  /** closeSession is two statements: an update, then an upsert if the update found no row. */
  datatype Statement =
    | Open(id: SessionId, payload: Payload)
    | CloseUpdate(id: SessionId, to: int)
    | CloseUpsert(id: SessionId, to: int)
    | CloseStale(id: SessionId, to: int)

  /** What a close that arrives before any open stores in place of the payload. */
  function Placeholder(to: int): Payload {
    Payload("", "", to)
  }

  function Execute(rows: Rows, s: Statement): Rows {
    match s
    case Open(id, p) => rows[id := Use(p, if id in rows then rows[id].to else None)]
    case CloseUpdate(id, to) => if id in rows then rows[id := rows[id].(to := Some(to))] else rows
    case CloseUpsert(id, to) => if id in rows then rows[id := rows[id].(to := Some(to))] else rows[id := Use(Placeholder(to), Some(to))]
    case CloseStale(id, to) => if id in rows && rows[id].to == None then rows[id := rows[id].(to := Some(to))] else rows
  }

  function Run(run: seq<Statement>): Rows {
    if run == [] then map[] else Execute(Run(run[..|run| - 1]), run[|run| - 1])
  }

  // ---- Runs that deliveries give rise to

  predicate Closes(s: Statement, id: SessionId) {
    (s.CloseUpdate? || s.CloseUpsert?) && s.id == id
  }

  ghost predicate Opened(run: seq<Statement>, id: SessionId) {
    exists i :: 0 <= i < |run| && run[i].Open? && run[i].id == id
  }

  ghost predicate Closed(run: seq<Statement>, id: SessionId) {
    exists i :: 0 <= i < |run| && Closes(run[i], id)
  }

  /** Every delivery about a session carries the same payload, or the same close time. */
  ghost predicate Faithful(run: seq<Statement>, payload: SessionId -> Payload, closeTime: SessionId -> int) {
    forall i :: 0 <= i < |run| ==>
      && (run[i].Open? ==> run[i].payload == payload(run[i].id))
      && (run[i].CloseUpdate? || run[i].CloseUpsert? ==> run[i].to == closeTime(run[i].id))
  }

  /** Each update of a close that found no row was followed, sooner or later, by its upsert. */
  ghost predicate Complete(run: seq<Statement>) {
    forall i :: 0 <= i < |run| && run[i].CloseUpdate? && run[i].id !in Run(run[..i]) ==>
      exists j :: i < j < |run| && run[j].CloseUpsert? && run[j].id == run[i].id
  }

  /** The time of the first stale close that found the row of a session no real close has reached. */
  ghost function FirstStale(run: seq<Statement>, id: SessionId): Option<int> {
    if run == [] then None
    else
      var front, last := run[..|run| - 1], run[|run| - 1];
      var before := FirstStale(front, id);
      if before.Some? then before
      else if last.CloseStale? && last.id == id && Opened(front, id) then Some(last.to)
      else None
  }

  /** A real close has taken effect: its upsert was executed, or its update found the row. */
  ghost predicate Landed(run: seq<Statement>, id: SessionId) {
    exists i :: 0 <= i < |run| && Closes(run[i], id) && (run[i].CloseUpsert? || id in Run(run[..i]))
  }

  /** The row a run leaves for a session, told from what arrived. */
  ghost function Expected(run: seq<Statement>, payload: SessionId -> Payload, closeTime: SessionId -> int, id: SessionId): Option<Use> {
    if !Opened(run, id) && !Landed(run, id) then None
    else Some(Use(
      if Opened(run, id) then payload(id) else Placeholder(closeTime(id)),
      if Landed(run, id) then Some(closeTime(id)) else FirstStale(run, id)))
  }

  ghost function RowOf(rows: Rows, id: SessionId): Option<Use> {
    if id in rows then Some(rows[id]) else None
  }

  lemma LastOpened(run: seq<Statement>, id: SessionId)
    requires run != []
    ensures Opened(run, id) <==> Opened(run[..|run| - 1], id) || (run[|run| - 1].Open? && run[|run| - 1].id == id)
  {
    var front := run[..|run| - 1];
    if Opened(front, id) {
      var i :| 0 <= i < |front| && front[i].Open? && front[i].id == id;
      assert run[i] == front[i];
    }
    if Opened(run, id) {
      var i :| 0 <= i < |run| && run[i].Open? && run[i].id == id;
      assert i < |front| ==> front[i] == run[i];
    }
  }

  lemma LastLanded(run: seq<Statement>, id: SessionId)
    requires run != []
    ensures Landed(run, id) <==>
              || Landed(run[..|run| - 1], id)
              || (Closes(run[|run| - 1], id) && (run[|run| - 1].CloseUpsert? || id in Run(run[..|run| - 1])))
  {
    var front := run[..|run| - 1];
    if Landed(front, id) {
      var i :| 0 <= i < |front| && Closes(front[i], id) && (front[i].CloseUpsert? || id in Run(front[..i]));
      assert run[i] == front[i] && run[..i] == front[..i];
    }
    if Landed(run, id) {
      var i :| 0 <= i < |run| && Closes(run[i], id) && (run[i].CloseUpsert? || id in Run(run[..i]));
      if i < |front| {
        assert front[i] == run[i] && run[..i] == front[..i];
      }
    }
  }

  lemma {:induction false} StaleNeedsOpen(run: seq<Statement>, id: SessionId)
    ensures FirstStale(run, id).Some? ==> Opened(run, id)
  {
    if run != [] {
      StaleNeedsOpen(run[..|run| - 1], id);
      LastOpened(run, id);
    }
  }

  /** After any prefix of deliveries, each row is the one told from what has arrived. */
  lemma {:induction false} RunAsExpected(run: seq<Statement>, payload: SessionId -> Payload, closeTime: SessionId -> int, id: SessionId)
    requires Faithful(run, payload, closeTime)
    ensures RowOf(Run(run), id) == Expected(run, payload, closeTime, id)
  {
    if run != [] {
      var front, last := run[..|run| - 1], run[|run| - 1];
      RunAsExpected(front, payload, closeTime, id);
      LastOpened(run, id);
      LastLanded(run, id);
      StaleNeedsOpen(front, id);
      hide Opened, Landed, Run;
      assert Run(run) == Execute(Run(front), last) by {
        RunUnfold(run);
      }
      if last.id == id {
        assert last.Open? ==> last.payload == payload(id);
        assert last.CloseUpdate? || last.CloseUpsert? ==> last.to == closeTime(id);
      }
    }
  }

  lemma RunUnfold(run: seq<Statement>)
    requires run != []
    ensures Run(run) == Execute(Run(run[..|run| - 1]), run[|run| - 1])
  {}

  lemma CompleteLands(run: seq<Statement>, id: SessionId)
    requires Complete(run)
    ensures Landed(run, id) <==> Closed(run, id)
  {
    if Closed(run, id) {
      var i :| 0 <= i < |run| && Closes(run[i], id);
      if run[i].CloseUpdate? && id !in Run(run[..i]) {
        var j :| i < j < |run| && run[j].CloseUpsert? && run[j].id == run[i].id;
        assert Closes(run[j], id);
      }
    }
  }

  /**
   * Whatever the order and repetition of deliveries: a row exists for each session heard of; it ends with the open
   * payload if any open arrived; its end is the real close time if any real close arrived, otherwise the first stale
   * close that found the row, otherwise open.
   */
  lemma Convergence(run: seq<Statement>, payload: SessionId -> Payload, closeTime: SessionId -> int, id: SessionId)
    requires Faithful(run, payload, closeTime) && Complete(run)
    ensures id in Run(run) <==> Opened(run, id) || Closed(run, id)
    ensures id in Run(run) ==>
              Run(run)[id] == Use(
                if Opened(run, id) then payload(id) else Placeholder(closeTime(id)),
                if Closed(run, id) then Some(closeTime(id)) else FirstStale(run, id))
  {
    RunAsExpected(run, payload, closeTime, id);
    CompleteLands(run, id);
  }

  /** The same opens and real closes, in any order and repetition, and whatever stale closes in between. */
  ghost predicate SameDeliveries(a: seq<Statement>, b: seq<Statement>) {
    forall id :: (Opened(a, id) <==> Opened(b, id)) && (Closed(a, id) <==> Closed(b, id))
  }

  /**
   * Two such runs give the same table exactly when the sessions no real close reached were first found by the same
   * stale close, if any. Without stale closes they always do.
   */
  lemma Confluence(a: seq<Statement>, b: seq<Statement>, payload: SessionId -> Payload, closeTime: SessionId -> int)
    requires Faithful(a, payload, closeTime) && Faithful(b, payload, closeTime) && Complete(a) && Complete(b)
    requires SameDeliveries(a, b)
    ensures Run(a) == Run(b) <==> forall id :: Opened(a, id) && !Closed(a, id) ==> FirstStale(a, id) == FirstStale(b, id)
  {
    forall id ensures RowOf(Run(a), id) == RowOf(Run(b), id) <==>
                      (Opened(a, id) && !Closed(a, id) ==> FirstStale(a, id) == FirstStale(b, id))
    {
      Convergence(a, payload, closeTime, id);
      Convergence(b, payload, closeTime, id);
    }
    if forall id :: RowOf(Run(a), id) == RowOf(Run(b), id) {
      assert forall id :: id in Run(a) <==> id in Run(b) by {
        forall id ensures id in Run(a) <==> id in Run(b) {
          assert RowOf(Run(a), id) == RowOf(Run(b), id);
        }
      }
      assert forall id :: id in Run(a) ==> Run(a)[id] == Run(b)[id] by {
        forall id | id in Run(a) ensures Run(a)[id] == Run(b)[id] {
          assert RowOf(Run(a), id) == RowOf(Run(b), id);
        }
      }
    }
  }

  lemma {:induction false} NoStale(run: seq<Statement>, id: SessionId)
    requires forall i :: 0 <= i < |run| ==> !run[i].CloseStale?
    ensures FirstStale(run, id) == None
  {
    if run != [] {
      NoStale(run[..|run| - 1], id);
    }
  }

  lemma ConfluenceWithoutStale(a: seq<Statement>, b: seq<Statement>, payload: SessionId -> Payload, closeTime: SessionId -> int)
    requires Faithful(a, payload, closeTime) && Faithful(b, payload, closeTime) && Complete(a) && Complete(b)
    requires SameDeliveries(a, b)
    requires forall i :: 0 <= i < |a| ==> !a[i].CloseStale?
    requires forall i :: 0 <= i < |b| ==> !b[i].CloseStale?
    ensures Run(a) == Run(b)
  {
    forall id ensures FirstStale(a, id) == FirstStale(b, id) {
      NoStale(a, id);
      NoStale(b, id);
    }
    Confluence(a, b, payload, closeTime);
  }

  lemma OneStatement(s: Statement)
    ensures Run([s]) == Execute(map[], s)
  {
    assert [s][..0] == [];
  }

  /** A close that comes first leaves a row of nobody that ends when it begins. */
  lemma CloseWithoutOpen(id: SessionId, to: int)
    ensures Run([CloseUpdate(id, to), CloseUpsert(id, to)]) == map[id := Use(Payload("", "", to), Some(to))]
  {
    OneStatement(CloseUpdate(id, to));
    assert [CloseUpdate(id, to), CloseUpsert(id, to)][..1] == [CloseUpdate(id, to)];
  }

  /** And with them order can: the same open and the same stale close, swapped, leave a session closed or open. */
  lemma StaleOrderMatters(id: SessionId, p: Payload, to: int)
    ensures var a, b := [Open(id, p), CloseStale(id, to)], [CloseStale(id, to), Open(id, p)];
      && (forall payload: SessionId -> Payload, closeTime: SessionId -> int | payload(id) == p ::
            Faithful(a, payload, closeTime) && Faithful(b, payload, closeTime))
      && Complete(a) && Complete(b) && SameDeliveries(a, b)
      && Run(a) == map[id := Use(p, Some(to))] && Run(b) == map[id := Use(p, None)]
  {
    var a, b := [Open(id, p), CloseStale(id, to)], [CloseStale(id, to), Open(id, p)];
    assert a[..1] == [Open(id, p)] && b[..1] == [CloseStale(id, to)];
    OneStatement(Open(id, p));
    OneStatement(CloseStale(id, to));
    forall other ensures Opened(a, other) <==> Opened(b, other) {
      assert other == id ==> a[0].id == other && b[1].id == other;
    }
  }

  /** The table itself. */
  class OpenSessionUse {
    var rows: Rows

    constructor (rows: Rows)
      ensures this.rows == rows
    {
      this.rows := rows;
    }

    method OpenSession(id: SessionId, payload: Payload)
      modifies this
      ensures rows == Execute(old(rows), Open(id, payload))
    {
      if id in rows {
        rows := rows[id := rows[id].(payload := payload)];
      } else {
        rows := rows[id := Use(payload, None)];
      }
    }

    /** The first statement of closeSession; affected tells whether it found the row. */
    method UpdateEnd(id: SessionId, to: int) returns (affected: bool)
      modifies this
      ensures rows == Execute(old(rows), CloseUpdate(id, to)) && affected == (id in old(rows))
    {
      affected := id in rows;
      if affected {
        rows := rows[id := rows[id].(to := Some(to))];
      }
    }

    method UpsertEnd(id: SessionId, to: int)
      modifies this
      ensures rows == Execute(old(rows), CloseUpsert(id, to))
    {
      rows := if id in rows then rows[id := rows[id].(to := Some(to))] else rows[id := Use(Placeholder(to), Some(to))];
    }

    /** Run alone, a close is one upsert, whichever of its two statements stores the end. */
    method CloseSession(id: SessionId, to: int)
      modifies this
      ensures rows == Execute(old(rows), CloseUpsert(id, to))
      ensures id in old(rows) ==> rows == Execute(old(rows), CloseUpdate(id, to))
    {
      var affected := UpdateEnd(id, to);
      if !affected {
        UpsertEnd(id, to);
      }
    }

    method CloseStaleSession(id: SessionId, to: int)
      modifies this
      ensures rows == Execute(old(rows), CloseStale(id, to))
    {
      if id in rows && rows[id].to == None {
        rows := rows[id := rows[id].(to := Some(to))];
      }
    }

    method OpenSessionIds() returns (ids: set<SessionId>)
      ensures ids == OpenIds(rows)
      ensures forall id :: id in ids <==> id in rows && rows[id].to.None?
    {
      ids := OpenIds(rows);
    }
  }

  function OpenIds(rows: Rows): set<SessionId> {
    set id | id in rows && rows[id].to == None
  }

  /** Which event does which upsert: requested and activated carry the same payload; a close without a time counts from now. */
  class SessionEventHandlers {
    const table: OpenSessionUse

    constructor (table: OpenSessionUse)
      ensures this.table == table
    {
      this.table := table;
    }

    method OnWorkerSessionOpened(id: SessionId, payload: Payload)
      modifies table
      ensures table.rows == Execute(old(table.rows), Open(id, payload))
    {
      table.OpenSession(id, payload);
    }

    method OnWorkerSessionClosed(id: SessionId, closeTime: Option<int>, now: int)
      modifies table
      ensures table.rows == Execute(old(table.rows), CloseUpsert(id, if closeTime.Some? then closeTime.value else now))
    {
      table.CloseSession(id, if closeTime.Some? then closeTime.value else now);
    }
  }
}
