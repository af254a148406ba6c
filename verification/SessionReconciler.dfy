/** The reconciler that compares the session-use table with the worker, while both keep changing. */
module SessionReconciler {
  import opened Options
  import opened SessionUse

  /** The worker: every session it ever opened, and those open now. Session ids are never used again. */
  datatype Worker = Worker(known: set<SessionId>, open: map<SessionId, Payload>) {
    ghost predicate Valid() {
      open.Keys <= known
    }
  }

  /** A row appears only after the worker opened the session, and is closed only after the worker closed it. */
  ghost predicate Truthful(w: Worker, rows: Rows) {
    && rows.Keys <= w.known
    && forall id :: id in w.open && id in rows ==> rows[id].to == None
  }

  /** A session no longer open stays so; what was opened stays known. */
  ghost predicate WorkerLater(a: Worker, b: Worker) {
    && a.known <= b.known
    && forall id :: id in a.known && id !in a.open ==> id !in b.open
  }

  /** Opening a session the worker has reported. */
  lemma OpenKeepsTruthful(w: Worker, rows: Rows, id: SessionId, p: Payload)
    requires Truthful(w, rows) && id in w.known
    ensures Truthful(w, Execute(rows, Open(id, p)))
  {}

  lemma CloseKeepsTruthful(w: Worker, rows: Rows, s: Statement)
    requires Truthful(w, rows) && !s.Open? && s.id in w.known && s.id !in w.open
    ensures Truthful(w, Execute(rows, s))
  {}

  /** A stale close of an open session is the harm: once stored, nothing but a real close changes the end again. */
  lemma StaleCloseOfOpen(w: Worker, rows: Rows, id: SessionId, to: int)
    requires Truthful(w, rows) && id in w.open && id in rows
    ensures !Truthful(w, Execute(rows, CloseStale(id, to)))
    ensures forall p :: !Truthful(w, Execute(Execute(rows, CloseStale(id, to)), Open(id, p)))
  {
    assert rows[id].to == None;
    assert Execute(rows, CloseStale(id, to))[id].to == Some(to);
    forall p ensures !Truthful(w, Execute(Execute(rows, CloseStale(id, to)), Open(id, p))) {
      assert Execute(Execute(rows, CloseStale(id, to)), Open(id, p))[id].to == Some(to);
    }
  }

  /** What a reconcile does to the table when nothing else happens. */
  ghost function Reconciled(rows: Rows, open: map<SessionId, Payload>, now: int): Rows {
    map id | id in rows.Keys + open.Keys ::
      if id in open then Use(open[id], if id in rows then rows[id].to else None)
      else if rows[id].to == None then Use(rows[id].payload, Some(now))
      else rows[id]
  }

  /**
   * Run alone, a reconcile leaves exactly the worker's open sessions open, if and only if no row of one of them had
   * been closed before: a closed row is never opened again.
   */
  lemma ReconciledMatches(rows: Rows, open: map<SessionId, Payload>, now: int)
    ensures OpenIds(Reconciled(rows, open, now)) == open.Keys <==> forall id :: id in open && id in rows ==> rows[id].to == None
  {
    var after := Reconciled(rows, open, now);
    forall id | id in open ensures id in OpenIds(after) <==> (id in rows ==> rows[id].to == None) {
      assert id in after;
    }
    forall id | id in OpenIds(after) ensures id in open {}
  }

  class Reconciler {
    const table: OpenSessionUse
    var worker: Worker
    /** When set, nothing else happens while the reconciler runs. */
    const alone: bool

    constructor (table: OpenSessionUse, worker: Worker, alone: bool)
      requires worker.Valid() && Truthful(worker, table.rows)
      ensures this.table == table && this.worker == worker && this.alone == alone
    {
      this.table, this.worker, this.alone := table, worker, alone;
    }

    ghost predicate Valid()
      reads this, table
    {
      worker.Valid() && Truthful(worker, table.rows)
    }

    /** The worker opens and closes sessions, and events about them are delivered, late, twice and out of order. */
    method Interfere()
      requires Valid()
      modifies table, this`worker
      ensures Valid() && WorkerLater(old(worker), worker)
      ensures alone ==> worker == old(worker) && table.rows == old(table.rows)
    {
      var steps: nat := *;
      if alone {
        steps := 0;
      }
      while 0 < steps
        invariant Valid() && WorkerLater(old(worker), worker)
        invariant alone ==> worker == old(worker) && table.rows == old(table.rows)
        invariant alone ==> steps == 0
      {
        OneStep();
        steps := steps - 1;
      }
    }

    method OneStep()
      requires Valid() && !alone
      modifies table, this`worker
      ensures Valid() && WorkerLater(old(worker), worker)
    {
      var id: SessionId := *;
      var payload: Payload := *;
      var to: int := *;
      if id !in worker.known {
        worker := Worker(worker.known + {id}, worker.open[id := payload]);
      } else if id in worker.open {
        if * {
          worker := Worker(worker.known, worker.open - {id});
        } else {
          OpenKeepsTruthful(worker, table.rows, id, payload);
          table.OpenSession(id, payload);
        }
      } else if * {
        OpenKeepsTruthful(worker, table.rows, id, payload);
        table.OpenSession(id, payload);
      } else if * {
        CloseKeepsTruthful(worker, table.rows, CloseUpdate(id, to));
        var affected := table.UpdateEnd(id, to);
      } else {
        CloseKeepsTruthful(worker, table.rows, CloseUpsert(id, to));
        table.UpsertEnd(id, to);
      }
    }

    /**
     * Whatever interleaves, the reconciler never closes a session still open at the worker: every close it stores is
     * of a session the worker had opened before the table was read and no longer had when it was asked.
     */
    method Reconcile(now: int)
      requires Valid()
      modifies table, this`worker
      ensures Valid() && WorkerLater(old(worker), worker)
      ensures alone ==> worker == old(worker) && table.rows == Reconciled(old(table.rows), worker.open, now)
      ensures alone ==> OpenIds(table.rows) == worker.open.Keys
    {
      hide Execute, Reconciled;
      Interfere();
      var sessionIds := table.OpenSessionIds();
      Interfere();
      var open := worker.open;
      ghost var seen := worker;
      ReopenMissed(open);
      CloseMissed(sessionIds - open.Keys, now);
      if alone {
        AloneReconciled(old(table.rows), table.rows, worker.open, now);
        ReconciledMatches(old(table.rows), worker.open, now);
      }
    }

    /** Missed Activated: every session the worker reported is opened. */
    method ReopenMissed(open: map<SessionId, Payload>)
      requires Valid() && open.Keys <= worker.known
      modifies table, this`worker
      ensures Valid() && WorkerLater(old(worker), worker)
      ensures alone ==> worker == old(worker) && table.rows == Reopened(old(table.rows), open, open.Keys)
    {
      var left := open.Keys;
      NoneReopened(table.rows, open);
      while left != {}
        invariant left <= open.Keys
        invariant Valid() && WorkerLater(old(worker), worker)
        invariant alone ==> worker == old(worker) && table.rows == Reopened(old(table.rows), open, open.Keys - left)
        decreases left
      {
        hide Execute, Reopened, Truthful;
        var id :| id in left;
        Interfere();
        OpenKeepsTruthful(worker, table.rows, id, open[id]);
        if alone {
          OneReopened(old(table.rows), open, open.Keys - left, id);
          assert open.Keys - (left - {id}) == open.Keys - left + {id};
        }
        table.OpenSession(id, open[id]);
        left := left - {id};
      }
      assert open.Keys - left == open.Keys;
    }

    /** Missed Closed: rows that were open, of sessions the worker no longer reported, are closed if still open. */
    method CloseMissed(stale: set<SessionId>, now: int)
      requires Valid() && forall id :: id in stale ==> id in worker.known && id !in worker.open
      modifies table, this`worker
      ensures Valid() && WorkerLater(old(worker), worker)
      ensures alone ==> worker == old(worker) && table.rows == StaleClosed(old(table.rows), stale, now)
    {
      var left := stale;
      NoneClosed(table.rows, now);
      while left != {}
        invariant left <= stale
        invariant Valid() && WorkerLater(old(worker), worker)
        invariant alone ==> worker == old(worker) && table.rows == StaleClosed(old(table.rows), stale - left, now)
        decreases left
      {
        hide Execute, StaleClosed, Truthful;
        var id :| id in left;
        Interfere();
        CloseKeepsTruthful(worker, table.rows, CloseStale(id, now));
        if alone {
          OneClosed(old(table.rows), stale - left, id, now);
          assert stale - (left - {id}) == stale - left + {id};
        }
        table.CloseStaleSession(id, now);
        left := left - {id};
      }
      assert stale - left == stale;
    }
  }

  ghost function Reopened(rows: Rows, open: map<SessionId, Payload>, done: set<SessionId>): Rows {
    map id | id in rows.Keys + (done * open.Keys) ::
      if id in done && id in open then Use(open[id], if id in rows then rows[id].to else None) else rows[id]
  }

  lemma NoneReopened(rows: Rows, open: map<SessionId, Payload>)
    ensures Reopened(rows, open, {}) == rows && open.Keys - open.Keys == {}
  {}

  lemma OneReopened(rows: Rows, open: map<SessionId, Payload>, done: set<SessionId>, id: SessionId)
    requires id in open && id !in done
    ensures Execute(Reopened(rows, open, done), Open(id, open[id])) == Reopened(rows, open, done + {id})
  {}

  ghost function StaleClosed(rows: Rows, done: set<SessionId>, now: int): Rows {
    map id | id in rows :: if id in done && rows[id].to == None then Use(rows[id].payload, Some(now)) else rows[id]
  }

  lemma NoneClosed(rows: Rows, now: int)
    ensures StaleClosed(rows, {}, now) == rows
  {}

  lemma OneClosed(rows: Rows, done: set<SessionId>, id: SessionId, now: int)
    requires id !in done
    ensures Execute(StaleClosed(rows, done, now), CloseStale(id, now)) == StaleClosed(rows, done + {id}, now)
  {}

  lemma AloneReconciled(before: Rows, after: Rows, open: map<SessionId, Payload>, now: int)
    requires after == StaleClosed(Reopened(before, open, open.Keys), OpenIds(before) - open.Keys, now)
    ensures after == Reconciled(before, open, now)
  {}
}
