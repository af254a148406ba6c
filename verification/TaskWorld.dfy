/** The stored state the supervisor works on, its limits, and what interleaving commands can do to it. */
module TaskWorld {
  import opened Options
  import opened TaskTable
  import Sets

  /** Container per task id: true while it runs, false once it has exited. */
  type Containers = map<TaskId, bool>

  /** The result file of a workspace: nothing that can be parsed, or a value with this state, if it has one that is text. */
  datatype ResultFile = Unparsed | Parsed(state: Option<string>)

  /** The workspaces. */
  type Results = map<TaskId, ResultFile>

  /** What survives a restart of the task manager. */
  datatype Stored = Stored(rows: Table, containers: Containers, results: Results, watched: set<TaskId>, stopping: set<TaskId>)

  /** Stored state, and how many more tasks users will submit before the current queue item is done. */
  datatype World = World(rows: Table, containers: Containers, submissions: nat)

  datatype Limits = Limits(concurrent: int, perUser: int, slots: int)

  ghost predicate Within(l: Limits, t: Table) {
    && |Running(t)| <= l.concurrent
    && (forall u :: |RunningOf(t, u)| <= l.perUser)
    && |Holders(t)| <= l.slots
  }

  /** No more tasks than allowed are active or canceling, in all or of one user, and no more of these have a slot. */
  lemma WithinTold(l: Limits, t: Table, ids: set<TaskId>, u: User)
    requires Within(l, t) && forall id <- ids :: id in t && (t[id].state == ACTIVE || t[id].state == CANCELING)
    ensures |ids| <= l.concurrent
    ensures (forall id <- ids :: t[id].username == u) ==> |ids| <= l.perUser
    ensures (forall id <- ids :: t[id].slot.Some?) ==> |ids| <= l.slots
  {
    assert ids <= Running(t);
    Sets.SubsetSize(ids, Running(t));
    if forall id <- ids :: t[id].username == u {
      assert ids <= RunningOf(t, u);
      Sets.SubsetSize(ids, RunningOf(t, u));
    }
    if forall id <- ids :: t[id].slot.Some? {
      assert ids <= Holders(t);
      Sets.SubsetSize(ids, Holders(t));
    }
  }

  /** What every statement keeps of a table: keys match states, and only a launched task was ever granted a slot. */
  ghost predicate Consistent(t: Table) {
    && KeysMatchStates(t)
    && forall id :: id in t && t[id].state == PENDING ==> t[id].slot == None
  }

  lemma StepKeepsConsistent(t: Table, op: Op)
    requires Consistent(t)
    ensures Consistent(After(t, op))
  {
    StepKeepsKeys(t, op);
  }

  lemma {:induction false} RunKeepsConsistent(ops: seq<Op>)
    ensures Consistent(Run(map[], ops))
  {
    if ops != [] {
      RunKeepsConsistent(ops[..|ops| - 1]);
      StepKeepsConsistent(Run(map[], ops[..|ops| - 1]), ops[|ops| - 1]);
    }
  }

  ghost predicate Ended(t: Table, id: TaskId) {
    id in t && t[id].state.Finished()
  }

  ghost predicate Begun(t: Table, id: TaskId) {
    id in t && t[id].state != PENDING
  }

  ghost function Started(t: Table): set<TaskId> {
    set id | id in t && t[id].state != PENDING
  }

  /** Rows only move forward, and every new row is one of the submissions still expected. */
  ghost predicate Evolves(a: World, b: World) {
    Later(a.rows, b.rows) && |b.rows| + b.submissions == |a.rows| + a.submissions
  }

  /** What user commands and containers can do between two statements of a queue item. */
  ghost predicate Interleaves(a: World, b: World) {
    && Evolves(a, b)
    && Running(b.rows) == Running(a.rows)
    && (forall id :: id in a.rows ==> b.rows[id].slot == a.rows[id].slot)
    && (forall id :: id in b.rows && id !in a.rows ==> b.rows[id].slot == None)
    && b.containers.Keys == a.containers.Keys
    && (forall id :: id in b.containers && b.containers[id] ==> a.containers[id])
  }

  lemma EvolvesTransitive(a: World, b: World, c: World)
    requires Evolves(a, b) && Evolves(b, c)
    ensures Evolves(a, c)
  {
    LaterTransitive(a.rows, b.rows, c.rows);
  }

  lemma InterleavesTransitive(a: World, b: World, c: World)
    requires Interleaves(a, b) && Interleaves(b, c)
    ensures Interleaves(a, c)
  {
    EvolvesTransitive(a, b, c);
  }

  /** Statements issued outside the queue: submit, cancel, remove, progress. */
  predicate Outside(op: Op) {
    op.Insert? || op.CancelPending? || op.RequestCancel? || op.RecordProgress? || op.Remove? || op.RemoveFinished?
  }

  lemma OutsideKeepsRunning(t: Table, op: Op)
    requires Outside(op)
    ensures Running(After(t, op)) == Running(t)
    ensures forall id :: id in t ==> id in After(t, op) && After(t, op)[id].slot == t[id].slot
    ensures forall id :: id in After(t, op) && id !in t ==> After(t, op)[id].slot == None
  {}

  lemma OutsideKeys(t: Table, op: Op)
    requires Outside(op)
    ensures |After(t, op)| == |t| + if op.Insert? && Apply(t, op).1 then 1 else 0
  {
    if op.Insert? && Apply(t, op).1 {
      InsertKeys(t, op);
    } else {
      SameKeys(t, op);
    }
  }

  lemma InsertKeys(t: Table, op: Op)
    requires op.Insert? && Apply(t, op).1
    ensures |After(t, op)| == |t| + 1
  {
    assert op.id !in t && After(t, op).Keys == t.Keys + {op.id};
    assert |After(t, op)| == |After(t, op).Keys| && |t| == |t.Keys|;
  }

  lemma SameKeys(t: Table, op: Op)
    requires Outside(op) && !(op.Insert? && Apply(t, op).1)
    ensures |After(t, op)| == |t|
  {
    assert After(t, op).Keys == t.Keys;
    assert |After(t, op)| == |After(t, op).Keys| && |t| == |t.Keys|;
  }

  lemma OutsideInterleaves(w: World, op: Op, w': World)
    requires Outside(op) && w'.rows == After(w.rows, op) && w'.containers == w.containers
    requires w.submissions == w'.submissions + if op.Insert? && Apply(w.rows, op).1 then 1 else 0
    ensures Interleaves(w, w')
  {
    StepIsLater(w.rows, op);
    OutsideKeepsRunning(w.rows, op);
    OutsideKeys(w.rows, op);
    hide Apply, Later, Running;
  }

  lemma InterleavesHolders(a: World, b: World)
    requires Interleaves(a, b)
    ensures Holders(b.rows) == Holders(a.rows)
  {
    forall id ensures id in Holders(b.rows) <==> id in Holders(a.rows) {
      assert id in Running(b.rows) <==> id in Running(a.rows);
    }
  }

  lemma InterleavesRunningOf(a: World, b: World, u: User)
    requires Interleaves(a, b)
    ensures RunningOf(b.rows, u) == RunningOf(a.rows, u)
  {
    forall id ensures id in RunningOf(b.rows, u) <==> id in RunningOf(a.rows, u) {
      assert id in Running(b.rows) <==> id in Running(a.rows);
    }
  }

  /** Fewer running tasks and fewer holders stay within the limits. */
  lemma FewerWithin(l: Limits, t: Table, t': Table)
    requires Within(l, t) && Later(t, t')
    requires Running(t') <= Running(t) && Holders(t') <= Holders(t)
    ensures Within(l, t')
  {
    Sets.SubsetSize(Running(t'), Running(t));
    Sets.SubsetSize(Holders(t'), Holders(t));
    forall u ensures |RunningOf(t', u)| <= l.perUser {
      forall id | id in RunningOf(t', u) ensures id in RunningOf(t, u) {
        assert id in Running(t') && id in Running(t);
      }
      Sets.SubsetSize(RunningOf(t', u), RunningOf(t, u));
    }
  }

  /** A statement of the queue is an evolution too: it inserts nothing. */
  lemma QueueStepEvolves(w: World, op: Op, w': World)
    requires !op.Insert? && w'.rows == After(w.rows, op) && w'.submissions == w.submissions
    ensures Evolves(w, w')
  {
    StepIsLater(w.rows, op);
    assert w'.rows.Keys == w.rows.Keys;
    assert |w'.rows| == |w'.rows.Keys| && |w.rows| == |w.rows.Keys|;
  }

  // ---- What each statement of the queue does to the sets the limits count

  /** Stored tasks as the supervisor keeps them: within the limits, if they were when it took over. */
  ghost predicate Sound(l: Limits, capped: bool, t: Table) {
    Consistent(t) && (capped ==> Within(l, t))
  }

  lemma InterleavingKeepsSound(l: Limits, capped: bool, a: World, b: World)
    requires Sound(l, capped, a.rows) && Interleaves(a, b) && Consistent(b.rows)
    ensures Sound(l, capped, b.rows)
  {
    InterleavesHolders(a, b);
    if capped {
      FewerWithin(l, a.rows, b.rows);
    }
  }

  lemma EndKeepsSound(l: Limits, capped: bool, t: Table, op: Op)
    requires Sound(l, capped, t) && (op.Finish? || op.FailStalled? || op.ForceCancel? || op.ReleaseSlot? || op.RenewSlot?)
    ensures Sound(l, capped, After(t, op))
  {
    StepKeepsConsistent(t, op);
    StepIsLater(t, op);
    if op.ReleaseSlot? || op.RenewSlot? {
      SlotSets(t, op);
    } else {
      EndSets(t, op);
    }
    if capped {
      FewerWithin(l, t, After(t, op));
    }
  }

  lemma ActivateSets(t: Table, id: TaskId, hash: int, now: int)
    requires Consistent(t) && Apply(t, Op.Activate(id, hash, now)).1
    ensures var t' := After(t, Op.Activate(id, hash, now));
      && id !in Running(t) && Running(t') == Running(t) + {id}
      && Holders(t') == Holders(t)
      && t'.Keys == t.Keys
      && (forall u :: RunningOf(t', u) == RunningOf(t, u) + (if u == t[id].username then {id} else {}))
  {}

  lemma EndSets(t: Table, op: Op)
    requires op.Finish? || op.FailStalled? || op.ForceCancel?
    ensures var (t', affected) := Apply(t, op);
      && t'.Keys == t.Keys
      && Running(t') == Running(t) - (if affected then {op.id} else {})
      && Holders(t') <= Holders(t)
      && Holders(t) - {op.id} <= Holders(t')
      && (affected ==> Ended(t', op.id))
      && (forall x :: x in t ==> t'[x].slot == t[x].slot)
      && (op.Finish? ==> (affected <==> op.id in Running(t)))
  {}

  lemma SlotSets(t: Table, op: Op)
    requires op.GrantSlot? || op.RenewSlot? || op.ReleaseSlot?
    ensures var (t', affected) := Apply(t, op);
      && t'.Keys == t.Keys
      && Running(t') == Running(t)
      && (forall u :: RunningOf(t', u) == RunningOf(t, u))
      && (op.GrantSlot? ==> Holders(t') == Holders(t) + (if affected then {op.id} else {}))
      && (op.RenewSlot? ==> Holders(t') == Holders(t))
      && (op.ReleaseSlot? ==> Holders(t') == Holders(t) - (if affected then {op.id} else {}))
      && (op.ReleaseSlot? && op.id in t && t[op.id].slot == Some(op.grant) ==> affected)
  {}

  /** One more launch by a user below the limit, while fewer tasks run than allowed. */
  lemma LaunchWithin(l: Limits, t: Table, id: TaskId, hash: int, now: int)
    requires Within(l, t) && Consistent(t) && Apply(t, Op.Activate(id, hash, now)).1
    requires |Running(t)| < l.concurrent && |RunningOf(t, t[id].username)| < l.perUser
    ensures Within(l, After(t, Op.Activate(id, hash, now)))
  {
    ActivateSets(t, id, hash, now);
    var t' := After(t, Op.Activate(id, hash, now));
    forall u ensures |RunningOf(t', u)| <= l.perUser {
      assert RunningOf(t', u) == RunningOf(t, u) + (if u == t[id].username then {id} else {});
    }
  }

  lemma GrantWithin(l: Limits, t: Table, id: TaskId, now: int)
    requires Within(l, t) && |Holders(t)| < l.slots
    ensures Within(l, After(t, Op.GrantSlot(id, now)))
  {
    SlotSets(t, Op.GrantSlot(id, now));
    var t' := After(t, Op.GrantSlot(id, now));
    forall u ensures |RunningOf(t', u)| <= l.perUser {
      assert RunningOf(t', u) == RunningOf(t, u);
    }
  }

  // ---- The measure of dispatch

  /** Tasks that could still be picked: those pending, and those still to be submitted. */
  ghost function Unstarted(w: World): nat {
    StartedSize(w.rows);
    |w.rows| + w.submissions - |Started(w.rows)|
  }

  lemma StartedSize(t: Table)
    ensures |Started(t)| <= |t|
  {
    Sets.SubsetSize(Started(t), t.Keys);
    assert |t| == |t.Keys|;
  }

  /** Evolution never adds to them, and starting one takes it away for good. */
  lemma UnstartedDrops(a: World, b: World, id: TaskId)
    requires Evolves(a, b)
    ensures Unstarted(b) <= Unstarted(a)
    ensures id in a.rows && a.rows[id].state == PENDING && b.rows[id].state != PENDING ==> Unstarted(b) < Unstarted(a)
  {
    forall x | x in Started(a.rows) ensures x in Started(b.rows) {}
    Sets.SubsetSize(Started(a.rows), Started(b.rows));
    if id in a.rows && a.rows[id].state == PENDING && b.rows[id].state != PENDING {
      Sets.SubsetSize(Started(a.rows) + {id}, Started(b.rows));
    }
  }
}
