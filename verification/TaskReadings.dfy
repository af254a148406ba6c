/** What the statements write into a row, column by column, and what its times tell about a run. */
module TaskReadings {
  import opened Options
  import opened TaskTable

  // ---- One statement

  /** A new task waits from the reading of its insert, under its submitter, with nothing else told about it. */
  lemma InsertTold(t: Table, id: TaskId, user: User, now: int)
    ensures var (u, stored) := Apply(t, Insert(id, user, now));
      && (stored <==> id !in t) && id in u && u.Keys == t.Keys + {id}
      && (forall other <- t :: u[other] == t[other])
      && (stored ==>
            && u[id].state == PENDING && u[id].username == user && u[id].created == now && u[id].updated == now
            && u[id].progress == None && u[id].slot == None && u[id].keyHash == None && !u[id].removed)
  {}

  /** The statements that name one task leave all others alone, and store none. */
  lemma OthersKept(t: Table, op: Op, other: TaskId)
    requires !op.Insert? && !op.RemoveFinished? && !op.ResetProgress? && !op.ResetCanceling? && op.id != other
    ensures After(t, op).Keys == t.Keys && (other in t ==> After(t, op)[other] == t[other])
  {}

  /** A task becomes active from pending, canceling from active, and ends from the states that its statement names. */
  lemma StateTold(t: Table, op: Op, id: TaskId)
    requires id in t
    ensures id in After(t, op)
    ensures var was, next := t[id].state, After(t, op)[id].state;
      && (next == PENDING ==> was == PENDING)
      && (next == ACTIVE && was != ACTIVE <==> op.Activate? && op.id == id && was == PENDING)
      && (next == CANCELING && was != CANCELING <==> op.RequestCancel? && op.id == id && was == ACTIVE)
      && (next == COMPLETED && was != COMPLETED <==>
            op.Finish? && op.id == id && op.outcome == COMPLETED && (was == ACTIVE || was == CANCELING))
      && (next == CANCELED && was != CANCELED <==>
            || (op.CancelPending? && op.id == id && was == PENDING)
            || (op.Finish? && op.id == id && op.outcome == CANCELED && (was == ACTIVE || was == CANCELING))
            || (op.ForceCancel? && op.id == id && was == CANCELING))
      && (next == FAILED && was != FAILED <==>
            || (op.Finish? && op.id == id && op.outcome == FAILED && (was == ACTIVE || was == CANCELING))
            || (op.FailStalled? && op.id == id && was == ACTIVE))
  {}

  /** Statements that write the time of the last update: every change of state, a report, and the reset of canceling tasks. */
  ghost predicate WritesUpdated(t: Table, op: Op, id: TaskId) {
    id in t && id in After(t, op) &&
    (|| After(t, op)[id].state != t[id].state
     || (op.RecordProgress? && op.id == id && t[id].state == ACTIVE)
     || (op.ResetCanceling? && t[id].state == CANCELING))
  }

  /** Statements that write the time of the last progress: the activation, a report, and the reset of active tasks. */
  ghost predicate WritesProgress(t: Table, op: Op, id: TaskId) {
    id in t &&
    (|| (op.Activate? && op.id == id && t[id].state == PENDING)
     || (op.RecordProgress? && op.id == id && t[id].state == ACTIVE)
     || (op.ResetProgress? && t[id].state == ACTIVE))
  }

  /** What is written is the reading of the statement; who owns the task and when it was stored never changes. */
  lemma TimesTold(t: Table, op: Op, id: TaskId)
    requires id in t
    ensures id in After(t, op)
    ensures After(t, op)[id].created == t[id].created && After(t, op)[id].username == t[id].username
    ensures if WritesUpdated(t, op, id) then HasReading(op) && After(t, op)[id].updated == Reading(op)
            else After(t, op)[id].updated == t[id].updated
    ensures if WritesProgress(t, op, id) then HasReading(op) && After(t, op)[id].progress == Some(Reading(op))
            else After(t, op)[id].progress == t[id].progress
  {}

  predicate HasReading(op: Op) {
    !op.ReleaseSlot? && !op.Remove? && !op.RemoveFinished?
  }

  function Reading(op: Op): int
    requires HasReading(op)
  {
    op.now
  }

  /** A slot is granted to an active task that has none, renewed for a running one that has, and released by its grant. */
  lemma SlotTold(t: Table, op: Op, id: TaskId)
    requires id in t
    ensures id in After(t, op)
    ensures After(t, op)[id].slot ==
              match op
              case GrantSlot(x, now) => if x == id && t[id].state == ACTIVE && t[id].slot.None? then Some(now) else t[id].slot
              case RenewSlot(x, now) =>
                if x == id && (t[id].state == ACTIVE || t[id].state == CANCELING) && t[id].slot.Some? then Some(now) else t[id].slot
              case ReleaseSlot(x, grant) => if x == id && t[id].slot == Some(grant) then None else t[id].slot
              case _ => t[id].slot
  {}

  /** The key comes with the activation and goes with the end; a task is hidden by its own removal, or its owner's once it ended. */
  lemma KeyAndRemovalTold(t: Table, op: Op, id: TaskId)
    requires id in t
    ensures id in After(t, op)
    ensures var was, row := t[id].state, After(t, op)[id];
      && row.keyHash == (if op.Activate? && op.id == id && was == PENDING then Some(op.hash)
                         else if row.state != was && row.state != CANCELING then None else t[id].keyHash)
      && (row.removed <==>
            || t[id].removed
            || (op.Remove? && op.id == id)
            || (op.RemoveFinished? && id in op.ids && t[id].username == op.user
                && (was == COMPLETED || was == CANCELED || was == FAILED)))
  {}

  /** A statement about one task says that it affected a row exactly if it changed the column it is about. */
  lemma AffectedTold(t: Table, op: Op)
    requires !op.Insert? && !op.RemoveFinished? && !op.ResetProgress? && !op.ResetCanceling?
    ensures op.id !in t ==> !Apply(t, op).1
    ensures op.id in t ==>
              var row := After(t, op)[op.id];
              Apply(t, op).1 <==>
                match op
                case RecordProgress(_, _) => t[op.id].state == ACTIVE
                case GrantSlot(_, _) => t[op.id].state == ACTIVE && t[op.id].slot.None?
                case RenewSlot(_, _) => (t[op.id].state == ACTIVE || t[op.id].state == CANCELING) && t[op.id].slot.Some?
                case ReleaseSlot(_, grant) => t[op.id].slot == Some(grant)
                case Remove(_) => !t[op.id].removed
                case _ => row.state != t[op.id].state
  {}

  // ---- Runs

  /** From its insert on a task keeps the reading and the user it was stored with. */
  lemma StoredWith(t: Table, ops: seq<Op>, i: nat, j: nat)
    requires i < j <= |ops| && ops[i].Insert? && Effective(t, ops, i)
    ensures ops[i].id in Before(t, ops, j)
    ensures Before(t, ops, j)[ops[i].id].created == ops[i].now && Before(t, ops, j)[ops[i].id].username == ops[i].user
  {
    BeforeNext(t, ops, i);
    InsertTold(Before(t, ops, i), ops[i].id, ops[i].user, ops[i].now);
    RunIsLater(t, ops, i + 1, j);
    hide Apply, Run, Before;
  }

  /** The task is running, and neither silent nor being canceled since before the bound. */
  ghost predicate RecentIn(t: Table, id: TaskId, bound: int) {
    id in t &&
    (t[id].state == ACTIVE ==> t[id].progress.Some? && bound <= t[id].progress.value) &&
    (t[id].state == CANCELING ==> bound <= t[id].updated) &&
    t[id].state != PENDING
  }

  /** Statements after which a task is recent for a bound that their reading has reached. */
  ghost predicate Refreshes(t: Table, op: Op, id: TaskId) {
    id in t &&
    (|| (op.Activate? && op.id == id && t[id].state == PENDING)
     || (op.RecordProgress? && op.id == id && t[id].state == ACTIVE)
     || (op.RequestCancel? && op.id == id && t[id].state == ACTIVE)
     || (op.ResetProgress? && t[id].state == ACTIVE)
     || (op.ResetCanceling? && t[id].state == CANCELING))
  }

  lemma RefreshedIsRecent(t: Table, op: Op, id: TaskId, bound: int)
    requires Refreshes(t, op, id) && bound <= Reading(op)
    ensures RecentIn(After(t, op), id, bound)
  {
    StateTold(t, op, id);
    TimesTold(t, op, id);
    hide Apply;
  }

  lemma RecentStays(t: Table, op: Op, id: TaskId, bound: int)
    requires RecentIn(t, id, bound) && (HasReading(op) ==> bound <= Reading(op))
    ensures RecentIn(After(t, op), id, bound)
  {
    StateTold(t, op, id);
    TimesTold(t, op, id);
    hide Apply;
  }

  /**
   * A task that was activated, reported progress, was asked to cancel, or had its clock reset at or after the bound is
   * found by neither of the timeout queries with that bound, whatever follows, while no later reading is before it.
   */
  lemma {:induction false} RecentIsNotFound(t: Table, ops: seq<Op>, i: nat, j: nat, id: TaskId, bound: int)
    requires i < j <= |ops| && Refreshes(Before(t, ops, i), ops[i], id)
    requires forall k :: i <= k < j && HasReading(ops[k]) ==> bound <= Reading(ops[k])
    ensures RecentIn(Before(t, ops, j), id, bound)
    ensures var row := Before(t, ops, j)[id];
      && !(row.state == ACTIVE && row.progress.Some? && row.progress.value < bound)
      && !(row.state == CANCELING && row.updated < bound)
    decreases j
  {
    hide Apply, Run, Before, After;
    BeforeNext(t, ops, j - 1);
    if i == j - 1 {
      RefreshedIsRecent(Before(t, ops, i), ops[i], id, bound);
    } else {
      RecentIsNotFound(t, ops, i, j - 1, id, bound);
      RecentStays(Before(t, ops, j - 1), ops[j - 1], id, bound);
    }
  }

  /** Exactly: it is the reading of the last such statement that the bound is compared with. */
  lemma {:induction false} FoundExactly(t: Table, ops: seq<Op>, i: nat, j: nat, id: TaskId, bound: int)
    requires i < j <= |ops| && Refreshes(Before(t, ops, i), ops[i], id)
    requires forall k :: i < k < j ==> !Refreshes(Before(t, ops, k), ops[k], id)
    requires id in Before(t, ops, j) && (Before(t, ops, j)[id].state == ACTIVE || Before(t, ops, j)[id].state == CANCELING)
    ensures var row := Before(t, ops, j)[id];
      && (row.state == ACTIVE ==> row.progress.Some?)
      && ((row.state == ACTIVE && row.progress.value < bound) || (row.state == CANCELING && row.updated < bound)
          <==> Reading(ops[i]) < bound)
    decreases j
  {
    LastRefreshStored(t, ops, i, j, id);
  }

  lemma {:induction false} LastRefreshStored(t: Table, ops: seq<Op>, i: nat, j: nat, id: TaskId)
    requires i < j <= |ops| && Refreshes(Before(t, ops, i), ops[i], id)
    requires forall k :: i < k < j ==> !Refreshes(Before(t, ops, k), ops[k], id)
    requires id in Before(t, ops, j) && (Before(t, ops, j)[id].state == ACTIVE || Before(t, ops, j)[id].state == CANCELING)
    ensures var row := Before(t, ops, j)[id];
      if row.state == ACTIVE then row.progress == Some(Reading(ops[i])) else row.updated == Reading(ops[i])
    decreases j
  {
    hide Apply, Run, Before, After;
    BeforeNext(t, ops, j - 1);
    var before, op := Before(t, ops, j - 1), ops[j - 1];
    RunIsLater(t, ops, i, j - 1);
    StateTold(before, op, id);
    TimesTold(before, op, id);
    if i < j - 1 {
      LastRefreshStored(t, ops, i, j - 1, id);
    }
  }
}
