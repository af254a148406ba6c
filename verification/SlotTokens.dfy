/** A slot's grant time names the grant: what that protects against over whole runs, and exactly when it fails. */
module SlotTokens {
  import opened Options
  import opened TaskTable

  predicate Issues(op: Op, id: TaskId) {
    (op.GrantSlot? || op.RenewSlot?) && op.id == id
  }

  /** From a statement on, no grant or renewal of the task's own slot has the reading. Other tasks may share it. */
  ghost predicate NeverReadAgain(ops: seq<Op>, from: nat, id: TaskId, grant: int) {
    forall i :: from <= i < |ops| && Issues(ops[i], id) ==> ops[i].now != grant
  }

  /** The clock advances from one grant or renewal of the task to its next. */
  ghost predicate ClockAdvances(ops: seq<Op>, id: TaskId) {
    forall i, j :: 0 <= i < j < |ops| && Issues(ops[i], id) && Issues(ops[j], id) ==> ops[i].now < ops[j].now
  }

  lemma AdvancingClockReadsOnce(ops: seq<Op>, i: nat, id: TaskId)
    requires ClockAdvances(ops, id) && i < |ops| && Issues(ops[i], id)
    ensures NeverReadAgain(ops, i + 1, id, ops[i].now)
  {}

  /** Where a slot value after a statement comes from. */
  lemma SlotChange(t: Table, op: Op, id: TaskId)
    requires id in After(t, op)
    ensures var slot := After(t, op)[id].slot;
      slot == None || (id in t && slot == t[id].slot) || (Issues(op, id) && slot == Some(op.now) && Apply(t, op).1)
  {}

  /** A grant that a task does not hold, and whose reading its slot never gets again, is never held again. */
  lemma {:induction false} GoneForGood(t: Table, ops: seq<Op>, from: nat, k: nat, id: TaskId, grant: int)
    requires from <= k <= |ops| && NeverReadAgain(ops, from, id, grant)
    requires id in Before(t, ops, from) && Before(t, ops, from)[id].slot != Some(grant)
    ensures id in Before(t, ops, k) && Before(t, ops, k)[id].slot != Some(grant)
    decreases k
  {
    hide Apply, Run;
    if from < k {
      GoneForGood(t, ops, from, k - 1, id, grant);
      BeforeNext(t, ops, k - 1);
      StepIsLater(Before(t, ops, k - 1), ops[k - 1]);
      SlotChange(Before(t, ops, k - 1), ops[k - 1], id);
    }
  }

  lemma IssuedSlot(t: Table, ops: seq<Op>, j: nat, id: TaskId)
    requires j < |ops| && Issues(ops[j], id) && Effective(t, ops, j)
    ensures id in Before(t, ops, j + 1) && Before(t, ops, j + 1)[id].slot == Some(ops[j].now)
  {
    BeforeNext(t, ops, j);
  }

  /** The grant or renewal made by statement j is what the task holds before statement k. */
  ghost predicate HeldSince(t: Table, ops: seq<Op>, j: nat, k: nat, id: TaskId)
    requires k <= |ops|
  {
    && j < k && Issues(ops[j], id) && Effective(t, ops, j)
    && id in Before(t, ops, k) && Before(t, ops, k)[id].slot == Some(ops[j].now)
    && forall m :: j < m < k && Issues(ops[m], id) ==> !Effective(t, ops, m)
  }

  /**
   * A release that names an earlier grant never ends the grant or renewal made at step j, nor any after it, however
   * late it arrives and however often it is repeated, as long as the task's slot does not get the reading again.
   */
  lemma LateReleaseEndsNothing(t: Table, ops: seq<Op>, i: nat, j: nat, k: nat, id: TaskId)
    requires i < j < k < |ops| && Issues(ops[i], id) && NeverReadAgain(ops, i + 1, id, ops[i].now)
    requires Issues(ops[j], id) && Effective(t, ops, j)
    requires ops[k] == ReleaseSlot(id, ops[i].now)
    ensures !Effective(t, ops, k) && After(Before(t, ops, k), ops[k]) == Before(t, ops, k)
  {
    IssuedSlot(t, ops, j, id);
    GoneForGood(t, ops, j + 1, k, id, ops[i].now);
  }

  /**
   * And only that long: somewhere in a run a release naming the grant of statement i would end a later grant of the
   * task if and only if a later grant of the task took effect in the same clock reading.
   */
  lemma LateReleaseEndsExactly(t: Table, ops: seq<Op>, i: nat, id: TaskId)
    requires i < |ops| && Issues(ops[i], id)
    ensures (exists j, k :: i < j < k <= |ops| && HeldSince(t, ops, j, k, id)
                            && Apply(Before(t, ops, k), ReleaseSlot(id, ops[i].now)).1)
            <==> exists j :: i < j < |ops| && Issues(ops[j], id) && Effective(t, ops, j) && ops[j].now == ops[i].now
  {
    hide Run;
    if j :| i < j < |ops| && Issues(ops[j], id) && Effective(t, ops, j) && ops[j].now == ops[i].now {
      IssuedSlot(t, ops, j, id);
      assert HeldSince(t, ops, j, j + 1, id);
    }
  }

  /** Each grant ends at most once, unless the task's slot gets its reading again. */
  lemma GrantEndsOnce(t: Table, ops: seq<Op>, i: nat, k: nat, id: TaskId, grant: int)
    requires i < k < |ops| && NeverReadAgain(ops, i + 1, id, grant)
    requires ops[i] == ReleaseSlot(id, grant) && Effective(t, ops, i)
    requires ops[k] == ReleaseSlot(id, grant)
    ensures !Effective(t, ops, k)
  {
    BeforeNext(t, ops, i);
    GoneForGood(t, ops, i + 1, k, id, grant);
  }

  /** Two grants in one clock reading are indistinguishable: a repeated release of the first ends the second. */
  lemma SameReadingCollides(t: Table, id: TaskId, now: int)
    requires id in t && t[id].state == ACTIVE && t[id].slot == None
    ensures var ops := [GrantSlot(id, now), ReleaseSlot(id, now), GrantSlot(id, now), ReleaseSlot(id, now)];
      forall i :: 0 <= i < 4 ==> Effective(t, ops, i)
  {
    var ops := [GrantSlot(id, now), ReleaseSlot(id, now), GrantSlot(id, now), ReleaseSlot(id, now)];
    BeforeNext(t, ops, 0);
    BeforeNext(t, ops, 1);
    BeforeNext(t, ops, 2);
    assert Before(t, ops, 0) == t;
  }
}
