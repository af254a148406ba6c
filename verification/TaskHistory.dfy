/** Recorded states of the task manager, one statement apart, and what each statement may have done to the tasks. */
module TaskHistory {
  import opened Options
  import opened TaskReadings
  import opened TaskTable
  import opened TaskWorld

  type History = seq<Stored>

  function Last(h: History): Stored
    requires h != []
  {
    h[|h| - 1]
  }

  // ---- What may start

  ghost predicate BelowUserLimit(l: Limits, t: Table, id: TaskId) {
    id in t && t[id].state == PENDING && |RunningOf(t, t[id].username)| < l.perUser
  }

  /** There is room, and the task is the oldest pending one whose owner is below the limit. */
  ghost predicate RightlyChosen(l: Limits, t: Table, id: TaskId) {
    && |Running(t)| < l.concurrent
    && BelowUserLimit(l, t, id)
    && forall other :: BelowUserLimit(l, t, other) ==> t[id].created <= t[other].created
  }

  /**
   * First come, first served: of two waiting tasks, the one stored at a later reading is not the one to start while the
   * owner of the other is below the limit.
   */
  lemma FirstComeFirst(l: Limits, t: Table, ops: seq<Op>, i: nat, k: nat, j: nat)
    requires i < j <= |ops| && k < j
    requires ops[i].Insert? && Effective(t, ops, i) && ops[k].Insert? && Effective(t, ops, k) && ops[i].now < ops[k].now
    requires var later := Before(t, ops, j);
      && ops[i].id in later && later[ops[i].id].state == PENDING
      && |RunningOf(later, ops[i].user)| < l.perUser
    ensures !RightlyChosen(l, Before(t, ops, j), ops[k].id)
  {
    StoredWith(t, ops, i, j);
    StoredWith(t, ops, k, j);
    hide Apply, Run, Before, RunningOf;
    assert BelowUserLimit(l, Before(t, ops, j), ops[i].id);
  }

  /** Nothing more can be launched: no room, or every pending task's owner is at the per-user limit. */
  ghost predicate Exhausted(l: Limits, t: Table) {
    |Running(t)| >= l.concurrent || forall id :: !BelowUserLimit(l, t, id)
  }

  /** The task was rightly chosen in recorded state j, since when no task has started or ended. */
  ghost predicate ChosenAt(l: Limits, h: History, j: int, id: TaskId) {
    && 0 <= j < |h| && RightlyChosen(l, h[j].rows, id)
    && forall k :: j <= k < |h| ==> Running(h[k].rows) == Running(h[j].rows)
  }

  /** Every task running now that was not in the last recorded state was rightly chosen. */
  ghost predicate StartsRight(l: Limits, h: History, t: Table)
    requires h != []
  {
    forall id :: id in Running(t) && id !in Running(Last(h).rows) ==> exists j :: ChosenAt(l, h, j, id)
  }

  // ---- What may end, and how

  function NameOf(outcome: Outcome): string {
    match outcome
    case COMPLETED => "COMPLETED"
    case FAILED => "FAILED"
    case CANCELED => "CANCELED"
  }

  /** The outcome that the result file of the task names, if it names one. */
  function ResultIn(results: Results, id: TaskId): (result: Option<Outcome>)
    ensures forall o: Outcome :: result == Some(o) <==> id in results && results[id] == Parsed(Some(NameOf(o)))
  {
    if id !in results || results[id] == Unparsed || results[id].state == None then None
    else
      var state := results[id].state.value;
      if state == "COMPLETED" then Some(COMPLETED)
      else if state == "FAILED" then Some(FAILED)
      else if state == "CANCELED" then Some(CANCELED)
      else None
  }

  /** The task's container was seen to have written that it completed. */
  ghost predicate CompletedIn(h: History, id: TaskId) {
    exists j :: 0 <= j < |h| && ResultIn(h[j].results, id) == Some(COMPLETED)
  }

  /**
   * A task turns canceled only from pending or canceling, so only if its user cancelled it; and completed only while
   * it runs and after its container said so.
   */
  ghost predicate EndRight(h: History, was: Table, t: Table, id: TaskId)
    requires id in t
  {
    && (t[id].state == CANCELED ==>
          id in was && (was[id].state == PENDING || was[id].state == CANCELING || was[id].state == CANCELED))
    && (t[id].state == COMPLETED ==>
          id in was && (was[id].state == COMPLETED || (was[id].state.Running() && CompletedIn(h, id))))
  }

  ghost predicate EndsRight(h: History, t: Table)
    requires h != []
  {
    forall id :: id in t ==> EndRight(h, Last(h).rows, t, id)
  }

  /** One statement after the last recorded state. */
  ghost predicate StepOk(l: Limits, h: History, t: Table) {
    h == [] || (StartsRight(l, h, t) && EndsRight(h, t))
  }

  /** Every recorded state follows from the one before it by such a statement. */
  ghost predicate AllSteps(l: Limits, h: History) {
    forall i :: 0 < i < |h| ==> StepAt(l, h, i)
  }

  ghost predicate StepAt(l: Limits, h: History, i: nat)
    requires 0 < i < |h|
  {
    StepOk(l, h[..i], h[i].rows)
  }

  lemma Stutter(l: Limits, h: History)
    requires h != []
    ensures StepOk(l, h, Last(h).rows)
  {}

  lemma RecordStep(l: Limits, h: History, s: Stored)
    requires AllSteps(l, h) && StepOk(l, h, s.rows)
    ensures AllSteps(l, h + [s]) && StepOk(l, h + [s], s.rows)
  {
    var next := h + [s];
    Stutter(l, next);
    hide StepOk;
    forall i | 0 < i < |next| ensures StepAt(l, next, i) {
      if i < |h| {
        assert StepAt(l, h, i) && next[..i] == h[..i];
      } else {
        assert next[..i] == h;
      }
    }
  }

  lemma StepsBefore(l: Limits, h: History, i: nat)
    requires AllSteps(l, h) && i < |h|
    ensures AllSteps(l, h[..i + 1]) && StepOk(l, h[..i + 1], h[i].rows)
  {
    Stutter(l, h[..i + 1]);
    hide StepOk;
    var first := h[..i + 1];
    forall k | 0 < k < |first| ensures StepAt(l, first, k) {
      assert StepAt(l, h, k) && first[..k] == h[..k];
    }
  }

  // ---- Statements

  /** A statement that changes no task's state. */
  lemma StatesKept(l: Limits, h: History, t: Table)
    requires h != [] && forall id :: id in t ==> id in Last(h).rows && t[id].state == Last(h).rows[id].state
    ensures StepOk(l, h, t)
  {}

  lemma QuietStatement(l: Limits, h: History, op: Op)
    requires h != []
    requires op.GrantSlot? || op.RenewSlot? || op.ReleaseSlot? || op.ResetProgress? || op.ResetCanceling?
    ensures StepOk(l, h, After(Last(h).rows, op))
  {
    var t, u := Last(h).rows, After(Last(h).rows, op);
    assert forall id :: id in u ==> id in t && u[id].state == t[id].state;
    hide Apply, StepOk;
    StatesKept(l, h, u);
  }

  lemma OutsideStatement(l: Limits, h: History, op: Op)
    requires h != [] && Outside(op)
    ensures StepOk(l, h, After(Last(h).rows, op))
  {
    OutsideKeepsRunning(Last(h).rows, op);
    OutsideEnds(h, op);
    hide Apply, Running, EndsRight;
  }

  lemma OutsideEnds(h: History, op: Op)
    requires h != [] && Outside(op)
    ensures EndsRight(h, After(Last(h).rows, op))
  {}

  lemma ActivateStatement(l: Limits, h: History, j: int, id: TaskId, hash: int, now: int)
    requires h != [] && ChosenAt(l, h, j, id)
    ensures StepOk(l, h, After(Last(h).rows, Op.Activate(id, hash, now)))
  {
    hide ChosenAt;
  }

  /** The statements that end a running task. */
  lemma EndStatement(l: Limits, h: History, op: Op)
    requires h != [] && (op.Finish? || op.FailStalled? || op.ForceCancel?)
    requires op.Finish? && op.id in Last(h).rows && Last(h).rows[op.id].state.Running() ==>
               && (op.outcome == CANCELED ==> Last(h).rows[op.id].state == CANCELING)
               && (op.outcome == COMPLETED ==> CompletedIn(h, op.id))
    ensures StepOk(l, h, After(Last(h).rows, op))
  {
    hide CompletedIn, ChosenAt;
  }

  // ---- Recorded states since a moment

  /** From a recorded state on the same tasks run. */
  ghost predicate Quiet(h: History, from: nat, running: set<TaskId>) {
    forall k :: from <= k < |h| ==> Running(h[k].rows) == running
  }

  lemma QuietRecorded(h: History, from: nat, running: set<TaskId>, s: Stored)
    requires Quiet(h, from, running) && Running(s.rows) == running
    ensures Quiet(h + [s], from, running)
  {
    hide Running;
  }

  /** The task ran in a state recorded since. */
  ghost predicate RanSince(h: History, from: nat, id: TaskId) {
    exists k :: from <= k < |h| && id in Running(h[k].rows)
  }

  /** A choice made in the last recorded state stays right while no task starts or ends. */
  lemma ChosenStays(l: Limits, h: History, later: History, id: TaskId)
    requires h != [] && h <= later && RightlyChosen(l, Last(h).rows, id)
    requires Quiet(later, |h|, Running(Last(h).rows))
    ensures ChosenAt(l, later, |h| - 1, id)
  {
    hide Running, RightlyChosen;
    assert later[|h| - 1] == Last(h);
  }

  /** The task was rightly chosen in a state recorded since. */
  ghost predicate ChosenSince(l: Limits, h: History, from: nat, id: TaskId) {
    exists k :: from <= k < |h| && RightlyChosen(l, h[k].rows, id)
  }

  ghost predicate AllChosenSince(l: Limits, h: History, from: nat, before: set<TaskId>, after: set<TaskId>) {
    forall id :: id in after && id !in before ==> ChosenSince(l, h, from, id)
  }

  lemma OneMoreChosen(l: Limits, h: History, later: History, from: nat, mid: nat, a: set<TaskId>, b: set<TaskId>, c: set<TaskId>, id: TaskId)
    requires AllChosenSince(l, h, from, a, b) && h <= later && from <= mid && c <= b + {id} && ChosenSince(l, later, mid, id)
    ensures AllChosenSince(l, later, from, a, c)
  {
    hide RightlyChosen;
    forall x | x in c && x !in a ensures ChosenSince(l, later, from, x) {
      if x == id {
        var k :| mid <= k < |later| && RightlyChosen(l, later[k].rows, id);
      } else {
        var k :| from <= k < |h| && RightlyChosen(l, h[k].rows, x);
        assert later[k] == h[k];
      }
    }
  }

  lemma NoneMoreChosen(l: Limits, h: History, later: History, from: nat, a: set<TaskId>, b: set<TaskId>, c: set<TaskId>)
    requires AllChosenSince(l, h, from, a, b) && h <= later && c <= b
    ensures AllChosenSince(l, later, from, a, c)
  {
    hide RightlyChosen;
    forall x | x in c && x !in a ensures ChosenSince(l, later, from, x) {
      var k :| from <= k < |h| && RightlyChosen(l, h[k].rows, x);
      assert later[k] == h[k];
    }
  }

  // ---- Outcomes

  /** What an interruption makes of a running task: only one the user was cancelling counts as canceled. */
  function Interrupted(state: State): Outcome {
    if state == CANCELING then CANCELED else FAILED
  }

  /** The outcome of a container that exited, from the state read and the result it left. */
  function OutcomeOf(state: State, result: Option<Outcome>): Outcome {
    if result == Some(CANCELED) then Interrupted(state)
    else if result.Some? then result.value
    else if state == CANCELING then CANCELED else FAILED
  }

  /** Since a moment the task was read in the state, and then its workspace with the result. */
  ghost predicate ReadSince(h: History, from: nat, id: TaskId, state: State, result: Option<Outcome>) {
    exists i, j :: from <= i <= j < |h| && ReadAt(h[i], h[j], id, state, result)
  }

  ghost predicate ReadAt(read: Stored, left: Stored, id: TaskId, state: State, result: Option<Outcome>) {
    id in read.rows && read.rows[id].state == state && ResultIn(left.results, id) == result
  }

  lemma StillRead(h: History, later: History, from: nat, mid: nat, id: TaskId, state: State, result: Option<Outcome>)
    requires ReadSince(h, mid, id, state, result) && h <= later && from <= mid
    ensures ReadSince(later, from, id, state, result)
  {
    var i, j :| mid <= i <= j < |h| && ReadAt(h[i], h[j], id, state, result);
    assert later[i] == h[i] && later[j] == h[j];
  }

  /**
   * Over a recorded run: a task that turned canceled had been cancelled by its user; one that turned completed ran, and
   * its container had said so.
   */
  lemma EndsTell(l: Limits, h: History, i: nat, id: TaskId)
    requires AllSteps(l, h) && 0 < i < |h|
    requires id in h[i - 1].rows && !h[i - 1].rows[id].state.Finished() && id in h[i].rows
    ensures h[i].rows[id].state == CANCELED ==> h[i - 1].rows[id].state == PENDING || h[i - 1].rows[id].state == CANCELING
    ensures h[i].rows[id].state == COMPLETED ==> h[i - 1].rows[id].state.Running() && CompletedIn(h[..i], id)
  {
    assert StepAt(l, h, i);
    hide AllSteps, StartsRight, CompletedIn;
    assert Last(h[..i]) == h[i - 1];
    assert EndRight(h[..i], h[i - 1].rows, h[i].rows, id);
  }

  /** And a task that started had been the oldest pending one of a user below the limit, while there was room. */
  lemma StartsTell(l: Limits, h: History, i: nat, id: TaskId)
    requires AllSteps(l, h) && 0 < i < |h|
    requires id in Running(h[i].rows) && id !in Running(h[i - 1].rows)
    ensures exists j :: ChosenAt(l, h[..i], j, id)
  {
    assert StepAt(l, h, i);
    hide AllSteps, EndsRight, ChosenAt, Running;
    assert Last(h[..i]) == h[i - 1];
  }
}
