/** The task table and the effect of each SQL statement on it, as functions on table values. */
module TaskTable {
  import opened Options

  type TaskId = string
  type User = string

  datatype State = PENDING | ACTIVE | CANCELING | COMPLETED | CANCELED | FAILED {
    predicate Running() {
      ACTIVE? || CANCELING?
    }

    predicate Finished() {
      COMPLETED? || CANCELED? || FAILED?
    }

    /** How far along its life a task is. */
    function Rank(): nat {
      if PENDING? then 0 else if ACTIVE? then 1 else if CANCELING? then 2 else 3
    }
  }

  const RUNNING_STATES: set<State> := {ACTIVE, CANCELING}

  datatype Row = Row(
    state: State, username: User, created: int, updated: int, progress: Option<int>,
    slot: Option<int>, keyHash: Option<int>, removed: bool)

  type Table = map<TaskId, Row>

  /** One SQL statement of the repository. Every transition the task manager makes is one of the five listed. */
  datatype Op =
    | Insert(id: TaskId, user: User, now: int)
    | Activate(id: TaskId, hash: int, now: int)
    | CancelPending(id: TaskId, now: int)
    | RequestCancel(id: TaskId, now: int)
    | Finish(id: TaskId, outcome: Outcome, now: int)
    | FailStalled(id: TaskId, now: int)
    | ForceCancel(id: TaskId, now: int)
    | RecordProgress(id: TaskId, now: int)
    | GrantSlot(id: TaskId, now: int)
    | RenewSlot(id: TaskId, now: int)
    | ReleaseSlot(id: TaskId, grant: int)
    | Remove(id: TaskId)
    | RemoveFinished(user: User, ids: set<TaskId>)
    | ResetProgress(now: int)
    | ResetCanceling(now: int)

  type Outcome = s: State | s.Finished() witness FAILED

  /** UPDATE ... WHERE id = ? AND state IN (from): the key hash survives only while the task keeps running. */
  function Transition(t: Table, id: TaskId, from: set<State>, to: State, now: int): (Table, bool) {
    if id in t && t[id].state in from then
      (t[id := t[id].(state := to, updated := now, keyHash := if to.Running() then t[id].keyHash else None)], true)
    else (t, false)
  }

  /** The table after a statement, and whether the statement affected a row. An INSERT of a stored id fails. */
  function Apply(t: Table, op: Op): (Table, bool) {
    match op
    case Insert(id, user, now) =>
      if id in t then (t, false)
      else (t[id := Row(PENDING, user, now, now, None, None, None, false)], true)
    case Activate(id, hash, now) =>
      if id in t && t[id].state == PENDING then
        (t[id := t[id].(state := ACTIVE, keyHash := Some(hash), updated := now, progress := Some(now))], true)
      else (t, false)
    case CancelPending(id, now) => Transition(t, id, {PENDING}, CANCELED, now)
    case RequestCancel(id, now) => Transition(t, id, {ACTIVE}, CANCELING, now)
    case Finish(id, outcome, now) => Transition(t, id, RUNNING_STATES, outcome, now)
    case FailStalled(id, now) => Transition(t, id, {ACTIVE}, FAILED, now)
    case ForceCancel(id, now) => Transition(t, id, {CANCELING}, CANCELED, now)
    case RecordProgress(id, now) =>
      if id in t && t[id].state == ACTIVE then (t[id := t[id].(updated := now, progress := Some(now))], true) else (t, false)
    case GrantSlot(id, now) =>
      if id in t && t[id].state == ACTIVE && t[id].slot == None then (t[id := t[id].(slot := Some(now))], true)
      else (t, false)
    case RenewSlot(id, now) =>
      if id in t && t[id].state in RUNNING_STATES && t[id].slot != None then (t[id := t[id].(slot := Some(now))], true)
      else (t, false)
    case ReleaseSlot(id, grant) =>
      if id in t && t[id].slot == Some(grant) then (t[id := t[id].(slot := None)], true) else (t, false)
    case Remove(id) =>
      if id in t && !t[id].removed then (t[id := t[id].(removed := true)], true) else (t, false)
    case RemoveFinished(user, ids) =>
      (map id | id in t :: if id in ids && t[id].username == user && t[id].state.Finished() then t[id].(removed := true) else t[id],
       exists id :: id in t && id in ids && t[id].username == user && t[id].state.Finished())
    case ResetProgress(now) =>
      (map id | id in t :: if t[id].state == ACTIVE then t[id].(progress := Some(now)) else t[id],
       exists id :: id in t && t[id].state == ACTIVE)
    case ResetCanceling(now) =>
      (map id | id in t :: if t[id].state == CANCELING then t[id].(updated := now) else t[id],
       exists id :: id in t && t[id].state == CANCELING)
  }

  function After(t: Table, op: Op): Table {
    Apply(t, op).0
  }

  // ---- Which tasks are in which position

  predicate IsRunning(t: Table, id: TaskId) {
    id in t && t[id].state.Running()
  }

  predicate IsHolder(t: Table, id: TaskId) {
    IsRunning(t, id) && t[id].slot.Some?
  }

  function Running(t: Table): set<TaskId> {
    set id | id in t && IsRunning(t, id)
  }

  function RunningOf(t: Table, u: User): set<TaskId> {
    set id | id in t && IsRunning(t, id) && t[id].username == u
  }

  function Holders(t: Table): set<TaskId> {
    set id | id in t && IsHolder(t, id)
  }

  // ---- Runs: any statements in any order, from whatever programs issue them

  function Run(t: Table, ops: seq<Op>): Table {
    if ops == [] then t else After(Run(t, ops[..|ops| - 1]), ops[|ops| - 1])
  }

  /** The table before statement i of a run. */
  function Before(t: Table, ops: seq<Op>, i: nat): Table
    requires i <= |ops|
  {
    Run(t, ops[..i])
  }

  /** Statement i of a run affected a row. */
  predicate Effective(t: Table, ops: seq<Op>, i: nat)
    requires i < |ops|
  {
    Apply(Before(t, ops, i), ops[i]).1
  }

  lemma BeforeNext(t: Table, ops: seq<Op>, i: nat)
    requires i < |ops|
    ensures Before(t, ops, i + 1) == After(Before(t, ops, i), ops[i])
  {
    assert ops[..i + 1][..|ops[..i + 1]| - 1] == ops[..i];
  }

  lemma RunAppend(t: Table, ops: seq<Op>, op: Op)
    ensures Run(t, ops + [op]) == After(Run(t, ops), op)
  {
    assert (ops + [op])[..|ops|] == ops;
  }

  lemma {:induction false} RunConcat(t: Table, a: seq<Op>, b: seq<Op>)
    ensures Run(t, a + b) == Run(Run(t, a), b)
    decreases |b|
  {
    hide Apply;
    if b == [] {
      assert a + b == a;
    } else {
      var front, last := b[..|b| - 1], b[|b| - 1];
      RunConcat(t, a, front);
      assert a + b == (a + front) + [last] && b == front + [last];
      RunAppend(t, a + front, last);
      RunAppend(Run(t, a), front, last);
    }
  }

  /** A part of a run is the run of its statements from the table before them. */
  lemma BeforeWithin(t: Table, ops: seq<Op>, from: nat, to: nat, i: nat)
    requires from <= to <= |ops| && i <= to - from
    ensures Before(Before(t, ops, from), ops[from..to], i) == Before(t, ops, from + i)
    ensures i < to - from ==> (Effective(Before(t, ops, from), ops[from..to], i) <==> Effective(t, ops, from + i))
  {
    hide Apply, Run;
    assert ops[..from + i] == ops[..from] + ops[from..to][..i];
    RunConcat(t, ops[..from], ops[from..to][..i]);
  }

  /** What time does to a row: it keeps its owner and creation time, only moves forward through its life, and stays removed. */
  predicate RowLater(a: Row, b: Row) {
    && b.username == a.username
    && b.created == a.created
    && (b.state == a.state || a.state.Rank() < b.state.Rank())
    && (a.removed ==> b.removed)
  }

  /** What time does to a table: rows stay, and each only moves forward. */
  ghost predicate Later(t: Table, u: Table) {
    forall id :: id in t ==> id in u && RowLater(t[id], u[id])
  }

  lemma UpdateIsLater(t: Table, id: TaskId, row: Row)
    requires id in t ==> RowLater(t[id], row)
    ensures Later(t, t[id := row])
  {}

  lemma TransitionIsLater(t: Table, id: TaskId, from: set<State>, to: State, now: int)
    requires forall s <- from :: s.Rank() < to.Rank()
    ensures Later(t, Transition(t, id, from, to, now).0)
  {
    if id in t && t[id].state in from {
      UpdateIsLater(t, id, t[id].(state := to, updated := now, keyHash := if to.Running() then t[id].keyHash else None));
    }
  }

  lemma StepIsLater(t: Table, op: Op)
    ensures Later(t, After(t, op))
  {
    match op
    case CancelPending(id, now) => TransitionIsLater(t, id, {PENDING}, CANCELED, now);
    case RequestCancel(id, now) => TransitionIsLater(t, id, {ACTIVE}, CANCELING, now);
    case Finish(id, outcome, now) => TransitionIsLater(t, id, RUNNING_STATES, outcome, now);
    case FailStalled(id, now) => TransitionIsLater(t, id, {ACTIVE}, FAILED, now);
    case ForceCancel(id, now) => TransitionIsLater(t, id, {CANCELING}, CANCELED, now);
    case RemoveFinished(_, _) =>
    case ResetProgress(_) =>
    case ResetCanceling(_) =>
    case _ => OneRowIsLater(t, op);
  }

  /** The statements about one task that are no transitions but the activation. */
  lemma OneRowIsLater(t: Table, op: Op)
    requires !op.RemoveFinished? && !op.ResetProgress? && !op.ResetCanceling?
    requires !op.CancelPending? && !op.RequestCancel? && !op.Finish? && !op.FailStalled? && !op.ForceCancel?
    ensures Later(t, After(t, op))
  {
    hide Transition;
    assert forall id :: id in t && id != op.id ==> id in After(t, op) && After(t, op)[id] == t[id];
  }

  lemma LaterTransitive(a: Table, b: Table, c: Table)
    requires Later(a, b) && Later(b, c)
    ensures Later(a, c)
  {}

  lemma {:induction false} RunIsLater(t: Table, ops: seq<Op>, i: nat, j: nat)
    requires i <= j <= |ops|
    ensures Later(Before(t, ops, i), Before(t, ops, j))
    decreases j
  {
    hide Apply, Run, Later, Before, After;
    if i == j {
      LaterSelf(Before(t, ops, i));
    } else {
      RunIsLater(t, ops, i, j - 1);
      BeforeNext(t, ops, j - 1);
      StepIsLater(Before(t, ops, j - 1), ops[j - 1]);
      LaterTransitive(Before(t, ops, i), Before(t, ops, j - 1), Before(t, ops, j));
    }
  }

  lemma LaterSelf(t: Table)
    ensures Later(t, t)
  {}

  /** A task becomes ACTIVE at most once, whatever interleaves. */
  lemma ActivatedOnce(t: Table, ops: seq<Op>, i: nat, j: nat, id: TaskId)
    requires i < j < |ops|
    requires ops[i].Activate? && ops[i].id == id && Effective(t, ops, i)
    requires ops[j].Activate? && ops[j].id == id
    ensures !Effective(t, ops, j)
  {
    BeforeNext(t, ops, i);
    RunIsLater(t, ops, i + 1, j);
  }

  ghost predicate Ends(t: Table, ops: seq<Op>, i: nat, id: TaskId)
    requires i < |ops|
  {
    && id in Before(t, ops, i) && !Before(t, ops, i)[id].state.Finished()
    && id in Before(t, ops, i + 1) && Before(t, ops, i + 1)[id].state.Finished()
  }

  /** A task ends at most once, and from then on its state never changes. */
  lemma EndsOnce(t: Table, ops: seq<Op>, i: nat, j: nat, id: TaskId)
    requires i < j <= |ops| && Ends(t, ops, i, id)
    ensures id in Before(t, ops, j) && Before(t, ops, j)[id].state == Before(t, ops, i + 1)[id].state
    ensures j < |ops| ==> !Ends(t, ops, j, id)
  {
    RunIsLater(t, ops, i + 1, j);
  }

  /** A task holds the key its container authenticates with exactly while it is ACTIVE or CANCELING. */
  ghost predicate KeysMatchStates(t: Table) {
    forall id :: id in t ==> (t[id].keyHash.Some? <==> t[id].state.Running())
  }

  lemma {:induction false} RunKeepsKeys(t: Table, ops: seq<Op>)
    requires KeysMatchStates(t)
    ensures KeysMatchStates(Run(t, ops))
  {
    if ops != [] {
      RunKeepsKeys(t, ops[..|ops| - 1]);
      StepKeepsKeys(Run(t, ops[..|ops| - 1]), ops[|ops| - 1]);
    }
  }

  lemma StepKeepsKeys(t: Table, op: Op)
    requires KeysMatchStates(t)
    ensures KeysMatchStates(After(t, op))
  {}

  /** Of any number of concurrent resubmits of a task, only one removes it and goes on to submit it again. */
  lemma ResubmittedOnce(t: Table, ops: seq<Op>, i: nat, j: nat, id: TaskId)
    requires i < j < |ops| && ops[i] == Remove(id) && ops[j] == Remove(id) && Effective(t, ops, i)
    ensures !Effective(t, ops, j)
  {
    BeforeNext(t, ops, i);
    RunIsLater(t, ops, i + 1, j);
  }
}
