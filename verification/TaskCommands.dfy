/** The commands users give. They run outside the supervisor's queue, so anything may happen between their statements. */
module TaskCommands {
  import opened Options
  import opened TaskReadings
  import opened TaskTable
  import Repository = TaskRepository

  datatype Answer<T> = Done(value: T) | NotFound | Unauthorized | InvalidCommand | StorageError

  predicate IsHexDigit(c: char) {
    '0' <= c <= '9' || 'a' <= c <= 'f'
  }

  /** A lower-case UUID. */
  predicate IsTaskId(s: string) {
    |s| == 36 && forall i :: 0 <= i < |s| ==> if i in {8, 13, 18, 23} then s[i] == '-' else IsHexDigit(s[i])
  }

  predicate Hex(s: string, n: nat) {
    |s| == n && forall c <- s :: c in "0123456789abcdef"
  }

  lemma HexDigits(c: char)
    ensures IsHexDigit(c) <==> c in "0123456789abcdef"
  {
    var digits := "0123456789abcdef";
    if '0' <= c <= '9' {
      assert digits[(c - '0') as int] == c;
    } else if 'a' <= c <= 'f' {
      assert digits[10 + (c - 'a') as int] == c;
    }
  }

  /** An id is five groups of hexadecimal digits, joined by hyphens. */
  lemma GroupsOfHex(s: string)
    ensures IsTaskId(s) <==>
            exists a, b, c, d, e :: Hex(a, 8) && Hex(b, 4) && Hex(c, 4) && Hex(d, 4) && Hex(e, 12)
                                    && s == a + "-" + b + "-" + c + "-" + d + "-" + e
  {
    if IsTaskId(s) {
      var a, b, c, d, e := s[..8], s[9..13], s[14..18], s[19..23], s[24..];
      assert s == a + "-" + b + "-" + c + "-" + d + "-" + e;
      forall i | 0 <= i < 36 && i !in {8, 13, 18, 23} ensures s[i] in "0123456789abcdef" {
        HexDigits(s[i]);
      }
      hide IsTaskId;
      assert Hex(a, 8) && Hex(b, 4) && Hex(c, 4) && Hex(d, 4) && Hex(e, 12);
    }
    if a, b, c, d, e :| Hex(a, 8) && Hex(b, 4) && Hex(c, 4) && Hex(d, 4) && Hex(e, 12)
                        && s == a + "-" + b + "-" + c + "-" + d + "-" + e {
      GroupsJoin(a, b, c, d, e);
    }
  }

  lemma GroupsJoin(a: string, b: string, c: string, d: string, e: string)
    requires Hex(a, 8) && Hex(b, 4) && Hex(c, 4) && Hex(d, 4) && Hex(e, 12)
    ensures IsTaskId(a + "-" + b + "-" + c + "-" + d + "-" + e)
  {
    var s := a + "-" + b + "-" + c + "-" + d + "-" + e;
    hide IsHexDigit;
    forall i | 0 <= i < 36 ensures if i in {8, 13, 18, 23} then s[i] == '-' else IsHexDigit(s[i]) {
      HexDigits(s[i]);
      if i < 8 {
        assert s[i] == a[i] && a[i] in a;
      } else if 8 < i < 13 {
        assert s[i] == b[i - 9] && b[i - 9] in b;
      } else if 13 < i < 18 {
        assert s[i] == c[i - 14] && c[i - 14] in c;
      } else if 18 < i < 23 {
        assert s[i] == d[i - 19] && d[i - 19] in d;
      } else if 23 < i {
        assert s[i] == e[i - 24] && e[i - 24] in e;
      }
    }
  }

  /**
   * What a resubmit does to the table, among the statements of others: it removes the task, and stores a new one only
   * after a removal that was its own.
   */
  ghost predicate Resubmits(t: Table, ops: seq<Op>, id: TaskId, newId: TaskId, removal: Option<nat>, insertion: Option<nat>) {
    && (removal.Some? ==> removal.value < |ops| && ops[removal.value] == Op.Remove(id))
    && (insertion.Some? ==>
          && removal.Some? && removal.value < insertion.value < |ops|
          && ops[insertion.value].Insert? && ops[insertion.value].id == newId
          && Effective(t, ops, removal.value))
  }

  /** A resubmit in a longer run: the statements from its first to its last, and which of them are its own. */
  datatype Call = Call(from: nat, to: nat, newId: TaskId, removal: Option<nat>, insertion: Option<nat>)

  ghost predicate CallOf(t: Table, ops: seq<Op>, id: TaskId, call: Call) {
    && call.from <= call.to <= |ops|
    && Resubmits(Before(t, ops, call.from), ops[call.from..call.to], id, call.newId, call.removal, call.insertion)
  }

  /** Of any number of resubmits of one task, however their statements interleave, at most one stores a new task. */
  lemma AtMostOneResubmitted(t: Table, ops: seq<Op>, id: TaskId, calls: seq<Call>, i: nat, j: nat)
    requires forall k :: 0 <= k < |calls| ==> CallOf(t, ops, id, calls[k])
    requires forall k, m :: 0 <= k < m < |calls| && calls[k].removal.Some? && calls[m].removal.Some? ==>
               calls[k].from + calls[k].removal.value != calls[m].from + calls[m].removal.value
    requires i < j < |calls|
    ensures calls[i].insertion == None || calls[j].insertion == None
  {
    hide Apply, Run;
    if calls[i].insertion.Some? && calls[j].insertion.Some? {
      var x, y := calls[i].from + calls[i].removal.value, calls[j].from + calls[j].removal.value;
      BeforeWithin(t, ops, calls[i].from, calls[i].to, calls[i].removal.value);
      BeforeWithin(t, ops, calls[j].from, calls[j].to, calls[j].removal.value);
      if x < y {
        ResubmittedOnce(t, ops, x, y, id);
      } else {
        ResubmittedOnce(t, ops, y, x, id);
      }
    }
  }

  class Tasks {
    const repository: Repository.TaskRepository

    constructor (repository: Repository.TaskRepository)
      ensures this.repository == repository
    {
      this.repository := repository;
    }

    /** Statements of the supervisor and of other commands, in any number and order. */
    method OthersAct() returns (ghost ops: seq<Op>)
      modifies repository
      ensures repository.rows == Run(old(repository.rows), ops) && Later(old(repository.rows), repository.rows)
    {
      hide Later, Apply;
      ops := [];
      LaterSelf(repository.rows);
      var steps: nat := *;
      while 0 < steps
        invariant repository.rows == Run(old(repository.rows), ops) && Later(old(repository.rows), repository.rows)
      {
        ghost var rows := repository.rows;
        ghost var op := OneActs();
        RunAppend(old(repository.rows), ops, op);
        StepIsLater(rows, op);
        LaterTransitive(old(repository.rows), rows, repository.rows);
        ops := ops + [op];
        steps := steps - 1;
      }
    }

    method OneActs() returns (ghost op: Op)
      modifies repository
      ensures repository.rows == After(old(repository.rows), op)
    {
      hide Apply, TaskTable.Transition;
      var id: TaskId := *;
      var user: User := *;
      var ids: set<TaskId> := *;
      var now: int := *;
      var value: int := *;
      var outcome: Outcome := *;
      if * {
        op := Op.Insert(id, user, now);
        var ok := repository.Insert(id, user, now);
      } else if * {
        op := Op.Activate(id, value, now);
        var ok := repository.Activate(id, value, now);
      } else if * {
        op := Op.RecordProgress(id, now);
        var ok := repository.RecordProgress(id, now);
      } else if * {
        op := Op.GrantSlot(id, now);
        var slot := repository.GrantSlot(id, now);
      } else if * {
        op := Op.RenewSlot(id, now);
        var slot := repository.RenewSlot(id, now);
      } else if * {
        op := Op.ReleaseSlot(id, value);
        var ok := repository.EndGrant(id, value);
      } else if * {
        op := Op.Remove(id);
        var ok := repository.Remove(id);
      } else if * {
        op := Op.RemoveFinished(user, ids);
        var ok := repository.RemoveFinishedUserTasks(user, ids);
      } else if * {
        op := Op.ResetProgress(now);
        repository.ResetProgress(now);
      } else if * {
        op := Op.ResetCanceling(now);
        repository.ResetCanceling(now);
      } else {
        op := TransitOne(id, outcome, now);
      }
    }

    method TransitOne(id: TaskId, outcome: Outcome, now: int) returns (ghost op: Op)
      modifies repository
      ensures repository.rows == After(old(repository.rows), op)
    {
      var ok: bool;
      if * {
        op := Op.CancelPending(id, now);
        ok := repository.Transition(id, {PENDING}, CANCELED, now);
      } else if * {
        op := Op.RequestCancel(id, now);
        ok := repository.Transition(id, {ACTIVE}, CANCELING, now);
      } else if * {
        op := Op.Finish(id, outcome, now);
        ok := repository.Transition(id, RUNNING_STATES, outcome, now);
      } else if * {
        op := Op.FailStalled(id, now);
        ok := repository.Transition(id, {ACTIVE}, FAILED, now);
      } else {
        op := Op.ForceCancel(id, now);
        ok := repository.Transition(id, {CANCELING}, CANCELED, now);
      }
    }

    method OwnedTask(id: TaskId, user: User) returns (answer: Answer<Row>, ghost ops: seq<Op>)
      modifies repository
      ensures repository.rows == Run(old(repository.rows), ops) && Later(old(repository.rows), repository.rows)
      ensures answer.Done? ==> id in repository.rows && repository.rows[id] == answer.value && answer.value.username == user
      ensures answer.Unauthorized? ==> id in repository.rows && repository.rows[id].username != user
      ensures answer.NotFound? ==> id !in repository.rows
      ensures answer.Done? || answer.NotFound? || answer.Unauthorized?
    {
      ops := OthersAct();
      var row := repository.GetTask(id);
      answer := if row.None? then NotFound else if row.value.username != user then Unauthorized else Done(row.value);
    }

    /**
     * A cancel is never lost: when it returns, the task is neither pending nor active, even if it was launched
     * between the cancel's statements. stop tells whether its container is asked to stop.
     */
    method Cancel(id: TaskId, user: User) returns (answer: Answer<bool>, ghost ops: seq<Op>)
      modifies repository
      ensures repository.rows == Run(old(repository.rows), ops) && Later(old(repository.rows), repository.rows)
      ensures answer.Done? ==> id in repository.rows && repository.rows[id].state != PENDING && repository.rows[id].state != ACTIVE
      ensures answer.Done? && answer.value ==> repository.rows[id].state == CANCELING
      ensures id !in repository.rows ==> answer.NotFound?
      ensures id in old(repository.rows) ==> (answer.Unauthorized? <==> old(repository.rows)[id].username != user)
    {
      hide Later, Apply, Run;
      ghost var t := repository.rows;
      var task;
      task, ops := OwnedTask(id, user);
      SameOwner(t, repository.rows, id);
      if !task.Done? {
        answer := if task.NotFound? then NotFound else Unauthorized;
        return;
      }
      ghost var read := repository.rows;
      var now: int := *;
      if task.value.state == PENDING {
        ghost var others := OthersAct();
        RunConcat(t, ops, others);
        ops := ops + others;
        LaterTransitive(t, read, repository.rows);
        SameOwner(read, repository.rows, id);
        read := repository.rows;
        TransitionIsLater(read, id, {PENDING}, CANCELED, now);
        var ended := repository.Transition(id, {PENDING}, CANCELED, now);
        LaterTransitive(t, read, repository.rows);
        CancelStatements(read, id, now);
        RunAppend(t, ops, Op.CancelPending(id, now));
        ops := ops + [Op.CancelPending(id, now)];
        if ended {
          return Done(false), ops;
        }
      }
      ghost var others := OthersAct();
      RunConcat(t, ops, others);
      ops := ops + others;
      ghost var last := repository.rows;
      LaterTransitive(t, read, last);
      NotPendingLater(read, last, id);
      TransitionIsLater(last, id, {ACTIVE}, CANCELING, now);
      var asked := repository.Transition(id, {ACTIVE}, CANCELING, now);
      LaterTransitive(t, last, repository.rows);
      CancelStatements(last, id, now);
      RunAppend(t, ops, Op.RequestCancel(id, now));
      ops := ops + [Op.RequestCancel(id, now)];
      answer := Done(asked);
    }

    /** The two statements of a cancel. */
    lemma CancelStatements(t: Table, id: TaskId, now: int)
      ensures After(t, Op.CancelPending(id, now)) == TaskTable.Transition(t, id, {PENDING}, CANCELED, now).0
      ensures After(t, Op.RequestCancel(id, now)) == TaskTable.Transition(t, id, {ACTIVE}, CANCELING, now).0
    {}


    method FinishedTask(id: TaskId, user: User) returns (answer: Answer<Row>, ghost ops: seq<Op>)
      modifies repository
      ensures repository.rows == Run(old(repository.rows), ops) && Later(old(repository.rows), repository.rows)
      ensures answer.Done? ==> id in repository.rows && repository.rows[id] == answer.value
      ensures answer.Done? ==> answer.value.username == user && answer.value.state.Finished()
      ensures answer.InvalidCommand? ==> id in repository.rows && !repository.rows[id].state.Finished()
      ensures answer.NotFound? ==> id !in repository.rows
    {
      answer, ops := OwnedTask(id, user);
      if answer.Done? && !answer.value.state.Finished() {
        answer := InvalidCommand;
      }
    }

    /** Only a finished task of the user is removed; removed stays removed. */
    method Remove(id: TaskId, user: User) returns (answer: Answer<()>, ghost ops: seq<Op>)
      modifies repository
      ensures repository.rows == Run(old(repository.rows), ops) && Later(old(repository.rows), repository.rows)
      ensures answer.Done? ==> id in repository.rows && repository.rows[id].removed
      ensures answer.Done? ==> repository.rows[id].state.Finished() && repository.rows[id].username == user
    {
      hide Later, Run, Apply;
      ghost var t := repository.rows;
      var task;
      task, ops := FinishedTask(id, user);
      ghost var read := repository.rows;
      if !task.Done? {
        answer := match task case NotFound => NotFound case Unauthorized => Unauthorized case _ => InvalidCommand;
        return;
      }
      ghost var others := OthersAct();
      RunConcat(t, ops, others);
      RunAppend(t, ops + others, Op.Remove(id));
      ops := ops + others + [Op.Remove(id)];
      ghost var rows := repository.rows;
      LaterTransitive(t, read, rows);
      StepIsLater(rows, Op.Remove(id));
      FinishedStays(read, rows, id);
      SameOwner(read, rows, id);
      RemovedFinished(rows, id);
      var ok := repository.Remove(id);
      LaterTransitive(t, rows, repository.rows);
      SameOwner(rows, repository.rows, id);
      answer := Done(());
    }

    /**
     * A task is stored under the id the client named, or under a fresh one. Repeating a submission under a named id
     * answers the task already there, and stores nothing.
     */
    method Submit(named: Option<TaskId>, freshId: TaskId, user: User, operation: string)
      returns (answer: Answer<TaskId>, ghost ops: seq<Op>, ghost stored: Option<int>)
      modifies repository
      ensures repository.rows == Run(old(repository.rows), ops) && Later(old(repository.rows), repository.rows)
      ensures stored.Some? ==> answer.Done? && NewTask(repository.rows, answer.value, user, stored.value)
      ensures stored.None? && answer.Done? ==> named.Some?
      ensures operation == "" || (named.Some? && !IsTaskId(named.value)) <==> answer.InvalidCommand?
      ensures answer.InvalidCommand? ==> repository.rows == old(repository.rows)
      ensures answer.Done? ==>
                && answer.value == (if named.Some? then named.value else freshId)
                && answer.value in repository.rows && repository.rows[answer.value].username == user
      ensures named.Some? && named.value in old(repository.rows) && !answer.InvalidCommand? ==>
                (answer.Done? || answer.Unauthorized?) && (answer.Done? <==> old(repository.rows)[named.value].username == user)
    {
      hide Run, Later;
      ops, stored := [], None;
      LaterSelf(repository.rows);
      NothingRan(repository.rows);
      if operation == "" {
        return InvalidCommand, ops, stored;
      }
      if named.Some? {
        if !IsTaskId(named.value) {
          return InvalidCommand, ops, stored;
        }
        var existing;
        existing, ops := OwnedTask(named.value, user);
        SameOwner(old(repository.rows), repository.rows, named.value);
        if !existing.NotFound? {
          answer := if existing.Done? then Done(named.value) else Unauthorized;
          return;
        }
      }
      ghost var t, read := old(repository.rows), repository.rows;
      ghost var storing, reading;
      answer, storing, reading := Store(if named.Some? then named.value else freshId, user);
      RunConcat(t, ops, storing);
      LaterTransitive(t, read, repository.rows);
      ops := ops + storing;
      stored := if answer.Done? then Some(reading) else None;
    }

    /** The task waits since the reading, with nothing else told about it. */
    ghost predicate NewTask(t: Table, id: TaskId, user: User, reading: int) {
      && id in t && t[id].state == PENDING && t[id].username == user && t[id].created == t[id].updated == reading
      && t[id].progress.None? && t[id].slot.None? && t[id].keyHash.None? && !t[id].removed
    }

    lemma NothingRan(t: Table)
      ensures Run(t, []) == t
    {}

    /** The last statement of a submission, which alone can store a task. */
    method Store(id: TaskId, user: User) returns (answer: Answer<TaskId>, ghost ops: seq<Op>, ghost reading: int)
      modifies repository
      ensures repository.rows == Run(old(repository.rows), ops) && Later(old(repository.rows), repository.rows)
      ensures ops != [] && ops[|ops| - 1].Insert? && ops[|ops| - 1].id == id && ops[|ops| - 1].now == reading
      ensures if Effective(old(repository.rows), ops, |ops| - 1) then answer == Done(id) else answer == StorageError
      ensures answer.Done? ==> NewTask(repository.rows, id, user, reading)
      ensures answer.StorageError? ==> id in repository.rows
    {
      hide Later;
      ghost var others := OthersAct();
      ghost var rows := repository.rows;
      var now: int := *;
      var stored := repository.Insert(id, user, now);
      ghost var op := Op.Insert(id, user, now);
      RunAppend(old(repository.rows), others, op);
      StepIsLater(rows, op);
      LaterTransitive(old(repository.rows), rows, repository.rows);
      ops, reading := others + [op], now;
      InsertTold(rows, id, user, now);
      assert ops[..|others|] == others;
      answer := if stored then Done(id) else StorageError;
    }

    /**
     * Runs a finished task again under a new id, unless it was removed before: then nothing is submitted. The new task
     * is stored only after a removal that was this call's own; removal and insertion say which statements were.
     */
    method Resubmit(id: TaskId, user: User, operation: string, newId: TaskId)
      returns (answer: Answer<Option<TaskId>>, ghost ops: seq<Op>, ghost removal: Option<nat>, ghost insertion: Option<nat>)
      modifies repository
      ensures repository.rows == Run(old(repository.rows), ops) && Later(old(repository.rows), repository.rows)
      ensures Resubmits(old(repository.rows), ops, id, newId, removal, insertion)
      ensures answer.Done? && answer.value.Some? <==> insertion.Some? && Effective(old(repository.rows), ops, insertion.value)
      ensures answer.Done? && answer.value.None? <==> removal.Some? && !Effective(old(repository.rows), ops, removal.value)
      ensures answer.Done? && answer.value.Some? ==>
                answer.value == Some(newId) && NewTask(repository.rows, newId, user, ops[insertion.value].now)
      ensures answer.Done? || answer.StorageError? ==>
                id in repository.rows && repository.rows[id].removed && repository.rows[id].state.Finished()
    {
      hide Later, Apply, Run, Effective;
      ghost var t := repository.rows;
      removal, insertion := None, None;
      var task;
      task, ops := FinishedTask(id, user);
      if !task.Done? {
        answer := match task case NotFound => NotFound case Unauthorized => Unauthorized case _ => InvalidCommand;
        return;
      }
      ghost var read := repository.rows;
      ghost var others := OthersAct();
      ghost var before := ops + others;
      RunConcat(t, ops, others);
      LaterTransitive(t, read, repository.rows);
      ghost var rows := repository.rows;
      var first := repository.Remove(id);
      removal := Some(|before|);
      ops := before + [Op.Remove(id)];
      RunAppend(t, before, Op.Remove(id));
      RemovedNow(t, before, Op.Remove(id), rows, first);
      StepIsLater(rows, Op.Remove(id));
      LaterTransitive(t, rows, repository.rows);
      FinishedStays(read, rows, id);
      RemovedFinished(rows, id);
      if !first {
        return Done(None), ops, removal, None;
      }
      if operation == "" {
        return InvalidCommand, ops, removal, None;
      }
      ghost var removed := repository.rows;
      var submitted;
      ghost var storing, reading;
      submitted, storing, reading := Store(newId, user);
      LaterTransitive(t, removed, repository.rows);
      RunConcat(t, ops, storing);
      StatementsWithin(t, ops, storing, removal.value);
      FinishedStays(removed, repository.rows, id);
      insertion := Some(|ops| + |storing| - 1);
      ops := ops + storing;
      answer := match submitted case Done(x) => Done(Some(x)) case _ => StorageError;
    }

    lemma SameOwner(a: Table, b: Table, id: TaskId)
      requires Later(a, b)
      ensures id in a ==> id in b && b[id].username == a[id].username
    {}

    lemma NotPendingLater(a: Table, b: Table, id: TaskId)
      requires Later(a, b) && id in a
      ensures id in b && (a[id].state != PENDING ==> b[id].state != PENDING)
    {}

    lemma RemovedNow(t: Table, before: seq<Op>, op: Op, rows: Table, affected: bool)
      requires rows == Run(t, before) && affected == Apply(rows, op).1
      ensures Effective(t, before + [op], |before|) <==> affected
    {
      assert (before + [op])[..|before|] == before;
    }

    /** Statements keep their effect when more follow, and those that follow have the effect they had. */
    lemma StatementsWithin(t: Table, a: seq<Op>, b: seq<Op>, i: nat)
      requires i < |a| && b != []
      ensures Effective(t, a + b, i) <==> Effective(t, a, i)
      ensures Effective(t, a + b, |a| + |b| - 1) <==> Effective(Run(t, a), b, |b| - 1)
    {
      hide Apply, Run;
      assert (a + b)[..i] == a[..i];
      assert (a + b)[..|a|] == a && (a + b)[|a|..|a| + |b|] == b;
      BeforeWithin(t, a + b, |a|, |a| + |b|, |b| - 1);
    }

    lemma FinishedStays(a: Table, b: Table, id: TaskId)
      requires Later(a, b) && id in a && a[id].state.Finished()
      ensures id in b && b[id].state == a[id].state && (a[id].removed ==> b[id].removed)
    {}

    lemma RemovedFinished(t: Table, id: TaskId)
      requires id in t && t[id].state.Finished()
      ensures var u := After(t, Op.Remove(id)); id in u && u[id].removed && u[id].state == t[id].state
    {}
  }
}
