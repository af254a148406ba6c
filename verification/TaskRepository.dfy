/** The stored tasks, changed by one conditional statement at a time. */
module TaskRepository {
  import opened Options
  import opened TaskTable

  datatype Task = Task(id: TaskId, row: Row)

  /** A result set: each matching row once, in no particular order. */
  ghost predicate ResultOf(tasks: seq<Task>, t: Table, ids: set<TaskId>) {
    && (forall i :: 0 <= i < |tasks| ==> tasks[i].id in ids && tasks[i].id in t && tasks[i].row == t[tasks[i].id])
    && (forall i, j :: 0 <= i < j < |tasks| ==> tasks[i].id != tasks[j].id)
    && (forall id :: id in ids ==> exists i :: 0 <= i < |tasks| && tasks[i].id == id)
  }

  /** A pending task whose owner is not excluded. */
  predicate Eligible(t: Table, exclude: set<User>, id: TaskId) {
    id in t && t[id].state == PENDING && t[id].username !in exclude
  }

  ghost predicate OldestEligible(t: Table, exclude: set<User>, id: TaskId) {
    Eligible(t, exclude, id) && forall other :: Eligible(t, exclude, other) ==> t[id].created <= t[other].created
  }

  class TaskRepository {
    var rows: Table

    constructor (rows: Table)
      ensures this.rows == rows
    {
      this.rows := rows;
    }

    method Insert(id: TaskId, user: User, now: int) returns (ok: bool)
      modifies this
      ensures (rows, ok) == Apply(old(rows), Op.Insert(id, user, now))
    {
      ok := id !in rows;
      if ok {
        rows := rows[id := Row(PENDING, user, now, now, None, None, None, false)];
      }
    }

    method Activate(id: TaskId, hash: int, now: int) returns (ok: bool)
      modifies this
      ensures (rows, ok) == Apply(old(rows), Op.Activate(id, hash, now))
    {
      ok := id in rows && rows[id].state == PENDING;
      if ok {
        rows := rows[id := rows[id].(state := ACTIVE, keyHash := Some(hash), updated := now, progress := Some(now))];
      }
    }

    method Transition(id: TaskId, from: set<State>, to: State, now: int) returns (ok: bool)
      modifies this
      ensures (rows, ok) == TaskTable.Transition(old(rows), id, from, to, now)
    {
      ok := id in rows && rows[id].state in from;
      if ok {
        rows := rows[id := rows[id].(state := to, updated := now, keyHash := if to.Running() then rows[id].keyHash else None)];
      }
    }

    method RecordProgress(id: TaskId, now: int) returns (ok: bool)
      modifies this
      ensures (rows, ok) == Apply(old(rows), Op.RecordProgress(id, now))
    {
      ok := id in rows && rows[id].state == ACTIVE;
      if ok {
        rows := rows[id := rows[id].(updated := now, progress := Some(now))];
      }
    }

    method GrantSlot(id: TaskId, now: int) returns (slot: Option<int>)
      modifies this
      ensures (rows, slot.Some?) == Apply(old(rows), Op.GrantSlot(id, now)) && (slot.Some? ==> slot.value == now)
    {
      slot := None;
      if id in rows && rows[id].state == ACTIVE && rows[id].slot == None {
        rows := rows[id := rows[id].(slot := Some(now))];
        slot := Some(now);
      }
    }

    method RenewSlot(id: TaskId, now: int) returns (slot: Option<int>)
      modifies this
      ensures (rows, slot.Some?) == Apply(old(rows), Op.RenewSlot(id, now)) && (slot.Some? ==> slot.value == now)
    {
      slot := None;
      if id in rows && rows[id].state in RUNNING_STATES && rows[id].slot != None {
        rows := rows[id := rows[id].(slot := Some(now))];
        slot := Some(now);
      }
    }

    /** The statement that ends a grant; a release without a grant reads SlotTime first. */
    method EndGrant(id: TaskId, grant: int) returns (ok: bool)
      modifies this
      ensures (rows, ok) == Apply(old(rows), Op.ReleaseSlot(id, grant))
    {
      ok := id in rows && rows[id].slot == Some(grant);
      if ok {
        rows := rows[id := rows[id].(slot := None)];
      }
    }

    method SlotTime(id: TaskId) returns (slot: Option<int>)
      ensures slot == if id in rows then rows[id].slot else None
    {
      slot := if id in rows then rows[id].slot else None;
    }

    method Remove(id: TaskId) returns (ok: bool)
      modifies this
      ensures (rows, ok) == Apply(old(rows), Op.Remove(id))
    {
      ok := id in rows && !rows[id].removed;
      if ok {
        rows := rows[id := rows[id].(removed := true)];
      }
    }

    method RemoveFinishedUserTasks(user: User, ids: set<TaskId>) returns (ok: bool)
      modifies this
      ensures (rows, ok) == Apply(old(rows), Op.RemoveFinished(user, ids))
    {
      ok := exists id :: id in rows && id in ids && rows[id].username == user && rows[id].state.Finished();
      rows := map id | id in rows ::
        if id in ids && rows[id].username == user && rows[id].state.Finished() then rows[id].(removed := true) else rows[id];
    }

    /** The first statement of resetProgressClock. */
    method ResetProgress(now: int)
      modifies this
      ensures rows == After(old(rows), Op.ResetProgress(now))
    {
      rows := map id | id in rows :: if rows[id].state == ACTIVE then rows[id].(progress := Some(now)) else rows[id];
    }

    /** The second statement of resetProgressClock. */
    method ResetCanceling(now: int)
      modifies this
      ensures rows == After(old(rows), Op.ResetCanceling(now))
    {
      rows := map id | id in rows :: if rows[id].state == CANCELING then rows[id].(updated := now) else rows[id];
    }

    method GetTask(id: TaskId) returns (row: Option<Row>)
      ensures row == if id in rows then Some(rows[id]) else None
    {
      row := if id in rows then Some(rows[id]) else None;
    }

    method CountRunning() returns (count: nat)
      ensures count == |Running(rows)|
    {
      count := |Running(rows)|;
    }

    method CountRunningByUser() returns (counts: map<User, nat>)
      ensures forall u :: u in counts <==> RunningOf(rows, u) != {}
      ensures forall u :: u in counts ==> counts[u] == |RunningOf(rows, u)|
    {
      var users := set id | id in Running(rows) :: rows[id].username;
      counts := map u | u in users :: |RunningOf(rows, u)|;
      forall u | RunningOf(rows, u) != {} ensures u in users {
        var id :| id in RunningOf(rows, u);
        assert id in Running(rows);
      }
      forall u | u in users ensures RunningOf(rows, u) != {} {
        var id :| id in Running(rows) && rows[id].username == u;
        assert id in RunningOf(rows, u);
      }
    }

    /** ORDER BY creation_time LIMIT 1: among tasks created at the same time any may be the first. */
    method PendingTask(exclude: set<User>) returns (task: Option<TaskId>)
      ensures task.Some? ==> OldestEligible(rows, exclude, task.value)
      ensures task.None? ==> forall id :: !Eligible(rows, exclude, id)
    {
      var left := set id | id in rows && Eligible(rows, exclude, id);
      task := None;
      while left != {}
        invariant forall id :: id in left ==> Eligible(rows, exclude, id)
        invariant task.Some? ==> Eligible(rows, exclude, task.value)
        invariant forall id :: Eligible(rows, exclude, id) && id !in left ==>
                    task.Some? && rows[task.value].created <= rows[id].created
        decreases left
      {
        var id :| id in left;
        if task.None? || rows[id].created < rows[task.value].created {
          task := Some(id);
        }
        left := left - {id};
      }
    }

    method Select(ids: set<TaskId>) returns (tasks: seq<Task>)
      requires ids <= rows.Keys
      ensures ResultOf(tasks, rows, ids)
    {
      var left := ids;
      tasks := [];
      while left != {}
        invariant left <= ids && ResultOf(tasks, rows, ids - left)
        decreases left
      {
        var id :| id in left;
        ghost var was, done := tasks, ids - left;
        tasks := tasks + [Task(id, rows[id])];
        left := left - {id};
        forall x | x in ids - left ensures exists i :: 0 <= i < |tasks| && tasks[i].id == x {
          if x == id {
            assert tasks[|was|].id == x;
          } else {
            assert x in done;
            var i :| 0 <= i < |was| && was[i].id == x;
            assert tasks[i].id == x;
          }
        }
      }
      assert ids - left == ids;
    }

    method RunningTasks() returns (tasks: seq<Task>)
      ensures ResultOf(tasks, rows, Running(rows))
    {
      tasks := Select(Running(rows));
    }

    method SlotHolders() returns (holders: map<TaskId, User>)
      ensures holders.Keys == Holders(rows)
      ensures forall id :: id in holders ==> holders[id] == rows[id].username
    {
      holders := map id | id in Holders(rows) :: rows[id].username;
    }

    method StalledTasks(before: int) returns (tasks: seq<Task>)
      ensures ResultOf(tasks, rows, Stalled(rows, before))
      ensures forall task <- tasks ::
                task.row.state == ACTIVE && task.row.progress.Some? && task.row.progress.value < before
      ensures forall id <- rows :: rows[id].state == ACTIVE && rows[id].progress.Some? && rows[id].progress.value < before ==>
                Task(id, rows[id]) in tasks
    {
      tasks := Select(Stalled(rows, before));
      SelectedRows(tasks, rows, Stalled(rows, before));
    }

    method CancelingSince(before: int) returns (tasks: seq<Task>)
      ensures ResultOf(tasks, rows, Overdue(rows, before))
      ensures forall task <- tasks :: task.row.state == CANCELING && task.row.updated < before
      ensures forall id <- rows :: rows[id].state == CANCELING && rows[id].updated < before ==> Task(id, rows[id]) in tasks
    {
      tasks := Select(Overdue(rows, before));
      SelectedRows(tasks, rows, Overdue(rows, before));
    }
  }

  lemma SelectedRows(tasks: seq<Task>, t: Table, ids: set<TaskId>)
    requires ResultOf(tasks, t, ids) && ids <= t.Keys
    ensures forall task <- tasks :: task.id in ids && task.row == t[task.id]
    ensures forall id <- ids :: Task(id, t[id]) in tasks
  {
    forall id <- ids ensures Task(id, t[id]) in tasks {
      var i :| 0 <= i < |tasks| && tasks[i].id == id;
      assert tasks[i] in tasks;
    }
  }

  function Stalled(t: Table, before: int): set<TaskId> {
    set id | id in t && t[id].state == ACTIVE && t[id].progress.Some? && t[id].progress.value < before
  }

  function Overdue(t: Table, before: int): set<TaskId> {
    set id | id in t && t[id].state == CANCELING && t[id].updated < before
  }
}
