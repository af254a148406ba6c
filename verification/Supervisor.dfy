/**
 * The container supervisor. Its queue runs one item at a time; between any two statements of an item, users and
 * containers act, and the process may stop.
 */
module Supervisor {
  import opened Options
  import opened TaskTable
  import opened TaskHistory
  import opened TaskWorld
  import opened TaskProgress
  import opened SlotLine
  import Repository = TaskRepository
  import opened Docker

  function UsersAtLimit(l: Limits, byUser: map<User, nat>): set<User> {
    set u | u in byUser && byUser[u] >= l.perUser
  }

  /** The query excludes exactly the users at their limit. */
  lemma EligibleIsBelowLimit(l: Limits, byUser: map<User, nat>, t: Table)
    requires CountsMatch(byUser, t) && 0 < l.perUser
    ensures forall id :: Repository.Eligible(t, UsersAtLimit(l, byUser), id) <==> BelowUserLimit(l, t, id)
  {
    forall id | id in t
      ensures t[id].username in UsersAtLimit(l, byUser) <==> |RunningOf(t, t[id].username)| >= l.perUser
    {
      var u := t[id].username;
      assert (if u in byUser then byUser[u] else 0) == |RunningOf(t, u)|;
    }
  }

  lemma RightChoice(l: Limits, byUser: map<User, nat>, t: Table, id: TaskId)
    requires CountsMatch(byUser, t) && 0 < l.perUser && |Running(t)| < l.concurrent
    requires Repository.OldestEligible(t, UsersAtLimit(l, byUser), id)
    ensures RightlyChosen(l, t, id)
  {
    EligibleIsBelowLimit(l, byUser, t);
  }

  /** A task ends canceled only if its user cancelled it, and completed only if its container said so. */
  lemma OutcomeTells(state: State, result: Option<Outcome>)
    ensures OutcomeOf(state, result) == CANCELED <==> state == CANCELING && (result == None || result == Some(CANCELED))
    ensures OutcomeOf(state, result) == COMPLETED <==> result == Some(COMPLETED)
  {}

  ghost predicate WaitersApart(ws: Line, t: Table) {
    ValidLine(ws) && Ids(ws) !! Holders(t)
  }

  ghost predicate AllSound(l: Limits, capped: bool, history: seq<Stored>) {
    forall i :: 0 <= i < |history| ==> Sound(l, capped, history[i].rows)
  }

  /** An answer decided from the holders found: the new line keeps clear of them. */
  lemma RequestKeepsApart(ws: Line, t: Table, id: TaskId, u: User, free: int, held: map<User, nat>, now: int)
    requires WaitersApart(ws, t) && id !in Holders(t)
    ensures WaitersApart(Requested(ws, id, u, free, held, now).0, t)
    ensures Requested(ws, id, u, free, held, now).1 ==> 0 < free && id !in Ids(Requested(ws, id, u, free, held, now).0)
  {
    RequestExact(ws, id, u, free, held, now);
  }

  ghost function HoldersOf(t: Table, u: User): set<TaskId> {
    set id | id in t && IsHolder(t, id) && t[id].username == u
  }

  ghost predicate CountsHolders(held: map<User, nat>, t: Table) {
    forall u :: Held(held, u) == |HoldersOf(t, u)|
  }

  /** The line decided on a request, from the slots held in t by each user and those still free. */
  ghost predicate Answered(l: Limits, t: Table, before: Line, after: Line, id: TaskId, u: User, inTurn: bool) {
    exists held, now :: AnsweredWith(l, t, before, after, id, u, inTurn, held, now)
  }

  ghost predicate AnsweredWith(l: Limits, t: Table, before: Line, after: Line, id: TaskId, u: User, inTurn: bool,
                               held: map<User, nat>, now: int) {
    CountsHolders(held, t) && Requested(before, id, u, l.slots - |Holders(t)|, held, now) == (after, inTurn)
  }

  lemma SameHolders(a: World, b: World, u: User)
    requires Interleaves(a, b)
    ensures HoldersOf(a.rows, u) == HoldersOf(b.rows, u)
  {
    InterleavesHolders(a, b);
    forall id ensures id in HoldersOf(a.rows, u) <==> id in HoldersOf(b.rows, u) {
      assert id in Holders(a.rows) <==> id in Holders(b.rows);
    }
  }

  lemma AnsweredEarlier(l: Limits, a: World, b: World, before: Line, after: Line, id: TaskId, u: User, inTurn: bool)
    requires Interleaves(a, b)
    ensures Answered(l, b.rows, before, after, id, u, inTurn) ==> Answered(l, a.rows, before, after, id, u, inTurn)
  {
    hide Requested, HoldersOf, Interleaves, Holders, Held;
    if Answered(l, b.rows, before, after, id, u, inTurn) {
      InterleavesHolders(a, b);
      var held, now :| AnsweredWith(l, b.rows, before, after, id, u, inTurn, held, now);
      forall v ensures Held(held, v) == |HoldersOf(a.rows, v)| {
        SameHolders(a, b, v);
      }
      assert AnsweredWith(l, a.rows, before, after, id, u, inTurn, held, now);
    }
  }

  lemma Decided(l: Limits, t: Table, holders: map<TaskId, User>, before: Line, after: Line, id: TaskId, u: User, inTurn: bool,
                held: map<User, nat>, now: int)
    requires holders.Keys == Holders(t) && forall id :: id in holders ==> holders[id] == t[id].username
    requires forall v :: Held(held, v) == |HeldBy(holders, holders.Keys, v)|
    requires Requested(before, id, u, l.slots - |holders|, held, now) == (after, inTurn)
    ensures Answered(l, t, before, after, id, u, inTurn)
  {
    CountedHolders(held, holders, t);
    hide CountsHolders, Requested;
    assert |holders| == |holders.Keys|;
    assert AnsweredWith(l, t, before, after, id, u, inTurn, held, now);
  }

  /** What a slot request changes of the stored tasks: the holders, by at most the task that asked. */
  ghost predicate SlotTaken(a: World, b: World, id: TaskId, slot: Option<int>) {
    && Evolves(a, b)
    && Running(b.rows) == Running(a.rows)
    && Holders(b.rows) == (if slot.Some? then Holders(a.rows) + {id} else Holders(a.rows))
    && (slot.Some? ==> IsHolder(b.rows, id) && b.rows[id].slot == slot)
    && b.containers.Keys == a.containers.Keys && OnlyExit(a.containers, b.containers)
  }

  lemma TakenLater(a: World, b: World, c: World, id: TaskId, slot: Option<int>)
    requires Interleaves(a, b) && SlotTaken(b, c, id, slot)
    ensures SlotTaken(a, c, id, slot)
  {
    InterleavesExit(a, b);
    EvolvesTransitive(a, b, c);
  }

  lemma NotTaken(a: World, b: World, id: TaskId)
    requires Interleaves(a, b)
    ensures SlotTaken(a, b, id, None)
  {
    InterleavesExit(a, b);
  }

  /** The row read stays the owner's. */
  lemma SameOwner(a: World, b: World, id: TaskId)
    requires Evolves(a, b) && id in a.rows
    ensures id in b.rows && b.rows[id].username == a.rows[id].username
  {}

  lemma CountedHolders(held: map<User, nat>, holders: map<TaskId, User>, t: Table)
    requires holders.Keys == Holders(t) && forall id :: id in holders ==> holders[id] == t[id].username
    requires forall u :: Held(held, u) == |HeldBy(holders, holders.Keys, u)|
    ensures CountsHolders(held, t)
  {
    hide Held;
    forall u ensures HeldBy(holders, holders.Keys, u) == HoldersOf(t, u) {
      assert forall id :: id in HoldersOf(t, u) ==> id in Holders(t);
    }
  }

  /** A grant that finds no row found the task no longer active: it holds no slot. */
  lemma GrantFails(t: Table, id: TaskId, now: int)
    requires id !in Holders(t) && !Apply(t, Op.GrantSlot(id, now)).1
    ensures id in t ==> t[id].state != ACTIVE
    ensures After(t, Op.GrantSlot(id, now)) == t
  {
    assert id in t && t[id].state == ACTIVE ==> !IsHolder(t, id);
  }

  class ContainerSupervisor {
    const repository: Repository.TaskRepository
    const docker: DockerEngine
    const workspace: TaskWorkspace
    const slots: LocalProcessingSlots
    const limits: Limits
    /** Whether the tasks it took over were within the limits. */
    ghost const capped: bool

    var watched: set<TaskId>
    var stopping: set<TaskId>

    /** Submissions still to come while the current item runs. */
    var submissions: nat
    /** Every state there has been, one statement or engine call after the other. */
    var history: History
    /** Tasks whose container the supervisor removed while they were running. */
    ghost var orphaned: set<TaskId>

    ghost function Now(): World
      reads repository, docker, this`submissions
    {
      World(repository.rows, docker.containers, submissions)
    }

    ghost predicate Valid()
      reads repository, slots, this`history
    {
      && 0 < limits.concurrent && 0 < limits.perUser && 0 < limits.slots
      && Sound(limits, capped, repository.rows)
      && WaitersApart(slots.waiters, repository.rows)
      && AllSound(limits, capped, history)
      && AllSteps(limits, history)
      && StepOk(limits, history, repository.rows)
    }

    /** The last recorded state is the present one. */
    ghost predicate Current()
      reads repository, docker, workspace, this`history
    {
      && history != []
      && Last(history).rows == repository.rows && Last(history).containers == docker.containers
      && Last(history).results == workspace.results
    }

    constructor (repository: Repository.TaskRepository, docker: DockerEngine, workspace: TaskWorkspace, limits: Limits,
                 ghost capped: bool)
      requires 0 < limits.concurrent && 0 < limits.perUser && 0 < limits.slots
      requires Sound(limits, capped, repository.rows)
      ensures Valid() && this.repository == repository && this.docker == docker && this.workspace == workspace
      ensures this.limits == limits && this.capped == capped && fresh(slots) && history == [] && orphaned == {}
    {
      this.repository, this.docker, this.workspace, this.limits, this.capped := repository, docker, workspace, limits, capped;
      slots := new LocalProcessingSlots();
      watched, stopping, submissions, history, orphaned := {}, {}, 0, [], {};
    }

    // ---- The world outside the queue

    method Record()
      requires Valid()
      modifies this`history
      ensures Valid() && Current()
      ensures history == old(history) + [Stored(repository.rows, docker.containers, workspace.results, watched, stopping)]
    {
      hide AllSteps, StepOk, Sound, WaitersApart;
      ghost var s := Stored(repository.rows, docker.containers, workspace.results, watched, stopping);
      RecordStep(limits, history, s);
      history := history + [Stored(repository.rows, docker.containers, workspace.results, watched, stopping)];
    }

    /** One statement of a user command, or one thing a container or the engine does. */
    method ActOutside()
      requires Valid() && Current()
      modifies repository, docker, workspace, this`watched, this`stopping, this`submissions
      ensures Valid() && Interleaves(old(Now()), Now()) && workspace.results.Keys == old(workspace.results.Keys)
    {
      hide Interleaves, Sound, WaitersApart, AllSound, AllSteps, StepOk;
      var id: TaskId := *;
      var user: User := *;
      var ids: set<TaskId> := *;
      var now: int := *;
      var submits: bool := *;
      ghost var before := Now();
      if 0 < submissions && submits {
        var ok := repository.Insert(id, user, now);
        if ok {
          submissions := submissions - 1;
        }
        OutsideKept(before, Op.Insert(id, user, now));
      } else if * {
        var ok := repository.Transition(id, {PENDING}, CANCELED, now);
        OutsideKept(before, Op.CancelPending(id, now));
      } else if * {
        var ok := repository.Transition(id, {ACTIVE}, CANCELING, now);
        OutsideKept(before, Op.RequestCancel(id, now));
      } else if * {
        var ok := repository.RecordProgress(id, now);
        OutsideKept(before, Op.RecordProgress(id, now));
      } else if * {
        var ok := repository.Remove(id);
        OutsideKept(before, Op.Remove(id));
      } else if * {
        var ok := repository.RemoveFinishedUserTasks(user, ids);
        OutsideKept(before, Op.RemoveFinished(user, ids));
      } else {
        var file: ResultFile := *;
        var writes: bool := *;
        var exits: bool := *;
        if id in workspace.results && writes {
          workspace.results := workspace.results[id := file];
        }
        if id in docker.containers && exits {
          docker.containers := docker.containers[id := false];
        }
        SettleOutside(id);
        ContainersKept(before);
      }
    }

    /** Waits and stops come to an end, and a user who cancelled has the container stopped. */
    method SettleOutside(id: TaskId)
      modifies docker`signals, this`watched, this`stopping
      ensures watched <= old(watched)
    {
      var exited: set<TaskId> := *;
      var settled: set<TaskId> := *;
      var cancelled: bool := *;
      watched, stopping := watched - exited, stopping - settled;
      if cancelled {
        Stop(id);
      }
    }

    lemma OutsideKept(before: World, op: Op)
      requires Outside(op) && Sound(limits, capped, before.rows) && WaitersApart(slots.waiters, before.rows)
      requires history != [] && Last(history).rows == before.rows
      requires Now().rows == After(before.rows, op) && Now().containers == before.containers
      requires before.submissions == submissions + if op.Insert? && Apply(before.rows, op).1 then 1 else 0
      ensures Interleaves(before, Now())
      ensures Sound(limits, capped, Now().rows) && WaitersApart(slots.waiters, Now().rows) && StepOk(limits, history, Now().rows)
    {
      OutsideStatement(limits, history, op);
      OutsideInterleaves(before, op, Now());
      StepKeepsConsistent(before.rows, op);
      InterleavingKeepsSound(limits, capped, before, Now());
      InterleavesHolders(before, Now());
    }

    lemma ContainersKept(before: World)
      requires Now().rows == before.rows && submissions == before.submissions
      requires Now().containers.Keys == before.containers.Keys && OnlyExit(before.containers, Now().containers)
      ensures Interleaves(before, Now())
    {}

    /** Anything that can happen outside the queue between two statements of an item, and the record of all of it. */
    method Interfere()
      requires Valid()
      modifies repository, docker, workspace, this`watched, this`stopping, this`submissions, this`history
      ensures Valid() && Interleaves(old(Now()), Now()) && Evolves(old(Now()), Now())
      ensures Current() && old(history) < history && Quiet(history, |old(history)|, Running(repository.rows))
      ensures Running(repository.rows) == old(Running(repository.rows)) && Holders(repository.rows) == old(Holders(repository.rows))
      ensures docker.containers.Keys == old(docker.containers.Keys) && OnlyExit(old(docker.containers), docker.containers)
      ensures workspace.results.Keys == old(workspace.results.Keys)
    {
      hide Evolves, Later, Running, Holders, OnlyExit, Interleaves, Sound, WaitersApart, AllSound, AllSteps, StepOk, Quiet;
      ghost var start := Now();
      ghost var h := history;
      NothingRecorded(h, Running(start.rows));
      Record();
      QuietRecorded(h, |h|, Running(start.rows), Last(history));
      NothingInterleaves(Now());
      var steps: nat := *;
      while 0 < steps
        invariant Valid() && Interleaves(start, Now()) && workspace.results.Keys == old(workspace.results.Keys)
        invariant Current() && h < history && Quiet(history, |h|, Running(start.rows))
      {
        ghost var before := Now();
        ghost var recorded := history;
        ActOutside();
        InterleavesTransitive(start, before, Now());
        InterleavesExit(start, Now());
        Record();
        QuietRecorded(recorded, |h|, Running(start.rows), Last(history));
        steps := steps - 1;
      }
      InterleavesExit(start, Now());
    }

    lemma NothingRecorded(h: History, running: set<TaskId>)
      ensures Quiet(h, |h|, running)
    {}

    // ---- Slots

    /** A release names its grant; without one it releases whatever grant the task holds. */
    method EndSlot(id: TaskId, slot: Option<int>)
      requires Valid()
      modifies repository, docker, workspace, this`watched, this`stopping, this`submissions, this`history
      ensures old(history) <= history
      ensures Valid() && Evolves(old(Now()), Now())
      ensures Running(repository.rows) == old(Running(repository.rows))
      ensures old(Holders(repository.rows)) - {id} <= Holders(repository.rows) <= old(Holders(repository.rows))
      ensures slot.None? ==> id !in Holders(repository.rows)
      ensures GrantEnded(old(Now()), Now(), id, slot)
      ensures docker.containers.Keys == old(docker.containers.Keys) && OnlyExit(old(docker.containers), docker.containers)
      ensures workspace.results.Keys == old(workspace.results.Keys)
    {
      hide Later, Consistent, AllSound, AllSteps, StepOk, OnlyExit, Running, Holders, GrantEnded, Quiet;
      ghost var w0 := Now();
      var grant := slot;
      if grant.None? {
        Interfere();
        InterleavesExit(w0, Now());
        grant := repository.SlotTime(id);
        if grant.None? {
          NoSlotNoHolder(repository.rows, id);
          NoGrantEnded(w0, Now(), id);
          return;
        }
      }
      ghost var w1 := Now();
      Interfere();
      ghost var w2 := Now();
      NothingInterleaves(w0);
      InterleavesTransitive(w0, w1, w2);
      InterleavesExit(w0, w2);
      if slot.None? {
        SlotKept(w1, w2, id);
        SlotKept(w0, w2, id);
      }
      QuietStatement(limits, history, Op.ReleaseSlot(id, grant.value));
      var ok := repository.EndGrant(id, grant.value);
      SlotSets(w2.rows, Op.ReleaseSlot(id, grant.value));
      EndedGrant(w0, w2, Now(), id, slot, grant.value);
      EndKeepsSound(limits, capped, w2.rows, Op.ReleaseSlot(id, grant.value));
      QueueStepEvolves(w2, Op.ReleaseSlot(id, grant.value), Now());
      EvolvesTransitive(w0, w2, Now());
    }

    /** Of all stored grants only the one named has ended, or whichever the task held when none is named. */
    ghost predicate GrantEnded(a: World, b: World, id: TaskId, slot: Option<int>) {
      forall t <- a.rows :: t in b.rows &&
        b.rows[t].slot == (if t == id && (slot.None? || a.rows[t].slot == slot) then None else a.rows[t].slot)
    }

    lemma NoGrantEnded(a: World, b: World, id: TaskId)
      requires Interleaves(a, b) && (id in b.rows ==> b.rows[id].slot == None)
      ensures GrantEnded(a, b, id, None)
    {}

    lemma EndedGrant(a: World, b: World, c: World, id: TaskId, slot: Option<int>, grant: int)
      requires Interleaves(a, b) && c.rows == After(b.rows, Op.ReleaseSlot(id, grant))
      requires slot.Some? ==> grant == slot.value
      requires slot.None? && id in b.rows ==> b.rows[id].slot == Some(grant)
      ensures GrantEnded(a, c, id, slot)
    {}

    method ForgetSlot(id: TaskId)
      requires Valid()
      modifies repository, docker, workspace, slots, this`watched, this`stopping, this`submissions, this`history
      ensures old(history) <= history
      ensures Valid() && Evolves(old(Now()), Now())
      ensures Running(repository.rows) == old(Running(repository.rows))
      ensures old(Holders(repository.rows)) - {id} <= Holders(repository.rows) <= old(Holders(repository.rows))
      ensures id !in Holders(repository.rows) && id !in Ids(slots.waiters)
      ensures docker.containers.Keys == old(docker.containers.Keys) && OnlyExit(old(docker.containers), docker.containers)
      ensures workspace.results.Keys == old(workspace.results.Keys)
    {
      hide Evolves, Later, Sound, AllSound, AllSteps, StepOk, OnlyExit, Running, Holders;
      LeaveIds(slots.waiters, id);
      slots.Remove(id);
      EndSlot(id, None);
    }

    /**
     * A holder that asks again gets a new grant. Another task gets a slot only if one is free and the line, with the
     * slots held and free as stored, has the task in turn; if it is still active and gets none, it was not in turn.
     * Nothing else changes, and no task is both a holder and a waiter.
     */
    method RequestSlot(id: TaskId) returns (slot: Option<int>)
      requires Valid()
      modifies repository, docker, workspace, slots, this`watched, this`stopping, this`submissions, this`history
      ensures Valid() && SlotTaken(old(Now()), Now(), id, slot)
      ensures id in old(Holders(repository.rows)) ==> slot.Some? && slots.waiters == old(slots.waiters)
      ensures id !in old(Holders(repository.rows)) && id in repository.rows && (slot.Some? || repository.rows[id].state == ACTIVE) ==>
        && Answered(limits, old(repository.rows), old(slots.waiters), slots.waiters, id, repository.rows[id].username, slot.Some?)
        && (slot.Some? ==> old(|Holders(repository.rows)|) < limits.slots)
    {
      hide Sound, WaitersApart, AllSound, AllSteps, StepOk, OnlyExit, Running, Holders, Interleaves, Evolves, Apply, Requested,
        Answered, SlotTaken;
      ghost var w0 := Now();
      Interfere();
      ghost var w1 := Now();
      InterleavesHolders(w0, w1);
      var holders := repository.SlotHolders();
      if id in holders {
        Interfere();
        ghost var w2 := Now();
        InterleavesTransitive(w0, w1, w2);
        var now: int := *;
        QuietStatement(limits, history, Op.RenewSlot(id, now));
        slot := repository.RenewSlot(id, now);
        Renewed(w2, id, now);
        TakenLater(w0, w2, Now(), id, slot);
        return;
      }
      HoldersStored(holders, w1.rows);
      slot := JoinLine(id, holders);
      TakenLater(w0, w1, Now(), id, slot);
      if id in repository.rows {
        AnsweredEarlier(limits, w0, w1, old(slots.waiters), slots.waiters, id, repository.rows[id].username, slot.Some?);
      }
    }

    /** A request by a task that holds no slot: it is looked up again, and joins the line if it is active. */
    method JoinLine(id: TaskId, holders: map<TaskId, User>) returns (slot: Option<int>)
      requires Valid() && holders.Keys == Holders(repository.rows) && id !in holders
      requires forall h :: h in holders ==> h in repository.rows && holders[h] == repository.rows[h].username
      modifies repository, docker, workspace, slots, this`watched, this`stopping, this`submissions, this`history
      ensures Valid() && SlotTaken(old(Now()), Now(), id, slot)
      ensures id in repository.rows && (slot.Some? || repository.rows[id].state == ACTIVE) ==>
        && Answered(limits, old(repository.rows), old(slots.waiters), slots.waiters, id, repository.rows[id].username, slot.Some?)
        && (slot.Some? ==> |holders| < limits.slots)
    {
      hide Sound, WaitersApart, AllSound, AllSteps, StepOk, OnlyExit, Running, Holders, Interleaves, Evolves, Apply, Requested,
        Answered, SlotTaken;
      ghost var w0 := Now();
      Interfere();
      ghost var w1 := Now();
      InterleavesHolders(w0, w1);
      var current := repository.GetTask(id);
      if current.None? || current.value.state != ACTIVE {
        NotTaken(w0, w1, id);
        return None;
      }
      forall h | h in holders ensures h in repository.rows && holders[h] == repository.rows[h].username {
        SameOwner(w0, w1, h);
      }
      slot := TakePlace(id, current.value.username, holders);
      TakenLater(w0, w1, Now(), id, slot);
      TakenEvolves(w1, Now(), id, slot);
      SameOwner(w1, Now(), id);
      AnsweredEarlier(limits, w0, w1, old(slots.waiters), slots.waiters, id, current.value.username, slot.Some?);
    }

    /** The last part of a slot request: joining the line and, when in turn, taking the free slot. */
    method TakePlace(id: TaskId, username: User, holders: map<TaskId, User>) returns (slot: Option<int>)
      requires Valid() && holders.Keys == Holders(repository.rows) && id !in holders
      requires forall h :: h in holders ==> h in repository.rows && holders[h] == repository.rows[h].username
      modifies repository, docker, workspace, slots, this`watched, this`stopping, this`submissions, this`history
      ensures Valid() && SlotTaken(old(Now()), Now(), id, slot)
      ensures id in repository.rows && (slot.Some? || repository.rows[id].state == ACTIVE) ==>
        && Answered(limits, old(repository.rows), old(slots.waiters), slots.waiters, id, username, slot.Some?)
        && (slot.Some? ==> |holders| < limits.slots)
    {
      hide Sound, WaitersApart, AllSound, AllSteps, StepOk, OnlyExit, Running, Holders, Interleaves, Evolves, Apply, Requested,
        Answered, SlotTaken;
      ghost var w0 := Now();
      var now: int := *;
      var held := CountByUser(holders);
      assert |holders| == |holders.Keys|;
      RequestKeepsApart(slots.waiters, repository.rows, id, username, limits.slots - |holders|, held, now);
      var inTurn := slots.Request(id, username, limits.slots - |holders|, held, now);
      Decided(limits, w0.rows, holders, old(slots.waiters), slots.waiters, id, username, inTurn, held, now);
      if !inTurn {
        NothingInterleaves(w0);
        NotTaken(w0, Now(), id);
        return None;
      }
      Interfere();
      ghost var w1 := Now();
      InterleavesHolders(w0, w1);
      var grant: int := *;
      QuietStatement(limits, history, Op.GrantSlot(id, grant));
      slot := repository.GrantSlot(id, grant);
      Granted(w1, id, grant);
      TakenLater(w0, w1, Now(), id, slot);
      if slot.None? {
        GrantFails(w1.rows, id, grant);
      }
    }

    lemma TakenEvolves(a: World, b: World, id: TaskId, slot: Option<int>)
      requires SlotTaken(a, b, id, slot)
      ensures Evolves(a, b)
    {}

    lemma HoldersStored(holders: map<TaskId, User>, t: Table)
      requires holders.Keys == Holders(t)
      ensures forall h :: h in holders ==> h in t
    {
      forall h | h in holders ensures h in t {
        assert h in Holders(t);
      }
    }

    lemma Renewed(w: World, id: TaskId, now: int)
      requires Sound(limits, capped, w.rows) && id in Holders(w.rows) && WaitersApart(slots.waiters, w.rows)
      requires repository.rows == After(w.rows, Op.RenewSlot(id, now)) && submissions == w.submissions
      requires docker.containers == w.containers
      ensures Apply(w.rows, Op.RenewSlot(id, now)).1 && SlotTaken(w, Now(), id, Some(now))
      ensures Sound(limits, capped, repository.rows) && WaitersApart(slots.waiters, repository.rows)
    {
      SlotSets(w.rows, Op.RenewSlot(id, now));
      RenewalFinds(w.rows, id, now);
      EndKeepsSound(limits, capped, w.rows, Op.RenewSlot(id, now));
      QueueStepEvolves(w, Op.RenewSlot(id, now), Now());
      hide Apply, Evolves, Running, Sound;
      assert Holders(w.rows) + {id} == Holders(w.rows);
    }

    lemma RenewalFinds(t: Table, id: TaskId, now: int)
      requires id in Holders(t)
      ensures Apply(t, Op.RenewSlot(id, now)).1
      ensures var t' := After(t, Op.RenewSlot(id, now)); IsHolder(t', id) && t'[id].slot == Some(now)
    {}

    lemma Granted(w: World, id: TaskId, now: int)
      requires Sound(limits, capped, w.rows) && |Holders(w.rows)| < limits.slots
      requires WaitersApart(slots.waiters, w.rows) && id !in Ids(slots.waiters)
      requires repository.rows == After(w.rows, Op.GrantSlot(id, now)) && submissions == w.submissions
      requires docker.containers == w.containers
      ensures Sound(limits, capped, repository.rows) && WaitersApart(slots.waiters, repository.rows)
      ensures SlotTaken(w, Now(), id, if Apply(w.rows, Op.GrantSlot(id, now)).1 then Some(now) else None)
    {
      hide Apply, Evolves, Running, Holders, Sound, WaitersApart, SlotTaken;
      GrantSound(w.rows, id, now);
      GrantApart(slots.waiters, w.rows, id, now);
      GrantTakes(w, id, now, Now());
    }

    lemma GrantApart(ws: Line, t: Table, id: TaskId, now: int)
      requires WaitersApart(ws, t) && id !in Ids(ws)
      ensures WaitersApart(ws, After(t, Op.GrantSlot(id, now)))
    {
      hide Apply, Running, Holders, ValidLine;
      SlotSets(t, Op.GrantSlot(id, now));
    }

    lemma GrantTakes(w: World, id: TaskId, now: int, w': World)
      requires w'.rows == After(w.rows, Op.GrantSlot(id, now)) && w'.submissions == w.submissions && w'.containers == w.containers
      ensures SlotTaken(w, w', id, if Apply(w.rows, Op.GrantSlot(id, now)).1 then Some(now) else None)
    {
      hide Apply, Evolves, Running, Holders;
      SlotSets(w.rows, Op.GrantSlot(id, now));
      GrantHolds(w.rows, id, now);
      QueueStepEvolves(w, Op.GrantSlot(id, now), w');
    }

    lemma GrantHolds(t: Table, id: TaskId, now: int)
      ensures Apply(t, Op.GrantSlot(id, now)).1 ==> var t' := After(t, Op.GrantSlot(id, now)); IsHolder(t', id) && t'[id].slot == Some(now)
    {}

    lemma GrantSound(t: Table, id: TaskId, now: int)
      requires Sound(limits, capped, t) && |Holders(t)| < limits.slots
      ensures Sound(limits, capped, After(t, Op.GrantSlot(id, now)))
    {
      StepKeepsConsistent(t, Op.GrantSlot(id, now));
      if capped {
        GrantWithin(limits, t, id, now);
      }
    }

    // ---- Containers

    /** The engine removes a container; the books note when its task was still running. */
    method RemoveContainer(id: TaskId) returns (ok: bool)
      requires Valid()
      modifies repository, docker, workspace, this`watched, this`stopping, this`submissions, this`history, this`orphaned
      ensures old(history) <= history
      ensures Valid() && Evolves(old(Now()), Now())
      ensures Running(repository.rows) == old(Running(repository.rows)) && Holders(repository.rows) == old(Holders(repository.rows))
      ensures old(docker.containers.Keys) - {id} <= docker.containers.Keys <= old(docker.containers.Keys)
      ensures ok ==> id !in docker.containers
      ensures id in Running(repository.rows) && id in old(docker.containers) ==> orphaned == old(orphaned) + {id}
      ensures id !in Running(repository.rows) || id !in old(docker.containers) ==> orphaned == old(orphaned)
      ensures workspace.results.Keys == old(workspace.results.Keys)
    {
      hide Sound, WaitersApart, AllSound, AllSteps, StepOk, OnlyExit, Running, Holders, Interleaves, Evolves;
      ghost var w0 := Now();
      Interfere();
      ghost var w1 := Now();
      ok := docker.Remove(id);
      if id in Running(repository.rows) && id in old(docker.containers) {
        orphaned := orphaned + {id};
      }
      SameRowsEvolve(w1, Now());
      EvolvesTransitive(w0, w1, Now());
    }

    /**
     * Removes the container, then in any case the workspace and the slot. Answers whether the removal succeeded; a
     * failed removal is thrown on by the source.
     */
    method Discard(id: TaskId) returns (ok: bool)
      requires Valid()
      modifies repository, docker, workspace, slots, this`watched, this`stopping, this`submissions, this`history, this`orphaned
      ensures old(history) <= history
      ensures Valid() && Evolves(old(Now()), Now())
      ensures Running(repository.rows) == old(Running(repository.rows)) && Holders(repository.rows) <= old(Holders(repository.rows))
      ensures id !in Holders(repository.rows) && id !in Ids(slots.waiters)
      ensures old(docker.containers.Keys) - {id} <= docker.containers.Keys <= old(docker.containers.Keys)
      ensures ok ==> id !in docker.containers
      ensures id in Running(repository.rows) && id in old(docker.containers) ==> orphaned == old(orphaned) + {id}
      ensures id !in Running(repository.rows) || id !in old(docker.containers) ==> orphaned == old(orphaned)
      ensures workspace.results.Keys == old(workspace.results.Keys) - {id}
    {
      hide Sound, WaitersApart, AllSound, AllSteps, StepOk, OnlyExit, Running, Holders, Interleaves, Evolves;
      ghost var w0 := Now();
      ok := RemoveContainer(id);
      ghost var w1 := Now();
      Interfere();
      ghost var w2 := Now();
      workspace.Remove(id);
      ForgetSlot(id);
      EvolvesTransitive(w0, w1, w2);
      EvolvesTransitive(w0, w2, Now());
    }

    /**
     * Activates a pending task and gives it a container. A launch that fails, or loses the race to a cancel, leaves
     * the task ended; threw says that the clean-up after a failure itself failed. Only a task that was activated has
     * its container removed again.
     */
    method LaunchTask(id: TaskId) returns (launched: bool, threw: bool, ghost activated: bool)
      requires Valid() && Current() && RightlyChosen(limits, repository.rows, id)
      modifies repository, docker, workspace, slots, this`watched, this`stopping, this`submissions, this`history, this`orphaned
      ensures old(history) <= history
      ensures Valid() && LaunchEffect(old(Now()), Now(), id, launched, threw) && orphaned == old(orphaned)
      ensures launched ==> id in docker.containers && docker.containers[id] && id in watched
      ensures activated <==> RanSince(history, |old(history)|, id)
      ensures activated && !launched ==> Ended(repository.rows, id) && (!threw ==> id !in docker.containers)
      ensures !activated ==> !launched && !threw && docker.containers.Keys == old(docker.containers.Keys)
    {
      hide Sound, WaitersApart, AllSound, AllSteps, StepOk, OnlyExit, Running, RunningOf, Holders, ActivateEffect, StartEffect,
        LaunchEffect, RightlyChosen, Ended, Quiet, RanSince;
      ghost var w0 := Now();
      ghost var h := history;
      launched, threw := false, false;
      ChosenIsPending(repository.rows, id);
      PendingNotRunning(repository.rows, id);
      var ok := ActivateTask(id);
      activated := ok;
      ghost var w1 := Now();
      if !ok {
        NotActivatedEffect(w0, w1, id);
        NeverRan(h, history, id, Running(w0.rows));
        return;
      }
      IsRunningNow(w0, w1, id);
      ghost var started := history;
      launched, threw := StartActivated(id);
      RanEarlier(history, |h|, |started|, id);
      ActivatedEffect(w0, w1, Now(), id, launched, threw);
    }

    lemma NeverRan(h: History, later: History, id: TaskId, running: set<TaskId>)
      requires Quiet(later, |h|, running) && id !in running
      ensures !RanSince(later, |h|, id)
    {
      hide Running;
    }

    lemma RanThen(h: History, from: nat, id: TaskId)
      requires from < |h| && id in Running(h[from].rows)
      ensures RanSince(h, from, id)
    {
      hide Running;
    }

    lemma StillRan(h: History, later: History, from: nat, id: TaskId)
      requires RanSince(h, from, id) && h <= later
      ensures RanSince(later, from, id)
    {
      hide Running;
      var k :| from <= k < |h| && id in Running(h[k].rows);
      assert later[k] == h[k];
    }

    lemma RanEarlier(h: History, from: nat, mid: nat, id: TaskId)
      requires RanSince(h, mid, id) && from <= mid
      ensures RanSince(h, from, id)
    {
      hide Running;
    }

    lemma IsRunningNow(a: World, b: World, id: TaskId)
      requires ActivateEffect(a, b, id, true)
      ensures id in Running(b.rows)
    {}

    /** The rest of a launch, once its task is active. */
    method StartActivated(id: TaskId) returns (launched: bool, threw: bool)
      requires Valid() && id in Running(repository.rows)
      modifies repository, docker, workspace, slots, this`watched, this`stopping, this`submissions, this`history, this`orphaned
      ensures old(history) <= history
      ensures Valid() && StartEffect(old(Now()), Now(), id, launched, threw) && orphaned == old(orphaned)
      ensures launched ==> id in docker.containers && docker.containers[id] && id in watched
      ensures RanSince(history, |old(history)|, id)
      ensures !launched ==> Ended(repository.rows, id) && (!threw ==> id !in docker.containers)
    {
      hide Sound, WaitersApart, AllSound, AllSteps, StepOk, Running, Holders, Evolves, Ended, RanSince;
      ghost var w0 := Now();
      ghost var h := history;
      var ran := GiveContainer(id);
      RanThen(history, |h|, id);
      ghost var given := history;
      ghost var w1 := Now();
      if ran {
        Watch(id);
        return true, false;
      }
      launched := false;
      threw := AbandonLaunch(id);
      EvolvesTransitive(w0, w1, Now());
      StillRan(given, history, |h|, id);
    }

    /** The first statement of a launch. */
    method ActivateTask(id: TaskId) returns (activated: bool)
      requires Valid() && Current() && RightlyChosen(limits, repository.rows, id)
      modifies repository, docker, workspace, this`watched, this`stopping, this`submissions, this`history
      ensures old(history) <= history
      ensures Valid() && ActivateEffect(old(Now()), Now(), id, activated)
      ensures docker.containers.Keys == old(docker.containers.Keys)
      ensures !activated ==> Quiet(history, |old(history)|, old(Running(repository.rows)))
    {
      hide Sound, WaitersApart, AllSound, AllSteps, StepOk, OnlyExit, Running, RunningOf, Holders, Interleaves, Evolves,
        Apply, Begun, RightlyChosen, ChosenAt, Quiet;
      ghost var w0 := Now();
      ghost var h := history;
      ChosenIsPending(repository.rows, id);
      PendingNotRunning(repository.rows, id);
      Interfere();
      ghost var w1 := Now();
      ChosenStays(limits, h, history, id);
      var hash: int := *;
      var now: int := *;
      ActivateStatement(limits, history, |h| - 1, id, hash, now);
      activated := repository.Activate(id, hash, now);
      if activated {
        Activated(w0, w1, id, hash, now);
      } else {
        NotActivated(w0, w1, id, hash, now);
      }
    }

    method RunContainer(id: TaskId) returns (ok: bool)
      requires Valid()
      modifies repository, docker, workspace, this`watched, this`stopping, this`submissions, this`history
      ensures old(history) <= history
      ensures Valid() && Evolves(old(Now()), Now())
      ensures Running(repository.rows) == old(Running(repository.rows)) && Holders(repository.rows) == old(Holders(repository.rows))
      ensures old(docker.containers.Keys) <= docker.containers.Keys <= old(docker.containers.Keys) + {id}
      ensures ok ==> id !in old(docker.containers) && id in docker.containers && docker.containers[id]
    {
      hide Sound, WaitersApart, AllSound, AllSteps, StepOk, OnlyExit, Running, Holders, Interleaves, Evolves;
      ghost var w0 := Now();
      Interfere();
      ghost var w1 := Now();
      ok := docker.Run(id);
      SameRowsEvolve(w1, Now());
      EvolvesTransitive(w0, w1, Now());
    }

    /** Writes the task's workspace, then runs its container. */
    method GiveContainer(id: TaskId) returns (ran: bool)
      requires Valid()
      modifies repository, docker, workspace, this`watched, this`stopping, this`submissions, this`history
      ensures old(history) <= history
      ensures Valid() && Evolves(old(Now()), Now())
      ensures Running(repository.rows) == old(Running(repository.rows)) && Holders(repository.rows) == old(Holders(repository.rows))
      ensures old(docker.containers.Keys) <= docker.containers.Keys <= old(docker.containers.Keys) + {id}
      ensures ran ==> id !in old(docker.containers) && id in docker.containers && docker.containers[id]
      ensures |old(history)| < |history| && Running(history[|old(history)|].rows) == old(Running(repository.rows))
    {
      hide Sound, WaitersApart, AllSound, AllSteps, StepOk, OnlyExit, Running, Holders, Interleaves, Evolves;
      ghost var w0 := Now();
      Interfere();
      ghost var w1 := Now();
      var prepared := workspace.Prepare(id);
      ran := false;
      if prepared {
        ran := RunContainer(id);
        EvolvesTransitive(w0, w1, Now());
      }
    }

    /** The statement with which collect, reconcile and a failed launch end a running task. */
    method FinishTask(id: TaskId, outcome: Outcome)
      requires Valid() && id in Running(repository.rows)
      requires outcome == CANCELED ==> CancelingIn(repository.rows, id)
      requires outcome == COMPLETED ==> CompletedIn(history, id)
      modifies repository, docker, workspace, this`watched, this`stopping, this`submissions, this`history
      ensures old(history) <= history
      ensures Valid() && Evolves(old(Now()), Now()) && Ended(repository.rows, id)
      ensures id in repository.rows && repository.rows[id].state == outcome
      ensures Running(repository.rows) == old(Running(repository.rows)) - {id}
      ensures Holders(repository.rows) <= old(Holders(repository.rows))
      ensures docker.containers.Keys == old(docker.containers.Keys)
      ensures workspace.results.Keys == old(workspace.results.Keys)
    {
      hide Sound, WaitersApart, AllSound, AllSteps, StepOk, OnlyExit, Running, Holders, Interleaves, Evolves, Ended, Apply,
        TaskTable.Transition, CancelingIn, CompletedIn, Quiet;
      ghost var w0 := Now();
      ghost var h := history;
      Interfere();
      ghost var w1 := Now();
      if outcome == CANCELED {
        CancelingStays(w0, w1, id);
      }
      if outcome == COMPLETED {
        StillCompleted(h, history, id);
      }
      var now: int := *;
      FinishStatement(w1, id, outcome, now);
      var ended := repository.Transition(id, RUNNING_STATES, outcome, now);
      FinishedRunning(w1, id, outcome, now);
      EvolvesTransitive(w0, w1, Now());
    }

    lemma StillCompleted(h: History, later: History, id: TaskId)
      requires CompletedIn(h, id) && h <= later
      ensures CompletedIn(later, id)
    {
      var j :| 0 <= j < |h| && ResultIn(h[j].results, id) == Some(COMPLETED);
      assert later[j] == h[j];
    }

    lemma FinishStatement(w: World, id: TaskId, outcome: Outcome, now: int)
      requires history != [] && Last(history).rows == w.rows
      requires outcome == CANCELED ==> CancelingIn(w.rows, id)
      requires outcome == COMPLETED ==> CompletedIn(history, id)
      ensures StepOk(limits, history, TaskTable.Transition(w.rows, id, RUNNING_STATES, outcome, now).0)
    {
      EndStatement(limits, history, Op.Finish(id, outcome, now));
    }

    /** What a launch that failed does about it. */
    method AbandonLaunch(id: TaskId) returns (threw: bool)
      requires Valid() && id in Running(repository.rows)
      modifies repository, docker, workspace, slots, this`watched, this`stopping, this`submissions, this`history, this`orphaned
      ensures old(history) <= history
      ensures Valid() && Evolves(old(Now()), Now()) && Ended(repository.rows, id)
      ensures Running(repository.rows) == old(Running(repository.rows)) - {id}
      ensures Holders(repository.rows) <= old(Holders(repository.rows))
      ensures old(docker.containers.Keys) - {id} <= docker.containers.Keys <= old(docker.containers.Keys)
      ensures !threw ==> id !in docker.containers
      ensures orphaned == old(orphaned)
    {
      hide Sound, WaitersApart, AllSound, AllSteps, StepOk, Running, Holders, Evolves, Ended;
      ghost var w0 := Now();
      FinishTask(id, FAILED);
      ghost var w1 := Now();
      var removed := Discard(id);
      threw := !removed;
      EvolvesTransitive(w0, w1, Now());
      EndedStays(w1, Now(), id);
      EndedIsNotRunning(repository.rows, id);
    }

    lemma PendingNotRunning(t: Table, id: TaskId)
      requires id in t && t[id].state == PENDING
      ensures id !in Running(t)
    {}

    lemma NotActivated(w0: World, w1: World, id: TaskId, hash: int, now: int)
      requires id in w0.rows && w0.rows[id].state == PENDING && Interleaves(w0, w1)
      requires !Apply(w1.rows, Op.Activate(id, hash, now)).1
      ensures Begun(w1.rows, id) && After(w1.rows, Op.Activate(id, hash, now)) == w1.rows
    {}

    /** Activation keeps the stored tasks sound: nothing but the queue adds running tasks, so the room found is still there. */
    lemma Activated(w0: World, w1: World, id: TaskId, hash: int, now: int)
      requires Sound(limits, capped, w1.rows) && WaitersApart(slots.waiters, w1.rows) && Interleaves(w0, w1)
      requires BelowUserLimit(limits, w0.rows, id) && |Running(w0.rows)| < limits.concurrent
      requires Apply(w1.rows, Op.Activate(id, hash, now)).1
      requires repository.rows == After(w1.rows, Op.Activate(id, hash, now))
      requires docker.containers == w1.containers && submissions == w1.submissions
      ensures Sound(limits, capped, repository.rows) && WaitersApart(slots.waiters, repository.rows)
      ensures Running(repository.rows) == Running(w0.rows) + {id} && Holders(repository.rows) == Holders(w0.rows)
      ensures Evolves(w0, Now()) && Begun(repository.rows, id)
    {
      InterleavesHolders(w0, w1);
      InterleavesRunningOf(w0, w1, w0.rows[id].username);
      ActivateSets(w1.rows, id, hash, now);
      StepKeepsConsistent(w1.rows, Op.Activate(id, hash, now));
      QueueStepEvolves(w1, Op.Activate(id, hash, now), Now());
      EvolvesTransitive(w0, w1, Now());
      if capped {
        LaunchWithin(limits, w1.rows, id, hash, now);
      }
    }

    lemma FinishedRunning(w: World, id: TaskId, outcome: Outcome, now: int)
      requires Sound(limits, capped, w.rows) && WaitersApart(slots.waiters, w.rows) && id in Running(w.rows)
      requires repository.rows == TaskTable.Transition(w.rows, id, RUNNING_STATES, outcome, now).0
      requires docker.containers == w.containers && submissions == w.submissions
      ensures Sound(limits, capped, repository.rows) && WaitersApart(slots.waiters, repository.rows)
      ensures Running(repository.rows) == Running(w.rows) - {id} && Holders(repository.rows) <= Holders(w.rows)
      ensures Evolves(w, Now()) && Ended(repository.rows, id) && repository.rows[id].state == outcome
    {
      var op := Op.Finish(id, outcome, now);
      EndSets(w.rows, op);
      EndKeepsSound(limits, capped, w.rows, op);
      QueueStepEvolves(w, op, Now());
    }

    // ---- Dispatch

    /** One round: the choice of a task below its owner's limit and, if there is one, its launch. */
    method DispatchRound(byUser: map<User, nat>, ghost w0: World)
      returns (next: Option<TaskId>, launched: bool, threw: bool, username: User)
      requires Valid() && Dispatched(w0, Now()) && CountsMatch(byUser, repository.rows)
      requires |Running(repository.rows)| < limits.concurrent
      modifies repository, docker, workspace, slots, this`watched, this`stopping, this`submissions, this`history, this`orphaned
      ensures old(history) <= history
      ensures Valid() && orphaned == old(orphaned) && Progressed(w0, Now(), {})
      ensures !threw ==> Dispatched(w0, Now())
      ensures next.None? ==> Exhausted(limits, repository.rows) && !threw && !launched
      ensures next.Some? ==>
        && Unstarted(Now()) < Unstarted(old(Now()))
        && ChosenSince(limits, history, |old(history)|, next.value)
        && next.value in repository.rows && username == repository.rows[next.value].username
      ensures launched ==> Running(repository.rows) == old(Running(repository.rows)) + {next.value}
      ensures !launched ==> Running(repository.rows) == old(Running(repository.rows))
      ensures !launched ==> CountsMatch(byUser, repository.rows)
      ensures launched ==>
                CountsMatch(byUser[username := (if username in byUser then byUser[username] else 0) + 1], repository.rows)
      ensures |Running(repository.rows)| == old(|Running(repository.rows)|) + if launched then 1 else 0
    {
      hide Sound, WaitersApart, AllSound, AllSteps, StepOk, OnlyExit, Running, RunningOf, Holders, Interleaves, Evolves, Progressed,
        LaunchEffect, NoLeftovers, CountsMatch, Unstarted, RightlyChosen, BelowUserLimit, Repository.OldestEligible,
        Repository.Eligible, Matched, Dispatched, ChosenSince, Quiet;
      launched, threw, username := false, false, "";
      ghost var before := Now();
      ghost var h := history;
      Interfere();
      ghost var chosen := Now();
      ghost var recorded := history;
      DispatchedInterleaving(w0, before, chosen);
      DispatchedProgress(w0, chosen);
      CountsInterleaving(byUser, before, chosen);
      EligibleIsBelowLimit(limits, byUser, repository.rows);
      next := repository.PendingTask(UsersAtLimit(limits, byUser));
      if next.None? {
        return;
      }
      var id := next.value;
      RightChoice(limits, byUser, repository.rows, id);
      ChosenIsPending(repository.rows, id);
      username := repository.rows[id].username;
      ghost var activated;
      launched, threw, activated := LaunchTask(id);
      ChosenRecorded(h, recorded, history, id);
      DispatchedLaunch(w0, before, chosen, Now(), id, launched, threw);
      CountsLaunch(byUser, chosen, Now(), id, launched, threw);
      LaunchedOne(chosen, Now(), id, launched, threw);
    }

    lemma ChosenRecorded(h: History, recorded: History, later: History, id: TaskId)
      requires h < recorded <= later && RightlyChosen(limits, Last(recorded).rows, id)
      ensures ChosenSince(limits, later, |h|, id)
    {
      hide RightlyChosen;
      assert later[|recorded| - 1] == Last(recorded);
    }

    lemma LaunchedOne(a: World, b: World, id: TaskId, launched: bool, threw: bool)
      requires LaunchEffect(a, b, id, launched, threw) && id in a.rows
      ensures launched ==> Running(b.rows) == Running(a.rows) + {id}
      ensures !launched ==> Running(b.rows) == Running(a.rows)
      ensures id in b.rows && b.rows[id].username == a.rows[id].username
    {
      hide Running, Begun, NoLeftovers;
    }

    lemma DispatchedProgress(a: World, b: World)
      requires Dispatched(a, b)
      ensures Progressed(a, b, {}) && NoLeftovers(a, b)
    {}

    /**
     * Oldest first, skipping users at the per-user limit. The loop ends because every round starts or loses one of
     * the tasks that could still be picked, and it stops only when nothing more can be launched. Every task that is
     * running now and was not before was rightly chosen in a state recorded meanwhile.
     */
    method DispatchPending() returns (threw: bool)
      requires Valid()
      modifies repository, docker, workspace, slots, this`watched, this`stopping, this`submissions, this`history, this`orphaned
      ensures old(history) <= history
      ensures Valid() && Progressed(old(Now()), Now(), {}) && orphaned == old(orphaned)
      ensures AllChosenSince(limits, history, |old(history)|, old(Running(repository.rows)), Running(repository.rows))
      ensures !threw ==> NoLeftovers(old(Now()), Now()) && Exhausted(limits, repository.rows)
      ensures !threw && Matched(old(Now())) ==> Matched(Now())
    {
      hide Sound, WaitersApart, AllSound, AllSteps, StepOk, OnlyExit, Running, RunningOf, Holders, Interleaves, Evolves, Progressed,
        LaunchEffect, NoLeftovers, CountsMatch, Unstarted, RightlyChosen, BelowUserLimit, Repository.OldestEligible,
        Repository.Eligible, Matched, Dispatched, ChosenSince, AllChosenSince, Quiet;
      ghost var w0 := Now();
      ghost var h := history;
      Interfere();
      ghost var w1 := Now();
      StartDispatching(w0, w1);
      var running := repository.CountRunning();
      var free := limits.concurrent - running;
      Interfere();
      DispatchedInterleaving(w0, w1, Now());
      var byUser := repository.CountRunningByUser();
      CountsFound(byUser, repository.rows);
      NoneStarted(h, history, Running(w0.rows));
      while 0 < free
        invariant Valid() && Dispatched(w0, Now()) && orphaned == old(orphaned) && h <= history
        invariant AllChosenSince(limits, history, |h|, Running(w0.rows), Running(repository.rows))
        invariant free == limits.concurrent - |Running(repository.rows)| && CountsMatch(byUser, repository.rows)
        decreases Unstarted(Now())
      {
        ghost var recorded, before := history, Running(repository.rows);
        var next, launched, username;
        next, launched, threw, username := DispatchRound(byUser, w0);
        if next.None? {
          NoneMoreChosen(limits, recorded, history, |h|, Running(w0.rows), before, Running(repository.rows));
          DispatchedProgress(w0, Now());
          StillMatched(w0, Now(), {});
          return false;
        }
        OneMoreChosen(limits, recorded, history, |h|, |recorded|, Running(w0.rows), before, Running(repository.rows), next.value);
        if threw {
          return true;
        }
        if !launched {
          continue;
        }
        free := free - 1;
        byUser := byUser[username := (if username in byUser then byUser[username] else 0) + 1];
      }
      threw := false;
      DispatchedProgress(w0, Now());
      StillMatched(w0, Now(), {});
    }

    lemma StartDispatching(a: World, b: World)
      requires Interleaves(a, b)
      ensures Dispatched(a, b)
    {
      InterleavingProgresses(a, b);
    }

    lemma NoneStarted(h: History, later: History, running: set<TaskId>)
      ensures AllChosenSince(limits, later, |h|, running, running)
    {}

    lemma StillMatched(a: World, b: World, gone: set<TaskId>)
      requires Progressed(a, b, gone) && NoLeftovers(a, b) && gone !! b.containers.Keys
      ensures Matched(a) ==> Matched(b)
    {
      if Matched(a) {
        MatchedAfter(a, b, gone);
      }
    }

    lemma ChosenIsPending(t: Table, id: TaskId)
      requires RightlyChosen(limits, t, id)
      ensures BelowUserLimit(limits, t, id) && id in t && t[id].state == PENDING && |Running(t)| < limits.concurrent
    {}

    lemma DispatchedLaunch(w0: World, w: World, x: World, y: World, id: TaskId, launched: bool, threw: bool)
      requires Dispatched(w0, x) && Interleaves(w, x) && id in x.rows && x.rows[id].state == PENDING
      requires LaunchEffect(x, y, id, launched, threw)
      ensures Progressed(w0, y, {}) && (!threw ==> Dispatched(w0, y)) && Unstarted(y) < Unstarted(w)
    {
      DispatchedThen(w0, x, y);
      RoundDrops(w, x, y, id, launched, threw);
    }

    // ---- Collecting, reconciling, timeouts

    /**
     * Ends the task of a container that exited, removes what it left, and dispatches. The task ends in the outcome that
     * the state read and then the result read decide.
     */
    method Collect(id: TaskId) returns (threw: bool, ghost seen: Option<State>, ghost found: Option<Outcome>)
      requires Valid() && Begun(repository.rows, id)
      modifies repository, docker, workspace, slots, this`watched, this`stopping, this`submissions, this`history, this`orphaned
      ensures old(history) <= history
      ensures Valid() && Progressed(old(Now()), Now(), {id}) && orphaned == old(orphaned)
      ensures !threw ==> NoLeftovers(old(Now()), Now()) && id !in docker.containers && Exhausted(limits, repository.rows)
      ensures !threw && Matched(old(Now())) ==> Matched(Now())
      ensures seen.Some? <==> id in old(Running(repository.rows))
      ensures seen.Some? ==>
        && seen.value.Running() && ReadSince(history, |old(history)|, id, seen.value, found)
        && id in repository.rows && repository.rows[id].state == OutcomeOf(seen.value, found)
    {
      hide Sound, WaitersApart, AllSound, AllSteps, StepOk, OnlyExit, Running, Holders, Interleaves, Evolves, Progressed,
        NoLeftovers, Exhausted, Ended, OutcomeOf, Matched, ReadSince, AllChosenSince, Quiet;
      ghost var w0 := Now();
      ghost var h := history;
      threw, seen, found := EndExited(id);
      ghost var w1 := Now();
      ghost var recorded := history;
      var ok := Discard(id);
      ghost var w2 := Now();
      CollectedProgress(w0, w1, w2, id);
      EndedIsNotRunning(repository.rows, id);
      if !ok {
        threw := true;
        StateStays(w1, w2, id);
        if seen.Some? {
          StillRead(recorded, history, |h|, |h|, id, seen.value, found);
        }
        return;
      }
      threw := DispatchPending();
      CollectThen(w0, w2, Now(), id);
      if !threw {
        StillMatched(w0, Now(), {id});
      }
      StateStays(w1, w2, id);
      StateStays(w2, Now(), id) by {
        ProgressIsEvolution(w2, Now(), {});
      }
      if seen.Some? {
        StillRead(recorded, history, |h|, |h|, id, seen.value, found);
      }
    }

    /** Reads the task and, if it is still running, its result; stores the outcome. */
    method EndExited(id: TaskId) returns (threw: bool, ghost seen: Option<State>, ghost found: Option<Outcome>)
      requires Valid() && Begun(repository.rows, id)
      modifies repository, docker, workspace, this`watched, this`stopping, this`submissions, this`history
      ensures old(history) <= history
      ensures Valid() && Evolves(old(Now()), Now()) && Ended(repository.rows, id) && !threw
      ensures Running(repository.rows) == old(Running(repository.rows)) - {id}
      ensures Holders(repository.rows) <= old(Holders(repository.rows))
      ensures docker.containers.Keys == old(docker.containers.Keys)
      ensures seen.Some? <==> id in old(Running(repository.rows))
      ensures seen.Some? ==>
        && seen.value.Running() && ReadSince(history, |old(history)|, id, seen.value, found)
        && repository.rows[id].state == OutcomeOf(seen.value, found)
    {
      hide Sound, WaitersApart, AllSound, AllSteps, StepOk, OnlyExit, Running, Holders, Interleaves, Evolves, Ended, Begun, OutcomeOf,
        ReadSince, CompletedIn, CancelingIn, Quiet;
      threw, seen, found := false, None, None;
      ghost var w0 := Now();
      ghost var h := history;
      Interfere();
      ghost var w1 := Now();
      ghost var read := history;
      BegunStays(w0, w1, id);
      BegunRunsOrEnded(repository.rows, id);
      var current := repository.GetTask(id);
      if current.Some? && current.value.state.Running() {
        Interfere();
        ghost var w2 := Now();
        ghost var left := history;
        EvolvesTransitive(w0, w1, w2);
        var result := workspace.ReadResult(id);
        seen, found := Some(current.value.state), result;
        ReadBoth(h, read, left, w1, w2, id, current.value.state, result);
        FinishTask(id, OutcomeOf(current.value.state, result));
        EvolvesTransitive(w0, w2, Now());
        StillRead(left, history, |h|, |h|, id, current.value.state, result);
      }
    }

    /** What was read says whether the task may end canceled or completed. */
    lemma ReadBoth(h: History, read: History, left: History, w1: World, w2: World, id: TaskId, state: State, result: Option<Outcome>)
      requires h < read < left && id in Last(read).rows && Last(read).rows[id].state == state && state.Running()
      requires ResultIn(Last(left).results, id) == result
      requires w1.rows == Last(read).rows && w2.rows == Last(left).rows && Interleaves(w1, w2)
      ensures ReadSince(left, |h|, id, state, result)
      ensures OutcomeOf(state, result) == CANCELED ==> CancelingIn(w2.rows, id)
      ensures OutcomeOf(state, result) == COMPLETED ==> CompletedIn(left, id)
    {
      assert left[|read| - 1] == Last(read) && left[|left| - 1] == Last(left);
      assert ReadAt(left[|read| - 1], left[|left| - 1], id, state, result);
      OutcomeTells(state, result);
      assert id in Running(w1.rows) && id in Running(w2.rows);
      if state == CANCELING {
        CancelingStays(w1, w2, id);
      }
    }

    /**
     * From whatever tasks and containers are stored: a reconcile that is not cut short by a failing engine call ends
     * with exactly the containers of the running tasks. It never ends a task it listed with a running container,
     * and never removes the container of a running task, even if it is cut short. A task that it read as running and
     * listed without a container ends as interrupted: canceled if it was read as canceling, failed otherwise.
     */
    method Reconcile() returns (threw: bool, ghost listed: Containers)
      requires Valid()
      modifies repository, docker, workspace, slots, this`watched, this`stopping, this`submissions, this`history, this`orphaned
      ensures old(history) <= history
      ensures Valid() && orphaned == old(orphaned)
      ensures listed.Keys == old(docker.containers.Keys) && OnlyExit(old(docker.containers), listed)
      ensures forall id :: id in old(Running(repository.rows)) && id in listed && listed[id] ==> id in Running(repository.rows)
      ensures !threw ==> Matched(Now()) && LostToldSince(history, |old(history)|, listed, repository.rows)
      ensures !threw ==> AttendedSince(history, |old(history)|, listed)
    {
      hide Sound, WaitersApart, AllSound, AllSteps, StepOk, OnlyExit, Running, Holders, Interleaves, Evolves, Progressed,
        NoLeftovers, Reconciling, Exhausted, Matched, NotListedRunning, LostTold, LostToldSince, Quiet, Attended, AttendedSince;
      ghost var h := history;
      Interfere();
      var listing: bool, containers: Containers := docker.List();
      listed := containers;
      threw := !listing;
      if threw {
        return;
      }
      Interfere();
      ghost var w0 := Now();
      ghost var recorded := history;
      StartReconciling(w0, listed);
      var running := repository.RunningTasks();
      ghost var handled: set<TaskId> := {};
      NoneLost(w0.rows, repository.rows, listed);
      NoneAttended(history, |recorded| - 1, listed);
      for i := 0 to |running|
        invariant Valid() && orphaned == old(orphaned) && recorded <= history
        invariant Reconciling(w0, Now(), listed, handled) && LostTold(w0.rows, repository.rows, listed, handled)
        invariant forall j :: 0 <= j < |running| ==> (running[j].id in handled <==> j < i)
        invariant forall id :: id in handled ==> id in Running(w0.rows)
        invariant Attended(history, |recorded| - 1, listed, handled)
      {
        threw := ReconcileTask(running[i], containers, w0, listed, handled, |recorded| - 1);
        handled := handled + {running[i].id};
        if threw {
          ListedRunningSurvive(w0, Now(), listed, handled);
          return;
        }
      }
      AllHandled(running, w0.rows, handled);
      ghost var w1 := Now();
      ghost var attended := history;
      ReconcilingSurvive(w0, w1, listed, handled);
      var strays := containers.Keys - (set task | task in running :: task.id);
      StrayIds(running, w0.rows);
      threw := RemoveStrays(strays, w0, listed);
      LostStays(w0.rows, w1, Now(), listed, handled);
      if !threw {
        Reconciled(w0, w1, listed, Now());
        LostRecorded(h, recorded, history, listed, repository.rows, w0);
        AttendedThen(h, recorded, attended, history, listed, handled);
      }
    }

    /** What a reconcile does about one task it read as running, by what it listed of its container. */
    method ReconcileTask(task: Repository.Task, containers: Containers, ghost w0: World, ghost listed: Containers,
                         ghost handled: set<TaskId>, ghost read: nat)
      returns (threw: bool)
      requires Valid() && listed == containers && Reconciling(w0, Now(), listed, handled)
      requires task.id in Running(w0.rows) && task.id !in handled && task.id in w0.rows && task.row == w0.rows[task.id]
      requires LostTold(w0.rows, repository.rows, listed, handled)
      requires read < |history| && history[read].rows == w0.rows && Attended(history, read, listed, handled)
      modifies repository, docker, workspace, slots, this`watched, this`stopping, this`submissions, this`history, this`orphaned
      ensures old(history) <= history
      ensures Valid() && orphaned == old(orphaned)
      ensures Progressed(w0, Now(), NotListedRunning(listed, handled + {task.id}))
      ensures !threw ==>
        && Reconciling(w0, Now(), listed, handled + {task.id})
        && LostTold(w0.rows, repository.rows, listed, handled + {task.id})
        && Attended(history, read, listed, handled + {task.id})
    {
      hide Sound, WaitersApart, AllSound, AllSteps, StepOk, OnlyExit, Running, Holders, Interleaves, Evolves, Progressed,
        NoLeftovers, Reconciling, Exhausted, Matched, NotListedRunning, LostTold, ReadSince, Attended;
      ghost var w := Now();
      ghost var h := history;
      threw := false;
      StillToReconcile(w0, w, listed, handled, task.id);
      if task.id !in containers {
        if task.row.state == CANCELING {
          StillCanceling(w0, w, listed, handled, task.id);
        }
        EndLost(task.id, Interrupted(task.row.state));
        ReconciledGone(w0, w, Now(), listed, handled, task.id);
        ProgressIsEvolution(w, Now(), {task.id});
        LostStays(w0.rows, w, Now(), listed, handled);
        OneMoreLost(w0.rows, repository.rows, listed, handled, task.id);
        NotAttended(h, history, read, listed, handled, task.id);
      } else if containers[task.id] {
        if task.row.state == CANCELING {
          Stop(task.id);
        }
        Watch(task.id);
        Record();
        OneMoreAttended(h, history, read, listed, handled, task.id);
        ReconciledRunning(w0, w, listed, handled, task.id);
        ReconcilingProgress(w0, w, listed, handled + {task.id});
        NotLost(w0.rows, repository.rows, listed, handled, task.id);
      } else {
        ghost var seen, found;
        threw, seen, found := Collect(task.id);
        ReconciledGone(w0, w, Now(), listed, handled, task.id);
        ProgressIsEvolution(w, Now(), {task.id});
        LostStays(w0.rows, w, Now(), listed, handled);
        NotLost(w0.rows, repository.rows, listed, handled, task.id);
        NotAttended(h, history, read, listed, handled, task.id);
      }
    }

    lemma StillCanceling(a: World, b: World, listed: Containers, handled: set<TaskId>, id: TaskId)
      requires Reconciling(a, b, listed, handled) && id in a.rows && a.rows[id].state == CANCELING && id in Running(b.rows)
      ensures CancelingIn(b.rows, id)
    {
      ProgressIsEvolution(a, b, NotListedRunning(listed, handled));
      CancelingStays(a, b, id);
    }

    lemma ReconcilingProgress(a: World, b: World, listed: Containers, handled: set<TaskId>)
      requires Reconciling(a, b, listed, handled)
      ensures Progressed(a, b, NotListedRunning(listed, handled))
    {}

    lemma LostRecorded(h: History, recorded: History, later: History, listed: Containers, t: Table, w0: World)
      requires h < recorded <= later && Last(recorded).rows == w0.rows && LostTold(w0.rows, t, listed, Running(w0.rows))
      ensures LostToldSince(later, |h|, listed, t)
    {
      hide LostTold;
      assert later[|recorded| - 1] == Last(recorded);
    }

    /** Removes the containers that no running task was found for. */
    method RemoveStrays(strays: set<TaskId>, ghost w0: World, ghost listed: Containers) returns (threw: bool)
      requires Valid() && strays == listed.Keys - Running(w0.rows) && Reconciling(w0, Now(), listed, Running(w0.rows))
      modifies repository, docker, workspace, this`watched, this`stopping, this`submissions, this`history, this`orphaned
      ensures old(history) <= history
      ensures Valid() && orphaned == old(orphaned) && Running(repository.rows) == old(Running(repository.rows))
      ensures Evolves(old(Now()), Now())
      ensures !threw ==> docker.containers.Keys == old(docker.containers.Keys) - strays
      ensures !threw ==> workspace.results.Keys == old(workspace.results.Keys) - strays
    {
      hide Sound, WaitersApart, AllSound, AllSteps, StepOk, OnlyExit, Running, Holders, Interleaves, Evolves, Reconciling, Quiet, Removed, WithoutStrays;
      ghost var w1 := Now();
      NoneWithout(workspace.results.Keys);
      SameRowsEvolve(w1, w1);
      StartRemoved(w1, w1);
      var left := strays;
      ghost var done: set<TaskId> := {};
      while left != {}
        invariant Valid() && orphaned == old(orphaned) && Running(repository.rows) == old(Running(repository.rows))
        invariant old(history) <= history && Evolves(w1, Now())
        invariant WithoutStrays(old(workspace.results.Keys), workspace.results.Keys, done)
        invariant done <= strays && left == strays - done && Removed(w1, Now(), done, {})
        decreases left
      {
        var id :| id in left;
        ghost var w := Now();
        ghost var kept := workspace.results.Keys;
        StraysNotRunning(w0, w1, listed, Running(w0.rows), id);
        var removed := RemoveStray(id);
        EvolvesTransitive(w1, w, Now());
        if !removed {
          return true;
        }
        OneMoreRemoved(w1, w, Now(), done, id);
        OneLessKept(old(workspace.results.Keys), kept, workspace.results.Keys, done, id);
        left, done := left - {id}, done + {id};
      }
      threw := false;
      assert done == strays;
      AllKeptWithout(old(workspace.results.Keys), workspace.results.Keys, strays);
      RemovedExactly(w1, Now(), strays, {});
    }

    ghost predicate WithoutStrays(before: set<TaskId>, after: set<TaskId>, done: set<TaskId>) {
      after == before - done
    }

    lemma NoneWithout(before: set<TaskId>)
      ensures WithoutStrays(before, before, {})
    {}

    lemma OneLessKept(before: set<TaskId>, kept: set<TaskId>, after: set<TaskId>, done: set<TaskId>, id: TaskId)
      requires WithoutStrays(before, kept, done) && after == kept - {id}
      ensures WithoutStrays(before, after, done + {id})
    {}

    lemma AllKeptWithout(before: set<TaskId>, after: set<TaskId>, done: set<TaskId>)
      requires WithoutStrays(before, after, done)
      ensures after == before - done
    {}

    method RemoveStray(id: TaskId) returns (removed: bool)
      requires Valid() && id !in Running(repository.rows)
      modifies repository, docker, workspace, this`watched, this`stopping, this`submissions, this`history, this`orphaned
      ensures old(history) <= history
      ensures Valid() && orphaned == old(orphaned) && Running(repository.rows) == old(Running(repository.rows))
      ensures Evolves(old(Now()), Now())
      ensures removed ==> docker.containers.Keys == old(docker.containers.Keys) - {id}
      ensures removed ==> workspace.results.Keys == old(workspace.results.Keys) - {id}
    {
      hide Sound, WaitersApart, AllSound, AllSteps, StepOk, OnlyExit, Running, Holders, Interleaves, Evolves, Quiet;
      ghost var w0 := Now();
      removed := RemoveContainer(id);
      if removed {
        ghost var w1 := Now();
        Interfere();
        EvolvesTransitive(w0, w1, Now());
        workspace.Remove(id);
      }
    }

    /** A running task found without a container. */
    method EndLost(id: TaskId, outcome: Outcome)
      requires Valid() && id in Running(repository.rows) && id !in docker.containers
      requires outcome != COMPLETED && (outcome == CANCELED ==> CancelingIn(repository.rows, id))
      modifies repository, docker, workspace, slots, this`watched, this`stopping, this`submissions, this`history
      ensures old(history) <= history
      ensures Valid() && Progressed(old(Now()), Now(), {id}) && NoLeftovers(old(Now()), Now()) && id !in docker.containers
      ensures id in repository.rows && repository.rows[id].state == outcome
      ensures id !in Holders(repository.rows) && id !in Ids(slots.waiters)
      ensures workspace.results.Keys == old(workspace.results.Keys) - {id}
    {
      hide Sound, WaitersApart, AllSound, AllSteps, StepOk, OnlyExit, Running, Holders, Interleaves, Evolves, Ended, Progressed,
        NoLeftovers, CancelingIn, Quiet;
      ghost var w0 := Now();
      FinishTask(id, outcome);
      ghost var w1 := Now();
      Interfere();
      ghost var w2 := Now();
      workspace.Remove(id);
      ForgetSlot(id);
      EvolvesTransitive(w0, w1, w2);
      EvolvesTransitive(w0, w2, Now());
      EvolvesTransitive(w1, w2, Now());
      EndedStays(w1, Now(), id);
      StateStays(w1, Now(), id);
      EndProgresses(w0, Now(), id);
    }

    /** Asks for a stop, unless one is in progress: a second signal would kill a runner that is still cancelling its work. */
    method Stop(id: TaskId)
      modifies docker`signals, this`stopping
      ensures stopping == old(stopping) + {id}
      ensures docker.signals == old(docker.signals) + if id in old(stopping) then [] else [id]
    {
      if id in stopping {
        return;
      }
      stopping := stopping + {id};
      docker.Stop(id);
    }

    /** Waits for the container to exit, unless something does. */
    method Watch(id: TaskId)
      modifies docker`waits, this`watched
      ensures watched == old(watched) + {id}
      ensures docker.waits == old(docker.waits) + if id in old(watched) then [] else [id]
    {
      if id in watched {
        return;
      }
      watched := watched + {id};
      docker.Wait(id);
    }

    /** Ends one task that ran out of time, if it is still in the state it was read in, and kills its container anyway. */
    method TimeOut(id: TaskId, force: bool) returns (threw: bool)
      requires Valid() && id in Running(repository.rows) && (force ==> CancelingIn(repository.rows, id))
      modifies repository, docker, workspace, slots, this`watched, this`stopping, this`submissions, this`history, this`orphaned
      ensures old(history) <= history
      ensures Valid() && TimedOut(old(Now()), Now(), id, force)
      ensures !threw ==> id !in docker.containers && id !in workspace.results
      ensures orphaned == old(orphaned) || (id in Running(repository.rows) && orphaned == old(orphaned) + {id})
    {
      hide Sound, WaitersApart, AllSound, AllSteps, StepOk, OnlyExit, Running, Holders, Interleaves, Evolves, TimedOut, Quiet;
      ghost var w0 := Now();
      Interfere();
      ghost var w1 := Now();
      var now: int := *;
      ghost var op := if force then Op.ForceCancel(id, now) else Op.FailStalled(id, now);
      EndStatement(limits, history, op);
      var ended: bool;
      if force {
        ended := repository.Transition(id, {CANCELING}, CANCELED, now);
      } else {
        ended := repository.Transition(id, {ACTIVE}, FAILED, now);
      }
      EndedInTime(w0, w1, op);
      ghost var w2 := Now();
      Interfere();
      ghost var w3 := Now();
      var killed := docker.Kill(id);
      ghost var w4 := Now();
      SameRowsEvolve(w3, w4);
      EvolvesTransitive(w2, w3, w4);
      threw := !killed;
      if killed {
        var removed := Discard(id);
        threw := !removed;
        EvolvesTransitive(w2, w4, Now());
      }
      TimedOutThen(w0, w2, Now(), id, force);
    }

    lemma EndedInTime(w0: World, w1: World, op: Op)
      requires op.FailStalled? || op.ForceCancel?
      requires Interleaves(w0, w1) && op.id in Running(w0.rows) && (op.ForceCancel? ==> CancelingIn(w0.rows, op.id))
      requires Sound(limits, capped, w1.rows) && WaitersApart(slots.waiters, w1.rows)
      requires repository.rows == After(w1.rows, op) && docker.containers == w1.containers && submissions == w1.submissions
      ensures Sound(limits, capped, repository.rows) && WaitersApart(slots.waiters, repository.rows)
      ensures TimedOut(w0, Now(), op.id, op.ForceCancel?)
    {
      EndKeepsSound(limits, capped, w1.rows, op);
      ActiveTimedOut(w0, w1, Now(), op);
    }

    /**
     * Every task found stalled or overdue loses its container. It also ends, except a stalled one whose user cancelled
     * it between the query and the update: that one is left canceling, without a container, and is the only kind of
     * running task whose container the supervisor ever removes. Both sets are those of a query on a recorded state. A
     * stalled task has failed, an overdue one is canceled.
     */
    method EnforceTimeouts(stalledBefore: int, cancelledBefore: int)
      returns (threw: bool, ghost stalled: set<TaskId>, ghost overdue: set<TaskId>)
      requires Valid()
      modifies repository, docker, workspace, slots, this`watched, this`stopping, this`submissions, this`history, this`orphaned
      ensures Valid() && TimingOut(old(Now()), Now(), stalled, overdue)
      ensures FoundSince(history, |old(history)|, false, stalledBefore, stalled, !threw)
      ensures FoundSince(history, |old(history)|, true, cancelledBefore, overdue, !threw)
      ensures !threw ==> docker.containers.Keys == old(docker.containers.Keys) - stalled - overdue
      ensures old(orphaned) <= orphaned <= old(orphaned) + stalled
      ensures !threw && Matched(old(Now())) ==>
                Running(repository.rows) - docker.containers.Keys == Running(repository.rows) * stalled
                && docker.containers.Keys <= Running(repository.rows)
    {
      hide Sound, WaitersApart, AllSound, AllSteps, StepOk, OnlyExit, Running, Holders, Interleaves, Evolves, TimedOut, TimingOut,
        CancelingIn, Matched, FoundSince;
      ghost var w0 := Now();
      ghost var h := history;
      overdue := {};
      threw, stalled := FailStalled(stalledBefore);
      if threw {
        FoundNone(history, |h|, stalledBefore, stalled, cancelledBefore);
        return;
      }
      ghost var recorded := history;
      threw, overdue := ForceCanceling(cancelledBefore, w0, stalled);
      StillFound(recorded, history, |h|, |h|, false, stalledBefore, stalled, true);
      FoundSome(history, |h|, false, stalledBefore, stalled);
      StillFound(history, history, |h|, |recorded|, true, cancelledBefore, overdue, !threw);
      if !threw && Matched(w0) {
        TimedOutMatched(w0, Now(), stalled, overdue);
      }
    }

    method FailNext(tasks: seq<Repository.Task>, i: nat, ghost w0: World, ghost stalled: set<TaskId>) returns (threw: bool)
      requires Valid() && i < |tasks| && TimingOut(w0, Now(), stalled, {})
      requires ToTimeOut(tasks, i, Now(), false) && Removed(w0, Now(), stalled, {})
      modifies repository, docker, workspace, slots, this`watched, this`stopping, this`submissions, this`history, this`orphaned
      ensures old(history) <= history
      ensures Valid() && TimingOut(w0, Now(), stalled + {tasks[i].id}, {})
      ensures !threw ==> ToTimeOut(tasks, i + 1, Now(), false) && Removed(w0, Now(), stalled + {tasks[i].id}, {})
      ensures orphaned == old(orphaned) || orphaned == old(orphaned) + {tasks[i].id}
    {
      hide Sound, WaitersApart, AllSound, AllSteps, StepOk, OnlyExit, Running, Holders, Interleaves, Evolves, TimedOut, TimingOut,
        CancelingIn, Repository.Stalled, Repository.Overdue, ToTimeOut, Repository.ResultOf, Removed;
      ghost var w := Now();
      NextToTimeOut(tasks, i, w, false);
      threw := TimeOut(tasks[i].id, false);
      StalledOut(w0, w, Now(), stalled, tasks[i].id);
      if !threw {
        ToTimeOutStep(tasks, i, w, Now(), false);
        RemovedStep(w0, w, Now(), stalled, {}, stalled + {tasks[i].id}, {}, tasks[i].id, false);
      }
    }

    method ForceNext(tasks: seq<Repository.Task>, i: nat, ghost w0: World, ghost stalled: set<TaskId>, ghost overdue: set<TaskId>)
      returns (threw: bool)
      requires Valid() && i < |tasks| && TimingOut(w0, Now(), stalled, overdue)
      requires ToTimeOut(tasks, i, Now(), true) && Removed(w0, Now(), stalled, overdue)
      modifies repository, docker, workspace, slots, this`watched, this`stopping, this`submissions, this`history, this`orphaned
      ensures old(history) <= history
      ensures Valid() && TimingOut(w0, Now(), stalled, overdue + {tasks[i].id})
      ensures !threw ==> ToTimeOut(tasks, i + 1, Now(), true) && Removed(w0, Now(), stalled, overdue + {tasks[i].id})
      ensures orphaned == old(orphaned)
    {
      hide Sound, WaitersApart, AllSound, AllSteps, StepOk, OnlyExit, Running, Holders, Interleaves, Evolves, TimedOut, TimingOut,
        CancelingIn, Repository.Stalled, Repository.Overdue, ToTimeOut, Repository.ResultOf, Removed;
      ghost var w := Now();
      NextToTimeOut(tasks, i, w, true);
      threw := TimeOut(tasks[i].id, true);
      ForcedNotRunning(w, Now(), tasks[i].id);
      OverdueOut(w0, w, Now(), stalled, overdue, tasks[i].id);
      if !threw {
        ToTimeOutStep(tasks, i, w, Now(), true);
        RemovedStep(w0, w, Now(), stalled, overdue, stalled, overdue + {tasks[i].id}, tasks[i].id, true);
      }
    }

    /** The first loop: tasks read as active without recent progress. */
    method FailStalled(before: int) returns (threw: bool, ghost stalled: set<TaskId>)
      requires Valid()
      modifies repository, docker, workspace, slots, this`watched, this`stopping, this`submissions, this`history, this`orphaned
      ensures old(history) <= history
      ensures Valid() && TimingOut(old(Now()), Now(), stalled, {})
      ensures FoundSince(history, |old(history)|, false, before, stalled, !threw)
      ensures !threw ==> docker.containers.Keys == old(docker.containers.Keys) - stalled
      ensures old(orphaned) <= orphaned <= old(orphaned) + stalled
    {
      hide Sound, WaitersApart, AllSound, AllSteps, StepOk, OnlyExit, Running, Holders, Interleaves, Evolves, TimedOut, TimingOut,
        CancelingIn, Repository.Stalled, ToTimeOut, Repository.ResultOf, Removed, FoundSince, IdsOf, Quiet;
      ghost var w0 := Now();
      ghost var h := history;
      StartTimingOut(w0);
      Interfere();
      TimingOutInterleaving(w0, w0, Now(), {}, {});
      ghost var recorded := history;
      var tasks := repository.StalledTasks(before);
      StalledRun(tasks, Now(), before);
      stalled := {};
      StartRemoved(w0, Now());
      NoIds(tasks);
      for i := 0 to |tasks|
        invariant Valid() && TimingOut(w0, Now(), stalled, {}) && ToTimeOut(tasks, i, Now(), false)
        invariant Removed(w0, Now(), stalled, {}) && recorded <= history && stalled == IdsOf(tasks, i)
        invariant old(orphaned) <= orphaned <= old(orphaned) + stalled
      {
        threw := FailNext(tasks, i, w0, stalled);
        OneMoreId(tasks, i);
        stalled := stalled + {tasks[i].id};
        if threw {
          FoundIn(h, recorded, history, false, before, tasks, i + 1);
          return;
        }
      }
      RemovedExactly(w0, Now(), stalled, {});
      FoundIn(h, recorded, history, false, before, tasks, |tasks|);
      threw := false;
    }

    /** The second loop: tasks read as canceling for too long. */
    method ForceCanceling(before: int, ghost w0: World, ghost stalled: set<TaskId>)
      returns (threw: bool, ghost overdue: set<TaskId>)
      requires Valid() && TimingOut(w0, Now(), stalled, {}) && docker.containers.Keys == w0.containers.Keys - stalled
      modifies repository, docker, workspace, slots, this`watched, this`stopping, this`submissions, this`history, this`orphaned
      ensures old(history) <= history
      ensures Valid() && TimingOut(w0, Now(), stalled, overdue)
      ensures FoundSince(history, |old(history)|, true, before, overdue, !threw)
      ensures !threw ==> docker.containers.Keys == w0.containers.Keys - stalled - overdue
      ensures orphaned == old(orphaned)
    {
      hide Sound, WaitersApart, AllSound, AllSteps, StepOk, OnlyExit, Running, Holders, Interleaves, Evolves, TimedOut, TimingOut,
        CancelingIn, Repository.Overdue, ToTimeOut, Repository.ResultOf, Removed, FoundSince, IdsOf, Quiet;
      ghost var w1 := Now();
      ghost var h := history;
      overdue := {};
      Interfere();
      TimingOutInterleaving(w0, w1, Now(), stalled, {});
      ghost var recorded := history;
      var tasks := repository.CancelingSince(before);
      OverdueCancel(tasks, Now(), before);
      ContinueRemoved(w0, Now(), stalled);
      NoIds(tasks);
      for i := 0 to |tasks|
        invariant Valid() && TimingOut(w0, Now(), stalled, overdue) && orphaned == old(orphaned)
        invariant ToTimeOut(tasks, i, Now(), true) && Removed(w0, Now(), stalled, overdue)
        invariant recorded <= history && overdue == IdsOf(tasks, i)
      {
        threw := ForceNext(tasks, i, w0, stalled, overdue);
        OneMoreId(tasks, i);
        overdue := overdue + {tasks[i].id};
        if threw {
          FoundIn(h, recorded, history, true, before, tasks, i + 1);
          return;
        }
      }
      RemovedExactly(w0, Now(), stalled, overdue);
      FoundIn(h, recorded, history, true, before, tasks, |tasks|);
      threw := false;
    }

    // ---- Whole runs

    /** A new process finds what is stored at some recorded moment; the line, the watches and the stops in progress are gone. */
    method Restart(moment: nat)
      requires Valid() && moment < |history|
      modifies repository, docker, workspace, slots, this`watched, this`stopping, this`history
      ensures Valid() && Current() && history == old(history[..moment + 1]) && slots.waiters == []
    {
      hide Sound, AllSteps, StepOk;
      SoundAt(limits, capped, history, moment);
      CutShort(limits, capped, history, moment);
      StepsBefore(limits, history, moment);
      var stored := history[moment];
      repository.rows, docker.containers, workspace.results := stored.rows, stored.containers, stored.results;
      slots.waiters, watched, stopping := [], {}, {};
      history := history[..moment + 1];
    }

    /** What a new process does first. */
    method Start() returns (threw: bool, ghost now: int)
      requires Valid()
      modifies repository, docker, workspace, slots, this`watched, this`stopping, this`submissions, this`history, this`orphaned
      ensures old(history) <= history
      ensures Valid() && orphaned == old(orphaned)
      ensures !threw ==> Matched(Now()) && Exhausted(limits, repository.rows)
      ensures ClocksReset(history, |old(history)|, now)
    {
      hide Sound, WaitersApart, AllSound, AllSteps, StepOk, OnlyExit, Running, Holders, Interleaves, Evolves, Progressed,
        NoLeftovers, Exhausted, Matched, Apply, LostToldSince, AllChosenSince, Quiet, ClocksReset;
      ghost var h := history;
      var reading := ResetProgressClock();
      now := reading;
      ghost var reset := history;
      ghost var listed;
      var cutShort: bool;
      cutShort, listed := Reconcile();
      threw := DispatchPending();
      threw := threw || cutShort;
      StillReset(reset, history, |h|, now);
    }

    /**
     * Time without a task manager counts neither as silence of a container nor against a cancellation: in a recorded
     * state the reading is every active task's time of progress, and in a later one every canceling task's last update.
     */
    method ResetProgressClock() returns (now: int)
      requires Valid()
      modifies repository, docker, workspace, this`watched, this`stopping, this`submissions, this`history
      ensures old(history) <= history
      ensures Valid() && ClocksReset(history, |old(history)|, now)
      ensures Running(repository.rows) == old(Running(repository.rows))
    {
      hide Sound, WaitersApart, AllSound, AllSteps, StepOk, OnlyExit, Running, Holders, Interleaves, Evolves, Apply, Quiet,
        ClocksReset, ProgressResetAt, CancelingResetAt;
      now := *;
      ghost var h := history;
      Interfere();
      ghost var rows := repository.rows;
      QuietStatement(limits, history, Op.ResetProgress(now));
      repository.ResetProgress(now);
      ClockReset(rows, Op.ResetProgress(now));
      ActiveReset(rows, now);
      Record();
      ghost var k := |history| - 1;
      Interfere();
      rows := repository.rows;
      QuietStatement(limits, history, Op.ResetCanceling(now));
      repository.ResetCanceling(now);
      ClockReset(rows, Op.ResetCanceling(now));
      CancelingReset(rows, now);
      Record();
      BothReset(history, |h|, k, now);
    }

    lemma ClockReset(t: Table, op: Op)
      requires Sound(limits, capped, t) && WaitersApart(slots.waiters, t)
      requires (op.ResetProgress? || op.ResetCanceling?) && repository.rows == After(t, op)
      ensures Running(repository.rows) == Running(t)
      ensures Sound(limits, capped, repository.rows) && WaitersApart(slots.waiters, repository.rows)
    {
      StepKeepsConsistent(t, op);
      StepIsLater(t, op);
      assert Running(repository.rows) == Running(t) && Holders(repository.rows) == Holders(t);
      if capped {
        FewerWithin(limits, t, repository.rows);
      }
    }

    /**
     * Any number of queue items of any kind, with anything interleaving between their statements, and the process
     * stopping and starting again at any moment of any of them, and of a start. In every state there ever was the
     * running tasks, each user's running tasks and the slot holders are within the limits. And every state follows from
     * the one before it by a right step: a task starts only if it was rightly chosen and none has started or ended since;
     * it turns canceled only if its user cancelled it, and completed only after its container said so.
     */
    method Serve(items: nat)
      requires Valid()
      modifies repository, docker, workspace, slots, this`watched, this`stopping, this`submissions, this`history, this`orphaned
      ensures Valid() && AllSteps(limits, history) && StepOk(limits, history, repository.rows)
      ensures capped ==> Within(limits, repository.rows)
      ensures capped ==> forall i :: 0 <= i < |history| ==> Within(limits, history[i].rows)
    {
      hide AllSteps, StepOk;
      var left := items;
      while 0 < left
        invariant Valid()
      {
        ServeOne();
        left := left - 1;
      }
    }

    /** One queue item, cut short or not; after a crash the new process starts, and may be cut short in turn. */
    method ServeOne()
      requires Valid()
      modifies repository, docker, workspace, slots, this`watched, this`stopping, this`submissions, this`history, this`orphaned
      ensures Valid()
    {
      hide Sound, WaitersApart, AllSound, AllSteps, StepOk;
      var before := |history|;
      Item();
      var crashes: nat := *;
      while 0 < crashes
        invariant Valid()
      {
        Record();
        var moment: nat := *;
        if before <= moment < |history| {
          Restart(moment);
          before := |history|;
          ghost var now;
          var threw: bool;
          threw, now := Start();
        }
        crashes := crashes - 1;
      }
    }

    method Item()
      requires Valid()
      modifies repository, docker, workspace, slots, this`watched, this`stopping, this`submissions, this`history, this`orphaned
      ensures Valid()
    {
      hide Sound, WaitersApart, AllSound, AllSteps, StepOk, OnlyExit, Running, Holders, Interleaves, Evolves, Progressed,
        NoLeftovers, Exhausted, Matched, TimingOut, Later, SlotTaken, Answered, AllChosenSince, LostToldSince, FoundSince, ReadSince;
      var id: TaskId := *;
      var slot: Option<int> := *;
      var stalledBefore: int := *;
      var cancelledBefore: int := *;
      submissions := *;
      if * {
        var threw := DispatchPending();
      } else if * {
        ghost var listed;
        var threw: bool;
        threw, listed := Reconcile();
      } else if * {
        ghost var stalled, overdue;
        var threw: bool;
        threw, stalled, overdue := EnforceTimeouts(stalledBefore, cancelledBefore);
      } else if * {
        var answer := RequestSlot(id);
      } else if * {
        EndSlot(id, slot);
      } else if id in repository.rows && repository.rows[id].state != PENDING {
        ghost var seen, found;
        var threw: bool;
        threw, seen, found := Collect(id);
      }
    }
  }

  lemma NothingInterleaves(w: World)
    ensures Interleaves(w, w)
  {}

  lemma NoSlotNoHolder(t: Table, id: TaskId)
    requires id !in t || t[id].slot == None
    ensures id !in Holders(t)
  {}

  lemma SlotKept(a: World, b: World, id: TaskId)
    requires Interleaves(a, b) && id in a.rows
    ensures id in b.rows && b.rows[id].slot == a.rows[id].slot
  {}

  /** countByUser: how many of the holders each user owns. */
  method CountByUser(holders: map<TaskId, User>) returns (counts: map<User, nat>)
    ensures forall u :: Held(counts, u) == |HeldBy(holders, holders.Keys, u)|
  {
    counts := map[];
    var left := holders.Keys;
    while left != {}
      invariant left <= holders.Keys
      invariant forall u :: Held(counts, u) == |HeldBy(holders, holders.Keys - left, u)|
      decreases left
    {
      hide HeldBy;
      var id :| id in left;
      ghost var done := holders.Keys - left;
      counts := counts[holders[id] := Held(counts, holders[id]) + 1];
      left := left - {id};
      assert holders.Keys - left == done + {id};
      forall u ensures Held(counts, u) == |HeldBy(holders, holders.Keys - left, u)| {
        OneHolderMore(holders, done, id, u);
      }
    }
    assert holders.Keys - left == holders.Keys;
  }

  ghost function HeldBy(holders: map<TaskId, User>, among: set<TaskId>, u: User): set<TaskId> {
    set id | id in among && id in holders && holders[id] == u
  }

  lemma OneHolderMore(holders: map<TaskId, User>, among: set<TaskId>, id: TaskId, u: User)
    requires id in holders && id !in among
    ensures |HeldBy(holders, among + {id}, u)| == |HeldBy(holders, among, u)| + if holders[id] == u then 1 else 0
  {
    assert HeldBy(holders, among + {id}, u) == HeldBy(holders, among, u) + if holders[id] == u then {id} else {};
  }

  lemma SameRowsEvolve(a: World, b: World)
    requires b.rows == a.rows && b.submissions == a.submissions
    ensures Evolves(a, b)
  {}

  lemma CountsFound(byUser: map<User, nat>, t: Table)
    requires forall u :: u in byUser <==> RunningOf(t, u) != {}
    requires forall u :: u in byUser ==> byUser[u] == |RunningOf(t, u)|
    ensures CountsMatch(byUser, t)
  {}

  lemma BegunRunsOrEnded(t: Table, id: TaskId)
    requires Begun(t, id)
    ensures id in t && (t[id].state.Running() <==> id in Running(t)) && (id !in Running(t) ==> Ended(t, id))
  {}

  lemma StateStays(a: World, b: World, id: TaskId)
    requires Ended(a.rows, id) && Evolves(a, b)
    ensures id in a.rows && id in b.rows && b.rows[id].state == a.rows[id].state && Ended(b.rows, id)
  {}

  lemma ProgressIsEvolution(a: World, b: World, gone: set<TaskId>)
    requires Progressed(a, b, gone)
    ensures Evolves(a, b)
  {}

  // ---- Lost tasks

  /** Of the tasks handled, those listed without a container have ended as interrupted in the state read. */
  ghost predicate LostTold(read: Table, t: Table, listed: Containers, handled: set<TaskId>) {
    forall id :: id in handled && id !in listed ==>
      id in read && id in t && t[id].state == Interrupted(read[id].state)
  }

  /** So have all tasks that ran in a state recorded since. */
  ghost predicate LostToldSince(h: History, from: nat, listed: Containers, t: Table) {
    exists k :: from <= k < |h| && LostTold(h[k].rows, t, listed, Running(h[k].rows))
  }

  /**
   * Of the tasks handled since the state read, each one listed with a running container was then being waited for, and,
   * if it was read as canceling, being stopped.
   */
  ghost predicate Attended(h: History, read: nat, listed: Containers, handled: set<TaskId>) {
    read < |h| && forall id :: id in handled && id in listed && listed[id] ==>
      exists k :: read <= k < |h| && id in h[k].watched && (CancelingIn(h[read].rows, id) ==> id in h[k].stopping)
  }

  /** So was every task that ran in a state recorded since. */
  ghost predicate AttendedSince(h: History, from: nat, listed: Containers) {
    exists k :: from <= k < |h| && Attended(h, k, listed, Running(h[k].rows))
  }

  lemma NoneAttended(h: History, read: nat, listed: Containers)
    requires read < |h|
    ensures Attended(h, read, listed, {})
  {}

  lemma StillAttended(h: History, later: History, read: nat, listed: Containers, handled: set<TaskId>)
    requires Attended(h, read, listed, handled) && h <= later
    ensures Attended(later, read, listed, handled)
  {
    forall id | id in handled && id in listed && listed[id]
      ensures exists k ::
        read <= k < |later| && id in later[k].watched && (CancelingIn(later[read].rows, id) ==> id in later[k].stopping)
    {
      var k :| read <= k < |h| && id in h[k].watched && (CancelingIn(h[read].rows, id) ==> id in h[k].stopping);
      assert later[k] == h[k];
    }
  }

  lemma OneMoreAttended(h: History, later: History, read: nat, listed: Containers, handled: set<TaskId>, id: TaskId)
    requires Attended(h, read, listed, handled) && h < later
    requires id in Last(later).watched && (CancelingIn(h[read].rows, id) ==> id in Last(later).stopping)
    ensures Attended(later, read, listed, handled + {id})
  {
    StillAttended(h, later, read, listed, handled);
    assert id in later[|later| - 1].watched;
  }

  lemma NotAttended(h: History, later: History, read: nat, listed: Containers, handled: set<TaskId>, id: TaskId)
    requires Attended(h, read, listed, handled) && h <= later && (id in listed ==> !listed[id])
    ensures Attended(later, read, listed, handled + {id})
  {
    StillAttended(h, later, read, listed, handled);
  }

  lemma AttendedThen(h: History, recorded: History, attended: History, later: History, listed: Containers, handled: set<TaskId>)
    requires h < recorded <= attended <= later && Attended(attended, |recorded| - 1, listed, handled)
    requires handled == Running(Last(recorded).rows)
    ensures AttendedSince(later, |h|, listed)
  {
    StillAttended(attended, later, |recorded| - 1, listed, handled);
    assert later[|recorded| - 1] == Last(recorded);
  }

  lemma NoneLost(read: Table, t: Table, listed: Containers)
    ensures LostTold(read, t, listed, {})
  {}

  lemma LostStays(read: Table, a: World, b: World, listed: Containers, handled: set<TaskId>)
    requires LostTold(read, a.rows, listed, handled) && Evolves(a, b)
    ensures LostTold(read, b.rows, listed, handled)
  {
    forall id | id in handled && id !in listed ensures id in b.rows && b.rows[id].state == a.rows[id].state {
      assert Ended(a.rows, id);
      StateStays(a, b, id);
    }
  }

  lemma OneMoreLost(read: Table, t: Table, listed: Containers, handled: set<TaskId>, id: TaskId)
    requires LostTold(read, t, listed, handled)
    requires id in read && id in t && t[id].state == Interrupted(read[id].state)
    ensures LostTold(read, t, listed, handled + {id})
  {}

  lemma NotLost(read: Table, t: Table, listed: Containers, handled: set<TaskId>, id: TaskId)
    requires LostTold(read, t, listed, handled) && id in listed
    ensures LostTold(read, t, listed, handled + {id})
  {}

  lemma CollectedProgress(a: World, b: World, c: World, id: TaskId)
    requires Evolves(a, b) && Ended(b.rows, id) && Running(b.rows) == Running(a.rows) - {id}
    requires Holders(b.rows) <= Holders(a.rows) && b.containers.Keys == a.containers.Keys
    requires Evolves(b, c) && Running(c.rows) == Running(b.rows) && Holders(c.rows) <= Holders(b.rows)
    requires b.containers.Keys - {id} <= c.containers.Keys <= b.containers.Keys
    ensures Progressed(a, c, {id}) && NoLeftovers(a, c) && Ended(c.rows, id)
  {
    EvolvesTransitive(a, b, c);
    EndedStays(b, c, id);
    EndProgresses(a, c, id);
  }

  lemma CollectThen(a: World, b: World, c: World, id: TaskId)
    requires Progressed(a, b, {id}) && NoLeftovers(a, b) && id !in b.containers && Progressed(b, c, {})
    ensures Progressed(a, c, {id})
    ensures NoLeftovers(b, c) ==> NoLeftovers(a, c) && id !in c.containers
  {
    hide Evolves, AllEnded, Running, Holders, NewHaveContainers, OnlyRemovedOfEnded;
    var none: set<TaskId> := {};
    ProgressThen(a, b, {id}, c, none);
    assert {id} + none == {id};
    AllEndedStays(b, c, {id});
    if NoLeftovers(b, c) {
      LeftoversThen(a, b, {id}, c, none);
    }
  }

  lemma AllHandled(running: seq<Repository.Task>, t: Table, handled: set<TaskId>)
    requires Repository.ResultOf(running, t, Running(t)) && handled <= Running(t)
    requires forall j :: 0 <= j < |running| ==> running[j].id in handled
    ensures handled == Running(t)
  {
    forall id | id in Running(t) ensures id in handled {
      var i :| 0 <= i < |running| && running[i].id == id;
    }
  }

  lemma StrayIds(running: seq<Repository.Task>, t: Table)
    requires Repository.ResultOf(running, t, Running(t))
    ensures (set task | task in running :: task.id) == Running(t)
  {
    forall id | id in Running(t) ensures id in set task | task in running :: task.id {
      var i :| 0 <= i < |running| && running[i].id == id;
      assert running[i] in running;
    }
  }

  lemma ReconcilingSurvive(a: World, b: World, listed: Containers, handled: set<TaskId>)
    requires Reconciling(a, b, listed, handled)
    ensures forall id :: id in Running(a.rows) && id in listed && listed[id] ==> id in Running(b.rows)
  {
    ListedRunningSurvive(a, b, listed, handled);
  }

  // ---- The clocks that a start resets

  ghost predicate ProgressResetAt(t: Table, now: int) {
    forall id <- t :: t[id].state == ACTIVE ==> t[id].progress == Some(now)
  }

  ghost predicate CancelingResetAt(t: Table, now: int) {
    forall id <- t :: t[id].state == CANCELING ==> t[id].updated == now
  }

  /** In one recorded state all active tasks, and in that or a later one all canceling tasks, had the reading as their time. */
  ghost predicate ClocksReset(h: History, from: nat, now: int) {
    exists k: nat, m: nat :: ResetAt(h, from, now, k, m)
  }

  ghost predicate ResetAt(h: History, from: nat, now: int, k: nat, m: nat) {
    from <= k <= m < |h| && ProgressResetAt(h[k].rows, now) && CancelingResetAt(h[m].rows, now)
  }

  lemma ActiveReset(t: Table, now: int)
    ensures ProgressResetAt(After(t, Op.ResetProgress(now)), now)
  {}

  lemma CancelingReset(t: Table, now: int)
    ensures CancelingResetAt(After(t, Op.ResetCanceling(now)), now)
  {}

  lemma BothReset(h: History, from: nat, k: nat, now: int)
    requires from <= k < |h| && ProgressResetAt(h[k].rows, now) && CancelingResetAt(Last(h).rows, now)
    ensures ClocksReset(h, from, now)
  {
    assert ResetAt(h, from, now, k, |h| - 1);
  }

  lemma StillReset(h: History, later: History, from: nat, now: int)
    requires ClocksReset(h, from, now) && h <= later
    ensures ClocksReset(later, from, now)
  {
    hide ProgressResetAt, CancelingResetAt;
    var k: nat, m: nat :| ResetAt(h, from, now, k, m);
    assert later[k] == h[k] && later[m] == h[m];
    assert ResetAt(later, from, now, k, m);
  }

  /**
   * So after a start no task that was active or canceling through it has expired for a bound that the reading has
   * reached, unless its row was written since.
   */
  lemma DowntimeIsNoSilence(h: History, from: nat, now: int, k: nat, m: nat, t: Table, id: TaskId, before: int)
    requires ResetAt(h, from, now, k, m) && before <= now
    requires id in t && t[id].state == ACTIVE ==> id in h[k].rows && t[id] == h[k].rows[id]
    requires id in t && t[id].state == CANCELING ==> id in h[m].rows && t[id] == h[m].rows[id]
    ensures !Expired(t, id, false, before) && !Expired(t, id, true, before)
  {}

  // ---- What the timeout queries found

  /** The task has been canceling since before the bound, or is active without progress since before it. */
  ghost predicate Expired(t: Table, id: TaskId, force: bool, before: int) {
    id in t &&
    if force then t[id].state == CANCELING && t[id].updated < before
    else t[id].state == ACTIVE && t[id].progress.Some? && t[id].progress.value < before
  }

  /** The tasks had expired in one state recorded since, and if so said they are all that had. */
  ghost predicate FoundSince(h: History, from: nat, force: bool, before: int, ids: set<TaskId>, complete: bool) {
    exists k :: from <= k < |h| && FoundAt(h[k].rows, force, before, ids, complete)
  }

  ghost predicate FoundAt(t: Table, force: bool, before: int, ids: set<TaskId>, complete: bool) {
    && (forall id <- ids :: Expired(t, id, force, before))
    && (complete ==> forall id :: Expired(t, id, force, before) ==> id in ids)
  }

  lemma StillFound(h: History, later: History, from: nat, mid: nat, force: bool, before: int, ids: set<TaskId>, complete: bool)
    requires FoundSince(h, mid, force, before, ids, complete) && h <= later && from <= mid
    ensures FoundSince(later, from, force, before, ids, complete)
  {
    hide FoundAt;
    var k :| mid <= k < |h| && FoundAt(h[k].rows, force, before, ids, complete);
    assert later[k] == h[k];
  }

  lemma FoundSome(h: History, from: nat, force: bool, before: int, ids: set<TaskId>)
    requires FoundSince(h, from, force, before, ids, true)
    ensures FoundSince(h, from, force, before, ids, false)
  {
    var k :| from <= k < |h| && FoundAt(h[k].rows, force, before, ids, true);
    assert FoundAt(h[k].rows, force, before, ids, false);
  }

  lemma FoundNone(h: History, from: nat, before: int, ids: set<TaskId>, other: int)
    requires FoundSince(h, from, false, before, ids, false)
    ensures FoundSince(h, from, true, other, {}, false)
  {
    var k :| from <= k < |h| && FoundAt(h[k].rows, false, before, ids, false);
    assert FoundAt(h[k].rows, true, other, {}, false);
  }

  ghost function IdsOf(tasks: seq<Repository.Task>, n: nat): set<TaskId>
    requires n <= |tasks|
  {
    set i | 0 <= i < n :: tasks[i].id
  }

  lemma NoIds(tasks: seq<Repository.Task>)
    ensures IdsOf(tasks, 0) == {}
  {}

  lemma OneMoreId(tasks: seq<Repository.Task>, n: nat)
    requires n < |tasks|
    ensures IdsOf(tasks, n + 1) == IdsOf(tasks, n) + {tasks[n].id}
  {}

  lemma FoundIn(h: History, recorded: History, later: History, force: bool, before: int, tasks: seq<Repository.Task>, n: nat)
    requires h < recorded <= later && n <= |tasks|
    requires force ==> Repository.ResultOf(tasks, Last(recorded).rows, Repository.Overdue(Last(recorded).rows, before))
    requires !force ==> Repository.ResultOf(tasks, Last(recorded).rows, Repository.Stalled(Last(recorded).rows, before))
    ensures FoundSince(later, |h|, force, before, IdsOf(tasks, n), n == |tasks|)
    ensures FoundSince(later, |h|, force, before, IdsOf(tasks, n), false)
  {
    var k, t := |recorded| - 1, Last(recorded).rows;
    assert later[k].rows == t;
    forall id | Expired(t, id, force, before) && n == |tasks| ensures id in IdsOf(tasks, n) {
      assert if force then id in Repository.Overdue(t, before) else id in Repository.Stalled(t, before);
      var i :| 0 <= i < |tasks| && tasks[i].id == id;
    }
    assert FoundAt(t, force, before, IdsOf(tasks, n), n == |tasks|);
    assert FoundAt(t, force, before, IdsOf(tasks, n), false);
  }

  /**
   * How a stalled task can be left behind: found stalled, cancelled by its user before the update, which then finds no
   * active task, and its container killed and removed all the same.
   */
  lemma StalledCancelLosesContainer(row: Row, id: TaskId, before: int, now: int)
    requires row.state == ACTIVE && row.progress.Some? && row.progress.value < before
    ensures var w0 := World(map[id := row], map[id := true], 0);
      var w1 := World(After(w0.rows, Op.RequestCancel(id, now)), w0.containers, 0);
      var w2 := World(After(w1.rows, Op.FailStalled(id, now)), w1.containers - {id}, 0);
      && Matched(w0) && Expired(w0.rows, id, false, before) && Interleaves(w0, w1)
      && !Apply(w1.rows, Op.FailStalled(id, now)).1
      && TimedOut(w0, w2, id, false) && CancelingIn(w2.rows, id) && !Matched(w2)
  {
    var w0 := World(map[id := row], map[id := true], 0);
    var w1 := World(After(w0.rows, Op.RequestCancel(id, now)), w0.containers, 0);
    var w2 := World(w1.rows, w1.containers - {id}, 0);
    OutsideInterleaves(w0, Op.RequestCancel(id, now), w1);
    assert id in Running(w0.rows) && id in Running(w2.rows);
  }

  lemma StartTimingOut(w: World)
    ensures TimingOut(w, w, {}, {})
  {}

  /** Tasks from i on are still to be timed out: each once, still running, and canceling if that is what was read. */
  ghost predicate ToTimeOut(tasks: seq<Repository.Task>, i: nat, w: World, force: bool) {
    && (forall j :: i <= j < |tasks| ==> tasks[j].id in Running(w.rows) && (force ==> CancelingIn(w.rows, tasks[j].id)))
    && (forall j, k :: i <= j < k < |tasks| ==> tasks[j].id != tasks[k].id)
  }

  lemma StalledRun(tasks: seq<Repository.Task>, w: World, before: int)
    requires Repository.ResultOf(tasks, w.rows, Repository.Stalled(w.rows, before))
    ensures ToTimeOut(tasks, 0, w, false)
  {
    assert Repository.Stalled(w.rows, before) <= Running(w.rows);
  }

  lemma OverdueCancel(tasks: seq<Repository.Task>, w: World, before: int)
    requires Repository.ResultOf(tasks, w.rows, Repository.Overdue(w.rows, before))
    ensures ToTimeOut(tasks, 0, w, true)
  {
    assert Repository.Overdue(w.rows, before) <= Running(w.rows);
    assert forall id :: id in Repository.Overdue(w.rows, before) ==> CancelingIn(w.rows, id);
  }

  lemma NextToTimeOut(tasks: seq<Repository.Task>, i: nat, w: World, force: bool)
    requires i < |tasks| && ToTimeOut(tasks, i, w, force)
    ensures tasks[i].id in Running(w.rows) && (force ==> CancelingIn(w.rows, tasks[i].id))
  {}

  lemma ToTimeOutStep(tasks: seq<Repository.Task>, i: nat, w: World, w': World, force: bool)
    requires i < |tasks| && ToTimeOut(tasks, i, w, force) && TimedOut(w, w', tasks[i].id, force)
    ensures ToTimeOut(tasks, i + 1, w', force)
  {
    forall j | i < j < |tasks|
      ensures tasks[j].id in Running(w'.rows) && (force ==> CancelingIn(w'.rows, tasks[j].id))
    {
      assert tasks[j].id in Running(w.rows) - {tasks[i].id};
      if force {
        CancelingStays(w, w', tasks[j].id);
      }
    }
  }

  ghost predicate Removed(a: World, b: World, stalled: set<TaskId>, overdue: set<TaskId>) {
    b.containers.Keys == a.containers.Keys - stalled - overdue
  }

  lemma StartRemoved(a: World, b: World)
    requires b.containers.Keys == a.containers.Keys
    ensures Removed(a, b, {}, {})
  {}

  lemma OneMoreRemoved(a: World, b: World, c: World, done: set<TaskId>, id: TaskId)
    requires Removed(a, b, done, {}) && c.containers.Keys == b.containers.Keys - {id}
    ensures Removed(a, c, done + {id}, {})
  {}

  lemma ContinueRemoved(a: World, b: World, stalled: set<TaskId>)
    requires b.containers.Keys == a.containers.Keys - stalled
    ensures Removed(a, b, stalled, {})
  {}

  lemma RemovedStep(a: World, b: World, c: World, stalled: set<TaskId>, overdue: set<TaskId>, stalled': set<TaskId>,
                    overdue': set<TaskId>, id: TaskId, force: bool)
    requires Removed(a, b, stalled, overdue) && TimedOut(b, c, id, force) && id !in c.containers
    requires if force then stalled' == stalled && overdue' == overdue + {id} else stalled' == stalled + {id} && overdue' == overdue
    ensures Removed(a, c, stalled', overdue')
  {}

  lemma RemovedExactly(a: World, b: World, stalled: set<TaskId>, overdue: set<TaskId>)
    requires Removed(a, b, stalled, overdue)
    ensures b.containers.Keys == a.containers.Keys - stalled - overdue
    ensures overdue == {} ==> b.containers.Keys == a.containers.Keys - stalled
  {}

  lemma ForcedNotRunning(a: World, b: World, id: TaskId)
    requires TimedOut(a, b, id, true) && CancelingIn(a.rows, id)
    ensures id !in Running(b.rows)
  {}

  lemma TimedOutMatched(a: World, b: World, stalled: set<TaskId>, overdue: set<TaskId>)
    requires Matched(a) && TimingOut(a, b, stalled, overdue)
    requires b.containers.Keys == a.containers.Keys - stalled - overdue
    ensures Running(b.rows) - b.containers.Keys == Running(b.rows) * stalled && b.containers.Keys <= Running(b.rows)
  {}

  lemma SoundAt(l: Limits, capped: bool, history: seq<Stored>, i: nat)
    requires AllSound(l, capped, history) && i < |history|
    ensures Sound(l, capped, history[i].rows)
  {}

  lemma CutShort(l: Limits, capped: bool, history: seq<Stored>, i: nat)
    requires AllSound(l, capped, history) && i < |history|
    ensures AllSound(l, capped, history[..i + 1])
  {}
}
