/** How a queue item moves running tasks and their containers together. */
module TaskProgress {
  import opened Options
  import opened TaskTable
  import opened TaskWorld

  /** Containers neither appear nor start again. */
  ghost predicate OnlyExit(a: Containers, b: Containers) {
    forall id :: id in b && b[id] ==> id in a && a[id]
  }

  ghost predicate AllEnded(t: Table, gone: set<TaskId>) {
    forall id :: id in gone ==> Ended(t, id)
  }

  ghost predicate NewHaveContainers(a: World, b: World) {
    forall id :: id in Running(b.rows) && id !in Running(a.rows) ==> id in b.containers && id !in a.containers
  }

  ghost predicate OnlyRemovedOfEnded(a: World, b: World, gone: set<TaskId>) {
    forall id :: id in a.containers && id !in b.containers ==> id in gone || (id !in Running(a.rows) && Ended(b.rows, id))
  }

  /**
   * Between a and b the tasks gone have ended; any other task that ran still runs; every newly running task has a
   * new container; a container was only removed if its task is gone or was not running and has ended since.
   */
  ghost predicate Progressed(a: World, b: World, gone: set<TaskId>) {
    && Evolves(a, b)
    && AllEnded(b.rows, gone)
    && Running(a.rows) - gone <= Running(b.rows)
    && NewHaveContainers(a, b)
    && OnlyRemovedOfEnded(a, b, gone)
    && Holders(b.rows) <= Holders(a.rows)
  }

  /** The only containers added are those of newly running tasks. */
  ghost predicate NoLeftovers(a: World, b: World) {
    b.containers.Keys <= a.containers.Keys + (Running(b.rows) - Running(a.rows))
  }

  /** The managed containers are exactly those of the running tasks. */
  ghost predicate Matched(w: World) {
    w.containers.Keys == Running(w.rows)
  }

  lemma InterleavesExit(a: World, b: World)
    requires Interleaves(a, b)
    ensures Running(b.rows) == Running(a.rows) && Holders(b.rows) == Holders(a.rows)
    ensures b.containers.Keys == a.containers.Keys && OnlyExit(a.containers, b.containers) && Evolves(a, b)
  {
    InterleavesHolders(a, b);
  }

  lemma EndedIsNotRunning(t: Table, id: TaskId)
    requires Ended(t, id)
    ensures id !in Running(t)
  {}

  lemma EndedStays(a: World, b: World, id: TaskId)
    requires Ended(a.rows, id) && Evolves(a, b)
    ensures Ended(b.rows, id)
  {}

  lemma InterleavingProgresses(a: World, b: World)
    requires Interleaves(a, b)
    ensures Progressed(a, b, {}) && NoLeftovers(a, b)
  {
    InterleavesExit(a, b);
  }

  lemma AllEndedStays(a: World, b: World, gone: set<TaskId>)
    requires AllEnded(a.rows, gone) && Evolves(a, b)
    ensures AllEnded(b.rows, gone) && gone !! Running(b.rows)
  {
    forall id | id in gone ensures Ended(b.rows, id) {
      assert Ended(a.rows, id);
    }
  }

  lemma NewThen(a: World, b: World, c: World, h: set<TaskId>)
    requires NewHaveContainers(a, b) && NewHaveContainers(b, c) && OnlyRemovedOfEnded(b, c, h) && h !! Running(c.rows)
    requires forall id :: id in a.containers && id !in b.containers ==> id in Running(a.rows) || id !in Running(c.rows)
    ensures NewHaveContainers(a, c)
  {
    hide Running, Ended;
  }

  lemma RemovedThen(a: World, b: World, c: World, g: set<TaskId>, h: set<TaskId>)
    requires OnlyRemovedOfEnded(a, b, g) && OnlyRemovedOfEnded(b, c, h) && Evolves(b, c)
    requires Running(a.rows) - g <= Running(b.rows)
    ensures OnlyRemovedOfEnded(a, c, g + h)
  {
    forall id | id in a.containers && id !in c.containers
      ensures id in g + h || (id !in Running(a.rows) && Ended(c.rows, id))
    {
      if id !in b.containers && id !in g {
        EndedStays(b, c, id);
      }
    }
  }

  /** Progress composes, as long as what ends in the second part was already running at the start or not at all. */
  lemma ProgressThen(a: World, b: World, g: set<TaskId>, c: World, h: set<TaskId>)
    requires Progressed(a, b, g) && Progressed(b, c, h) && h * Running(b.rows) <= Running(a.rows)
    ensures Progressed(a, c, g + h)
  {
    EvolvesTransitive(a, b, c);
    AllEndedStays(b, c, g);
    AllEndedStays(c, c, h) by {
      assert Evolves(c, c);
    }
    RemovedThen(a, b, c, g, h);
    forall id | id in a.containers && id !in b.containers ensures id in Running(a.rows) || id !in Running(c.rows) {
      if id !in g && id !in Running(a.rows) {
        EndedStays(b, c, id);
      }
    }
    NewThen(a, b, c, h);
  }

  // ---- One task at a time

  lemma LaunchProgresses(a: World, b: World, id: TaskId)
    requires Evolves(a, b) && id !in Running(a.rows) && Holders(b.rows) <= Holders(a.rows)
    requires Running(b.rows) == Running(a.rows) + {id}
    requires id !in a.containers && b.containers.Keys == a.containers.Keys + {id}
    ensures Progressed(a, b, {}) && NoLeftovers(a, b)
  {}

  lemma FailureProgresses(a: World, b: World, id: TaskId)
    requires Evolves(a, b) && id !in Running(a.rows) && Holders(b.rows) <= Holders(a.rows)
    requires Running(b.rows) == Running(a.rows) && Ended(b.rows, id)
    requires a.containers.Keys - {id} <= b.containers.Keys <= a.containers.Keys + {id}
    ensures Progressed(a, b, {}) && (id !in b.containers ==> NoLeftovers(a, b))
  {}

  lemma EndProgresses(a: World, b: World, id: TaskId)
    requires Evolves(a, b) && Holders(b.rows) <= Holders(a.rows)
    requires Running(b.rows) == Running(a.rows) - {id} && Ended(b.rows, id)
    requires a.containers.Keys - {id} <= b.containers.Keys <= a.containers.Keys
    ensures Progressed(a, b, {id}) && NoLeftovers(a, b)
  {}

  /** Matching containers and running tasks survive progress that leaves nothing behind. */
  lemma MatchedAfter(a: World, b: World, gone: set<TaskId>)
    requires Matched(a) && Progressed(a, b, gone) && NoLeftovers(a, b) && gone !! b.containers.Keys
    ensures Matched(b)
  {
    AllEndedStays(b, b, gone) by {
      assert Evolves(b, b);
    }
    forall id ensures id in b.containers <==> id in Running(b.rows) {
      if id in a.containers && id in b.containers {
        assert id in Running(a.rows);
      }
      if id in Running(a.rows) && id in Running(b.rows) {
        assert id in a.containers;
      }
    }
  }

  lemma RunningOfSame(a: Table, b: Table, u: User)
    requires Later(a, b) && Running(b) == Running(a)
    ensures RunningOf(b, u) == RunningOf(a, u)
  {
    forall id ensures id in RunningOf(b, u) <==> id in RunningOf(a, u) {
      assert id in Running(b) <==> id in Running(a);
    }
  }

  lemma RunningOfOneMore(a: Table, b: Table, id: TaskId, u: User)
    requires Later(a, b) && id !in Running(a) && Running(b) == Running(a) + {id} && id in a
    ensures RunningOf(b, u) == RunningOf(a, u) + if u == a[id].username then {id} else {}
  {
    forall x ensures x in RunningOf(b, u) <==> x in RunningOf(a, u) + if u == a[id].username then {id} else {} {
      assert x in Running(b) <==> x in Running(a) + {id};
    }
  }

  // ---- A launch

  /** The statement that activates; a task already cancelled is left ended. */
  ghost predicate ActivateEffect(a: World, b: World, id: TaskId, activated: bool) {
    && Evolves(a, b)
    && Begun(b.rows, id)
    && id !in Running(a.rows)
    && (if activated then Running(b.rows) == Running(a.rows) + {id} else Running(b.rows) == Running(a.rows))
    && Holders(b.rows) == Holders(a.rows)
    && b.containers.Keys == a.containers.Keys
  }

  /** The rest: a running container, or an ended task. */
  ghost predicate StartEffect(a: World, b: World, id: TaskId, launched: bool, threw: bool) {
    && Evolves(a, b)
    && (if launched then Running(b.rows) == Running(a.rows) else Running(b.rows) == Running(a.rows) - {id})
    && Holders(b.rows) <= Holders(a.rows)
    && a.containers.Keys - {id} <= b.containers.Keys <= a.containers.Keys + {id}
    && (launched ==> !threw && id !in a.containers && id in b.containers)
    && (!launched ==> Ended(b.rows, id))
    && (!launched && !threw ==> id !in b.containers)
  }

  ghost predicate LaunchEffect(a: World, b: World, id: TaskId, launched: bool, threw: bool) {
    && Progressed(a, b, {})
    && Begun(b.rows, id)
    && id !in Running(a.rows)
    && (if launched then Running(b.rows) == Running(a.rows) + {id} else Running(b.rows) == Running(a.rows))
    && (launched ==> !threw)
    && (!threw ==> NoLeftovers(a, b))
  }

  lemma NotActivatedEffect(a: World, b: World, id: TaskId)
    requires ActivateEffect(a, b, id, false)
    ensures LaunchEffect(a, b, id, false, false)
  {}

  lemma ActivatedEffect(a: World, b: World, c: World, id: TaskId, launched: bool, threw: bool)
    requires ActivateEffect(a, b, id, true) && StartEffect(b, c, id, launched, threw)
    ensures LaunchEffect(a, c, id, launched, threw)
  {
    if launched {
      StartedEffect(a, b, c, id);
    } else {
      AbandonedEffect(a, b, c, id, threw);
    }
  }

  lemma StartedEffect(a: World, b: World, c: World, id: TaskId)
    requires ActivateEffect(a, b, id, true) && StartEffect(b, c, id, true, false)
    ensures LaunchEffect(a, c, id, true, false)
  {
    hide Running, Holders, Ended, Begun, Evolves, Progressed, NoLeftovers;
    EvolvesTransitive(a, b, c);
    BegunStays(b, c, id);
    assert c.containers.Keys == a.containers.Keys + {id};
    LaunchProgresses(a, c, id);
  }

  lemma AbandonedEffect(a: World, b: World, c: World, id: TaskId, threw: bool)
    requires ActivateEffect(a, b, id, true) && StartEffect(b, c, id, false, threw)
    ensures LaunchEffect(a, c, id, false, threw)
  {
    hide Running, Holders, Ended, Begun, Evolves, Progressed, NoLeftovers;
    EvolvesTransitive(a, b, c);
    BegunStays(b, c, id);
    assert Running(c.rows) == Running(a.rows);
    FailureProgresses(a, c, id);
  }

  lemma BegunStays(a: World, b: World, id: TaskId)
    requires Begun(a.rows, id) && Evolves(a, b)
    ensures Begun(b.rows, id)
  {}

  // ---- A dispatch

  /** Between the two worlds nothing was left behind and everything that ran still runs. */
  ghost predicate Dispatched(a: World, b: World) {
    Progressed(a, b, {}) && NoLeftovers(a, b)
  }

  lemma DispatchedInterleaving(a: World, b: World, c: World)
    requires Dispatched(a, b) && Interleaves(b, c)
    ensures Dispatched(a, c)
  {
    InterleavingProgresses(b, c);
    DispatchedThen(a, b, c);
  }

  lemma DispatchedThen(a: World, b: World, c: World)
    requires Dispatched(a, b) && Progressed(b, c, {})
    ensures Progressed(a, c, {}) && (NoLeftovers(b, c) ==> Dispatched(a, c))
  {
    var none: set<TaskId> := {};
    ProgressThen(a, b, none, c, none);
    assert none + none == none;
    if NoLeftovers(b, c) {
      LeftoversThen(a, b, none, c, none);
    }
  }

  /** The counts a dispatch keeps are those of the stored tasks. */
  ghost predicate CountsMatch(byUser: map<User, nat>, t: Table) {
    forall u :: (if u in byUser then byUser[u] else 0) == |RunningOf(t, u)|
  }

  lemma CountsInterleaving(byUser: map<User, nat>, a: World, b: World)
    requires CountsMatch(byUser, a.rows) && Interleaves(a, b)
    ensures CountsMatch(byUser, b.rows)
  {
    forall u ensures RunningOf(b.rows, u) == RunningOf(a.rows, u) {
      InterleavesRunningOf(a, b, u);
    }
  }

  lemma CountsLaunch(byUser: map<User, nat>, a: World, b: World, id: TaskId, launched: bool, threw: bool)
    requires CountsMatch(byUser, a.rows) && LaunchEffect(a, b, id, launched, threw) && id in a.rows
    ensures !launched ==> CountsMatch(byUser, b.rows)
    ensures launched ==>
              var u := a.rows[id].username;
              CountsMatch(byUser[u := (if u in byUser then byUser[u] else 0) + 1], b.rows)
    ensures |Running(b.rows)| == |Running(a.rows)| + if launched then 1 else 0
  {
    hide Later, Progressed, NoLeftovers, Begun, Running, RunningOf;
    LaunchIsLater(a, b, id, launched, threw);
    forall u ensures |RunningOf(b.rows, u)| == |RunningOf(a.rows, u)| + if launched && u == a.rows[id].username then 1 else 0 {
      if launched {
        RunningOfSize(a.rows, b.rows, id, u);
      } else {
        RunningOfSame(a.rows, b.rows, u);
      }
    }
  }

  lemma RunningOfSize(a: Table, b: Table, id: TaskId, u: User)
    requires Later(a, b) && id !in Running(a) && Running(b) == Running(a) + {id} && id in a
    ensures |RunningOf(b, u)| == |RunningOf(a, u)| + if u == a[id].username then 1 else 0
  {
    RunningOfOneMore(a, b, id, u);
    assert id !in RunningOf(a, u) by {
      assert id !in Running(a);
    }
  }

  lemma LaunchIsLater(a: World, b: World, id: TaskId, launched: bool, threw: bool)
    requires LaunchEffect(a, b, id, launched, threw)
    ensures Later(a.rows, b.rows)
  {}

  /** A round of dispatch that picked a pending task leaves fewer tasks that could still be picked. */
  lemma RoundDrops(a: World, b: World, c: World, id: TaskId, launched: bool, threw: bool)
    requires Interleaves(a, b) && id in b.rows && b.rows[id].state == PENDING && LaunchEffect(b, c, id, launched, threw)
    ensures Unstarted(c) < Unstarted(a)
  {
    UnstartedDrops(a, b, id);
    UnstartedDrops(b, c, id);
  }

  lemma LeftoversThen(a: World, b: World, g: set<TaskId>, c: World, h: set<TaskId>)
    requires Progressed(a, b, g) && NoLeftovers(a, b)
    requires Progressed(b, c, h) && NoLeftovers(b, c) && h !! c.containers.Keys
    ensures NoLeftovers(a, c)
  {
    AllEndedStays(b, c, g);
    hide Evolves, Ended, Running, Holders;
  }

  // ---- A reconcile

  /** Tasks of a set whose container was not listed as running. */
  ghost function NotListedRunning(listed: Containers, ids: set<TaskId>): set<TaskId> {
    set id | id in ids && !(id in listed && listed[id])
  }

  /** Where a reconcile stands after handling some of the tasks it found running at a. */
  ghost predicate Reconciling(a: World, b: World, listed: Containers, handled: set<TaskId>) {
    && handled <= Running(a.rows)
    && listed.Keys == a.containers.Keys
    && Progressed(a, b, NotListedRunning(listed, handled))
    && NoLeftovers(a, b)
    && NotListedRunning(listed, handled) !! b.containers.Keys
  }

  lemma StartReconciling(a: World, listed: Containers)
    requires listed.Keys == a.containers.Keys
    ensures Reconciling(a, a, listed, {})
  {
    assert NotListedRunning(listed, {}) == {};
    assert Evolves(a, a);
  }

  /** A task listed with a running container is left alone. */
  lemma ReconciledRunning(a: World, b: World, listed: Containers, handled: set<TaskId>, id: TaskId)
    requires Reconciling(a, b, listed, handled) && id in Running(a.rows) && id in listed && listed[id]
    ensures Reconciling(a, b, listed, handled + {id})
  {
    assert NotListedRunning(listed, handled + {id}) == NotListedRunning(listed, handled);
  }

  /** A task without a running container has ended and has no container any more. */
  lemma ReconciledGone(a: World, b: World, c: World, listed: Containers, handled: set<TaskId>, id: TaskId)
    requires Reconciling(a, b, listed, handled) && id in Running(a.rows) && !(id in listed && listed[id])
    requires Progressed(b, c, {id})
    ensures Progressed(a, c, NotListedRunning(listed, handled + {id}))
    ensures NoLeftovers(b, c) && id !in c.containers ==> Reconciling(a, c, listed, handled + {id})
  {
    var g := NotListedRunning(listed, handled);
    assert NotListedRunning(listed, handled + {id}) == g + {id};
    hide NotListedRunning;
    ProgressThen(a, b, g, c, {id});
    AllEndedStays(b, c, g);
    if NoLeftovers(b, c) && id !in c.containers {
      LeftoversThen(a, b, g, c, {id});
      assert (g + {id}) !! c.containers.Keys;
    }
  }

  /** A task not yet handled is still running; without a listed container it has none. */
  lemma StillToReconcile(a: World, b: World, listed: Containers, handled: set<TaskId>, id: TaskId)
    requires Reconciling(a, b, listed, handled) && id in Running(a.rows) && id !in handled
    ensures id in Running(b.rows) && Begun(b.rows, id)
    ensures id !in listed ==> id !in b.containers
  {}

  /** Tasks listed with a running container never end. */
  lemma ListedRunningSurvive(a: World, b: World, listed: Containers, handled: set<TaskId>)
    requires Progressed(a, b, NotListedRunning(listed, handled))
    ensures forall id :: id in Running(a.rows) && id in listed && listed[id] ==> id in Running(b.rows)
  {
    forall id | id in Running(a.rows) && id in listed && listed[id] ensures id in Running(b.rows) {
      assert id !in NotListedRunning(listed, handled);
      assert id in Running(a.rows) - NotListedRunning(listed, handled);
    }
  }

  /** The containers without a running task belong to no task that runs now. */
  lemma StraysNotRunning(a: World, b: World, listed: Containers, handled: set<TaskId>, id: TaskId)
    requires Reconciling(a, b, listed, handled) && id in listed && id !in Running(a.rows)
    ensures id !in Running(b.rows)
  {
    assert id in a.containers;
  }

  /** Once every task is handled and the strays are removed, containers and running tasks match. */
  lemma Reconciled(a: World, b: World, listed: Containers, c: World)
    requires Reconciling(a, b, listed, Running(a.rows)) && Running(c.rows) == Running(b.rows)
    requires c.containers.Keys == b.containers.Keys - (listed.Keys - Running(a.rows))
    ensures Matched(c)
  {
    var g := NotListedRunning(listed, Running(a.rows));
    AllEndedStays(b, b, g) by {
      assert Evolves(b, b);
    }
    forall id ensures id in c.containers <==> id in Running(c.rows) {
      if id in c.containers {
        assert id in a.containers || id in Running(b.rows);
        if id in a.containers {
          assert id in listed && id in Running(a.rows);
          assert id !in g;
        }
      }
      if id in Running(c.rows) {
        if id in listed && id !in Running(a.rows) {
          StraysNotRunning(a, b, listed, Running(a.rows), id);
        }
        if id in Running(a.rows) {
          assert id !in g;
          assert id in listed && listed[id];
          assert id in a.containers;
        }
        assert id in b.containers;
      }
    }
  }

  // ---- Timeouts

  ghost predicate CancelingIn(t: Table, id: TaskId) {
    id in t && t[id].state == CANCELING
  }

  /** What a timeout makes of a task: an overdue one is canceled, a stalled one has failed, or is being canceled meanwhile. */
  ghost predicate OutOfTime(t: Table, id: TaskId, force: bool) {
    id in t && if force then t[id].state == CANCELED else t[id].state == FAILED || t[id].state == CANCELING
  }

  /** One task timed out: it has ended, or, if its user cancelled it meanwhile, it is still canceling. */
  ghost predicate TimedOut(a: World, b: World, id: TaskId, force: bool) {
    && Evolves(a, b)
    && Running(a.rows) - {id} <= Running(b.rows) <= Running(a.rows)
    && (id in Running(b.rows) ==> CancelingIn(b.rows, id) && !(force && CancelingIn(a.rows, id)))
    && (id in Running(a.rows) && (force ==> CancelingIn(a.rows, id)) ==> OutOfTime(b.rows, id, force))
    && a.containers.Keys - {id} <= b.containers.Keys <= a.containers.Keys
  }

  /** Where the timeouts stand: stalled were read as active, overdue as canceling. */
  ghost predicate TimingOut(a: World, b: World, stalled: set<TaskId>, overdue: set<TaskId>) {
    && Evolves(a, b)
    && Running(a.rows) - stalled - overdue <= Running(b.rows) <= Running(a.rows)
    && (forall id :: id in Running(b.rows) && id in stalled ==> CancelingIn(b.rows, id))
    && overdue !! Running(b.rows)
    && (forall id <- stalled - overdue :: OutOfTime(b.rows, id, false))
    && (forall id <- overdue :: OutOfTime(b.rows, id, true))
    && a.containers.Keys - stalled - overdue <= b.containers.Keys <= a.containers.Keys
  }

  lemma CancelingStays(a: World, b: World, id: TaskId)
    requires CancelingIn(a.rows, id) && Evolves(a, b) && id in Running(b.rows)
    ensures CancelingIn(b.rows, id)
  {}

  /** Other tasks stay out of time in the way they are. */
  lemma StaysOutOfTime(a: World, b: World, id: TaskId, force: bool)
    requires OutOfTime(a.rows, id, force) && Evolves(a, b) && (id in Running(a.rows) ==> id in Running(b.rows))
    ensures OutOfTime(b.rows, id, force)
  {
    if id in Running(a.rows) {
      CancelingStays(a, b, id);
    }
  }

  lemma OthersStayOut(a: World, b: World, ids: set<TaskId>, force: bool, out: set<TaskId>)
    requires (forall id <- ids :: OutOfTime(a.rows, id, force)) && Evolves(a, b) && Running(a.rows) - out <= Running(b.rows)
    ensures forall id <- ids :: id !in out ==> OutOfTime(b.rows, id, force)
  {
    hide OutOfTime, Running, Evolves;
    forall id <- ids | id !in out ensures OutOfTime(b.rows, id, force) {
      StaysOutOfTime(a, b, id, force);
    }
  }

  lemma StillCanceling(a: World, b: World, ids: set<TaskId>)
    requires (forall id :: id in Running(a.rows) && id in ids ==> CancelingIn(a.rows, id))
    requires Evolves(a, b) && Running(b.rows) <= Running(a.rows)
    ensures forall id :: id in Running(b.rows) && id in ids ==> CancelingIn(b.rows, id)
  {
    hide Running, Evolves, CancelingIn;
    forall id | id in Running(b.rows) && id in ids ensures CancelingIn(b.rows, id) {
      CancelingStays(a, b, id);
    }
  }

  lemma StalledOut(a: World, b: World, c: World, stalled: set<TaskId>, id: TaskId)
    requires TimingOut(a, b, stalled, {}) && TimedOut(b, c, id, false) && id in Running(b.rows)
    ensures TimingOut(a, c, stalled + {id}, {})
  {
    hide Evolves, Running, OutOfTime, CancelingIn;
    var none: set<TaskId> := {};
    EvolvesTransitive(a, b, c);
    StillCanceling(b, c, stalled);
    assert stalled - none == stalled && stalled + {id} - none == stalled + {id};
    OthersStayOut(b, c, stalled, false, {id});
  }

  lemma OverdueOut(a: World, b: World, c: World, stalled: set<TaskId>, overdue: set<TaskId>, id: TaskId)
    requires TimingOut(a, b, stalled, overdue) && TimedOut(b, c, id, true) && CancelingIn(b.rows, id) && id in Running(b.rows)
    ensures TimingOut(a, c, stalled, overdue + {id})
  {
    hide Evolves, Running, OutOfTime, CancelingIn;
    EvolvesTransitive(a, b, c);
    StillCanceling(b, c, stalled);
    OthersStayOut(b, c, stalled - overdue, false, {id});
    OthersStayOut(b, c, overdue, true, {id});
    assert id in Running(b.rows) && id !in overdue;
  }

  lemma TimingOutInterleaving(a: World, b: World, c: World, stalled: set<TaskId>, overdue: set<TaskId>)
    requires TimingOut(a, b, stalled, overdue) && Interleaves(b, c)
    ensures TimingOut(a, c, stalled, overdue)
  {
    InterleavingSame(b, c);
    hide Evolves, Running, OutOfTime, CancelingIn, Interleaves;
    EvolvesTransitive(a, b, c);
    StillCanceling(b, c, stalled);
    OthersStayOut(b, c, stalled - overdue, false, {});
    OthersStayOut(b, c, overdue, true, {});
  }

  lemma InterleavingSame(b: World, c: World)
    requires Interleaves(b, c)
    ensures Evolves(b, c) && Running(b.rows) == Running(c.rows) && b.containers.Keys == c.containers.Keys
  {}

  lemma ActiveTimedOut(a: World, b: World, c: World, op: Op)
    requires op.FailStalled? || op.ForceCancel?
    requires Interleaves(a, b) && op.id in Running(a.rows) && (op.ForceCancel? ==> CancelingIn(a.rows, op.id))
    requires c == World(After(b.rows, op), b.containers, b.submissions)
    ensures TimedOut(a, c, op.id, op.ForceCancel?) && Holders(c.rows) <= Holders(b.rows)
  {
    EndSets(b.rows, op);
    QueueStepEvolves(b, op, c);
    EvolvesTransitive(a, b, c);
    assert op.id in Running(b.rows);
    EndedOut(b.rows, op);
    hide Evolves, Apply, OutOfTime;
  }

  lemma EndedOut(t: Table, op: Op)
    requires (op.FailStalled? || op.ForceCancel?) && op.id in Running(t) && (op.ForceCancel? ==> CancelingIn(t, op.id))
    ensures OutOfTime(After(t, op), op.id, op.ForceCancel?)
  {}

  lemma TimedOutThen(a: World, b: World, c: World, id: TaskId, force: bool)
    requires TimedOut(a, b, id, force) && Evolves(b, c) && Running(c.rows) == Running(b.rows)
    requires b.containers.Keys - {id} <= c.containers.Keys <= b.containers.Keys
    ensures TimedOut(a, c, id, force)
  {
    EvolvesTransitive(a, b, c);
    if id in Running(c.rows) {
      CancelingStays(b, c, id);
    }
  }
}
