# Verified models of SEPAL services

SEPAL is a platform of small services. This project models the parts of it that are hardest to get right and proves,
for all inputs and all runs, what those parts promise. Each group of modules follows one place in the repository.

**Task manager** (`modules/task-manager/src`). A table of tasks that changes only through conditional statements, one
container per launched task, and a supervisor whose single queue dispatches, collects, reconciles, times out, and hands
out local processing slots.

- `TaskTable` gives every SQL statement as a function on table values, and `SlotTokens`, about runs of any statements
  from any programs in any order, the theorems that need nothing but the statements. `TaskReadings` says of each column,
  without naming the functions, which statement wrote it and at which reading of the clock, also over whole runs.
- `SlotLine` is the waiting line for slots; `TaskRepository` and `Docker` are the database and the engine as objects.
- `Supervisor` is the supervisor itself. Between any two statements or engine calls of a queue item it calls
  `Interfere`, which lets users submit, cancel, resubmit, remove and report, lets containers write results and exit, and
  records every state. `Serve` runs any number of items of any kind and lets the process die and start again at any
  recorded state, of a start too. `TaskWorld` and `TaskProgress` hold what is proved about pairs of states.
- `TaskHistory` is about the recorded run: what may lie between one state and the next. A task starts only if it was
  rightly chosen, turns canceled only if its user cancelled it, and completed only after its container said so. That is
  part of the supervisor's invariant, so every statement it issues is proved to be such a step.
- `TaskCommands` is the user's side, with the supervisor and other users acting between its statements.

**Development CLI** (`dev-env/src`). `CycleFinder` is the depth-first search that validates the dependency
configuration (`Digraph` and `CycleNaming` hold the graph theory and the naming of cycles). `RunSchedule` and
`BuildPlan` are the two recursions that the validation guards; their recursion depth is a parameter, so that
"terminates" can be stated and characterised rather than assumed. `DepsValidation` joins them: a configuration passes
exactly when starting anything and building anything comes to an end.

**Budget** (`modules/budget/src`). `SessionUse` is the session-use table under deliveries that are late, repeated and out
of order; `SessionReconciler` compares it with the worker while both keep changing; `StorageUse` accumulates
GB-hours over real numbers; `InstanceSpending` charges the session-use rows; `Calendar` is the UTC calendar.

**GUI state** (`modules/gui/src/stateUtils.js`). `StatePaths` is what the mutator means on JSON trees: which item a
template finds, what a write changes there, and the lens laws.
`StateMutator` is how it does it: on an explicit memory of cells, by cloning the nodes along a path and assigning into the
clones, refined against `StatePaths`.

**Recipes** (`modules/recipe/src/recipeRepository.js`) and **scenes** (`modules/scene-metadata/src/sceneRepository.js`).
`Recipes` is the table under optimistic concurrency; `Scenes` is the selection loop and its `LIMIT`.

## Where the code and its promises part

- The first row of storage use: without a row the repository answers its own clock reading, taken after the reading that
  dates the measurement, so the first GB-hours are negative by half the size times the delay
  (`StorageUse.FirstReadingDelay`, and exactly when: `StorageUse.FirstRowNegative`).
- A stalled task whose user cancels it between the query and the conditional update is not ended, yet its container is
  killed. It is left canceling without a container until the next reconcile (`Supervisor.StalledCancelLosesContainer`).
  `Supervisor.ContainerSupervisor.EnforceTimeouts` shows that this is the only way in which timeouts part running tasks
  from containers.
- The comment on session use promises convergence of all deliveries. Stale closes count: two deliveries of the same
  opens and real closes agree if and only if the sessions that no real close reached were first found by the same stale
  close (`SessionUse.Confluence`); an open and a stale close that change places are such a case
  (`SessionUse.StaleOrderMatters`).
- The reconciler alone makes the open rows those of the worker if and only if no open session's row was closed before;
  opening never clears an end (`SessionReconciler.ReconciledMatches`).
- Slot grants are named by their clock reading. A release of an earlier grant can end a later one of the same task if and
  only if both were made in one reading (`SlotTokens.LateReleaseEndsExactly`; a run in which it does:
  `SlotTokens.SameReadingCollides`). Readings shared by different tasks do no harm.
- A grant can take a waiter of the same user out of turn, though not one of another user. With three waiters it does
  (`SlotLine.GrantCanPassSameUser`); exactly when is a count (`SlotLine.GrantToSameUserExact`).
- What the mutator sets is not always read back: exactly when is a condition on the tree, the path and the value
  (`StatePaths.ReadsBack`, `StatePaths.SetGetExactly`). Setting a template inside an object, for one, stores the value
  under the name "undefined" (`StatePaths.TemplateInObject`).
- `setIfChanged` is not always `set`. It turns its list of names into a list once more before it reads, so a name with a
  dot is read as two: with {a: {b: 1}} and the one name "a.b" it finds a 1 that `set` would not overwrite
  (`StatePaths.DottedNameDiffers`, `StatePaths.DottedNameMissed`). An undefined value can read as there where `set` would
  create the path (`StatePaths.UndefinedDiffers`), and a name that is no number cannot be read from an array that `set`
  can write to (`StatePaths.ArrayNameDiffers`). Exactly when they agree: `StatePaths.SetIfChangedExactly`.
- Two kinds of names are not what they look like at an array: a negative integer, which is set and read as a property of
  the array itself until the array is next cloned, and "length", whose write changes the items
  (`StatePaths.NegativeNameReads`, `StatePaths.LengthCuts`).
- Reading only the first `maxScenes` rows gives the scenes of all rows if and only if `maxScenes` is at least one or there
  are no rows (`Scenes.LimitIsExact`).
- A rejected save can be explained by a conflict with the very revision it expected, when other writes to the row come
  between: if and only if its writer was ahead of the row, or of a recipe that was not there (`Recipes.LateExplanation`).
  The two statements run in one transaction without a stated isolation level. At a level that releases a row the update
  did not match, such as READ COMMITTED, this can happen; at REPEATABLE READ the row, or the gap where it is missing,
  stays locked, and the explanation is the true one (`Recipes.LockedExplanation`).

## Model

| member | source | states |
|---|---|---|
| TaskTable.RunIsLater | modules/task-manager/src/taskRepository.js:70-88 | in every run of statements rows stay, keep owner and creation time, only move forward through their life, and stay removed |
| TaskTable.ActivatedOnce | modules/task-manager/src/taskRepository.js:70-77 | a task becomes ACTIVE at most once, whatever interleaves |
| TaskTable.EndsOnce | modules/task-manager/src/taskRepository.js:79-88 | a task ends at most once and its final state never changes |
| TaskTable.RunKeepsKeys | modules/task-manager/src/taskRepository.js:70-88 | in every reachable table a task has a key hash exactly while it is ACTIVE or CANCELING |
| TaskTable.ResubmittedOnce | modules/task-manager/src/taskRepository.js:175-178 | of any number of concurrent removals of a task, by resubmits or not, one succeeds |
| TaskReadings.InsertTold | modules/task-manager/src/taskRepository.js:20-28 | a new task is pending, created and updated at the reading of its insert, with nothing else told about it |
| TaskReadings.OthersKept | modules/task-manager/src/taskRepository.js:70-128 | a statement about one task leaves every other task alone and stores none |
| TaskReadings.StateTold | modules/task-manager/src/taskRepository.js:70-88 | exactly which statement brings a task into which state, and from which |
| TaskReadings.TimesTold | modules/task-manager/src/taskRepository.js:70-96 | exactly which statements write the times of the last update and progress, and that they write their reading; owner and creation time never change |
| TaskReadings.SlotTold | modules/task-manager/src/taskRepository.js:98-128 | exactly which statements grant, renew and release a slot |
| TaskReadings.KeyAndRemovalTold | modules/task-manager/src/taskRepository.js:70-88 | the key comes with the activation and goes with the end; exactly which statements remove |
| TaskReadings.AffectedTold | modules/task-manager/src/taskRepository.js:70-178 | a statement about one task reports an affected row exactly if it changed the column it is about |
| TaskReadings.StoredWith | modules/task-manager/src/taskRepository.js:20-28 | over every run a task keeps the user and the reading of its insert |
| TaskReadings.RecentIsNotFound | modules/task-manager/src/taskRepository.js:151-165 | over every run a task activated, reporting, asked to cancel or reset at or after a bound is found by neither timeout query, while no reading is before the bound |
| TaskReadings.FoundExactly | modules/task-manager/src/taskRepository.js:151-165 | it is found exactly if the reading of the last such statement is before the bound |
| TaskWorld.RunKeepsConsistent | modules/task-manager/src/taskRepository.js:20-149 | every table reachable from the empty one matches keys to states and has no slot on a task never launched |
| TaskWorld.WithinTold | modules/task-manager/src/containerSupervisor.js:125-173 | within the limits means: of no user, and in all, are more tasks than allowed active or canceling, nor have more of these a slot |
| TaskWorld.LaunchWithin | modules/task-manager/src/containerSupervisor.js:125-145 | activating a task of a user below the limit, with room for one more, keeps all three limits |
| TaskWorld.GrantWithin | modules/task-manager/src/containerSupervisor.js:149-173 | granting a slot while fewer are held than allowed keeps all three limits |
| TaskWorld.UnstartedDrops | modules/task-manager/src/containerSupervisor.js:125-139 | the tasks that could still be picked lose one, for good, when one is started |
| SlotTokens.LateReleaseEndsNothing | modules/task-manager/src/taskRepository.js:98-128 | while the task's own slot does not get its reading again, a release naming an earlier grant ends no later grant or renewal, however late or often repeated; other tasks may share readings |
| SlotTokens.LateReleaseEndsExactly | modules/task-manager/src/taskRepository.js:98-128 | in any run some release naming the grant would end a later grant of the task if and only if a later grant of the task took effect in the same reading |
| SlotTokens.GrantEndsOnce | modules/task-manager/src/taskRepository.js:117-128 | each grant is ended by at most one release, while its task's slot does not get the reading again |
| SlotTokens.GoneForGood | modules/task-manager/src/taskRepository.js:98-128 | a grant that the task does not hold, and whose reading its slot does not get again, is never held again |
| SlotTokens.SameReadingCollides | modules/task-manager/src/taskRepository.js:98-105 | two grants in one clock reading share a name: the second release of the first ends the second |
| SlotLine.SortKeeps | modules/task-manager/src/localProcessingSlots.js:35-38 | sorting the line loses and invents no waiter |
| SlotLine.SortAscending | modules/task-manager/src/localProcessingSlots.js:35-38 | the sorted line is strictly ascending in slots held, time of the first request, arrival |
| SlotLine.InTurnExact | modules/task-manager/src/localProcessingSlots.js:35-41 | a waiter is in turn exactly when fewer waiters precede it than there are free slots |
| SlotLine.RequestExact | modules/task-manager/src/localProcessingSlots.js:8-17 | a request succeeds exactly when fewer than the free slots precede the task among those not abandoned; then it leaves the line, else it waits in it |
| SlotLine.RequestTold | modules/task-manager/src/localProcessingSlots.js:8-41 | in terms of the waiters alone: the answer counts the others seen in the last 30 seconds whose owner holds fewer, or as many and that asked first earlier, against the free slots; all others stay as they are unless not seen for longer; the task leaves with its answer or waits since it first asked |
| SlotLine.NewcomerWaits | modules/task-manager/src/localProcessingSlots.js:8-41 | a newcomer is not in turn while as many waiters as there are free slots hold no more and asked no later |
| SlotLine.PollingKeepsOrder | modules/task-manager/src/localProcessingSlots.js:8-17 | a poll by a waiter not in turn never changes the order of those still waiting |
| SlotLine.KeepKeepsOrder | modules/task-manager/src/localProcessingSlots.js:27-33 | dropping abandoned waiters keeps the line valid and the others in order |
| SlotLine.GrantKeepsOthersInTurn | modules/task-manager/src/containerSupervisor.js:149-173 | a grant keeps in turn every waiter of another user that was in turn |
| SlotLine.GrantToSameUserExact | modules/task-manager/src/localProcessingSlots.js:35-41 | a waiter of the same user is in turn after the grant if and only if those ahead of it, but for the task granted, and those that pass it are fewer than the slots then free |
| SlotLine.GrantCanPassSameUser | modules/task-manager/src/localProcessingSlots.js:35-41 | so it can fall out of turn: three waiters and two free slots, with both waiters of one user in turn before the grant to one and the other not after |
| SlotLine.LocalProcessingSlots.Request | modules/task-manager/src/localProcessingSlots.js:8-17 | the line in place: entering, dropping the abandoned, the answer and leaving are those of Requested |
| SlotLine.LocalProcessingSlots.Remove | modules/task-manager/src/localProcessingSlots.js:23-25 | removing a waiter takes out it alone |
| TaskRepository.TaskRepository.Insert | modules/task-manager/src/taskRepository.js:20-28 | inserts, or fails on a stored id and changes nothing |
| TaskRepository.TaskRepository.Activate | modules/task-manager/src/taskRepository.js:70-77 | the table and the answer are those of the conditional activation |
| TaskRepository.TaskRepository.Transition | modules/task-manager/src/taskRepository.js:79-88 | the table and the answer are those of the conditional transition, keys included |
| TaskRepository.TaskRepository.RecordProgress | modules/task-manager/src/taskRepository.js:90-96 | progress is stored only for an active task |
| TaskRepository.TaskRepository.GrantSlot | modules/task-manager/src/taskRepository.js:99-106 | grants only to an active task without a slot, and answers the grant |
| TaskRepository.TaskRepository.RenewSlot | modules/task-manager/src/taskRepository.js:108-115 | renews only the slot of a running task that holds one |
| TaskRepository.TaskRepository.EndGrant | modules/task-manager/src/taskRepository.js:118-128 | ends exactly the grant named |
| TaskRepository.TaskRepository.SlotHolders | modules/task-manager/src/taskRepository.js:135-141 | answers the running tasks with a slot and their owners |
| TaskRepository.TaskRepository.PendingTask | modules/task-manager/src/taskRepository.js:43-50 | answers an oldest pending task of a user not excluded, and none only if there is none |
| TaskRepository.TaskRepository.CountRunningByUser | modules/task-manager/src/taskRepository.js:62-68 | counts each user's running tasks, and lists only users that have some |
| TaskRepository.TaskRepository.StalledTasks | modules/task-manager/src/taskRepository.js:151-157 | answers each active task whose last progress was before the given time, once, and no other |
| TaskRepository.TaskRepository.CancelingSince | modules/task-manager/src/taskRepository.js:159-165 | answers each canceling task last updated before the given time, once, and no other |
| TaskRepository.TaskRepository.ResetProgress | modules/task-manager/src/taskRepository.js:147 | restarts the progress time of the active tasks and of no other |
| TaskRepository.TaskRepository.ResetCanceling | modules/task-manager/src/taskRepository.js:148 | restarts the update time of the canceling tasks and of no other |
| TaskRepository.TaskRepository.Remove | modules/task-manager/src/taskRepository.js:175-178 | answers whether this call removed the task |
| TaskRepository.TaskRepository.RemoveFinishedUserTasks | modules/task-manager/src/taskRepository.js:180-191 | removes only finished tasks of the user |
| Docker.DockerEngine.Run | modules/task-manager/src/dockerEngine.js:20-25 | creates and starts a container under a free name; a failed start may leave it behind |
| Docker.DockerEngine.List | modules/task-manager/src/dockerEngine.js:27-36 | answers every container and whether it runs, or fails |
| Docker.DockerEngine.Kill | modules/task-manager/src/dockerEngine.js:46-50 | stops at most that container; a container that is gone or not running is not an error, and one that was killed runs no longer |
| Docker.TaskWorkspace.Prepare | modules/task-manager/src/taskWorkspace.js:15-19 | makes at most that workspace, without a result; one that is there keeps its result |
| Docker.DockerEngine.Remove | modules/task-manager/src/dockerEngine.js:52-56 | succeeds on a container that is gone; a failed call may or may not have removed it |
| Docker.TaskWorkspace.ReadResult | modules/task-manager/src/taskWorkspace.js:21-28 | answers exactly the outcome that the result file names, none for a file that is missing, cannot be parsed or names anything else |
| TaskHistory.ResultIn | modules/task-manager/src/taskWorkspace.js:21-28 | a result file names an outcome if and only if it parses to a value whose state is that outcome's name |
| Supervisor.ContainerSupervisor.Interfere | modules/task-manager/src/containerSupervisor.js:32-34 | user commands and exiting containers, in any number, keep everything the queue relies on: they add no running task and no holder |
| Supervisor.EligibleIsBelowLimit | modules/task-manager/src/containerSupervisor.js:141-145 | from true counts the query excludes exactly the users at their limit |
| TaskHistory.StartsTell | modules/task-manager/src/containerSupervisor.js:125-145 | over every recorded run a task that started had been, in some state since which no task started or ended, the oldest pending task of a user below the limit, with room for one more |
| TaskHistory.FirstComeFirst | modules/task-manager/src/taskRepository.js:43-50 | over every run: while a task stored at an earlier reading is pending and its owner below the limit, one stored later is not rightly chosen |
| Supervisor.ContainerSupervisor.DispatchRound | modules/task-manager/src/containerSupervisor.js:128-137 | a round launches the oldest pending task of a user below the limit in a state recorded during the round, or finds nothing more to launch; nothing else starts or ends; its counts stay true and fewer tasks could still be picked |
| Supervisor.ContainerSupervisor.DispatchPending | modules/task-manager/src/containerSupervisor.js:125-139 | ends; leaves no room, or every pending task's owner at the limit; no running task ends or loses its container; every task running now and not before was rightly chosen in a state recorded meanwhile |
| Supervisor.ContainerSupervisor.LaunchTask | modules/task-manager/src/containerSupervisor.js:186-203 | launched: active with a running container whose exit is waited for; activated but not launched: ended, and without a container unless the clean-up failed; not activated, exactly if it never ran meanwhile: no container was made |
| Supervisor.ContainerSupervisor.RequestSlot | modules/task-manager/src/containerSupervisor.js:147-173 | a holder gets a new grant; another task gets a slot exactly when the line, with the slots held and free as stored, has it in turn and it is still active; the limit is kept and no holder waits |
| Supervisor.ContainerSupervisor.TakePlace | modules/task-manager/src/containerSupervisor.js:159-172 | the line is asked with the true number of slots held by each user and still free, and nobody but the asker becomes a holder |
| Supervisor.CountByUser | modules/task-manager/src/containerSupervisor.js:342-349 | counts the slots each user holds |
| Supervisor.ContainerSupervisor.EndSlot | modules/task-manager/src/containerSupervisor.js:175-184 | of all stored grants exactly the one named ends, or whichever the task holds if none is named |
| Supervisor.ContainerSupervisor.ForgetSlot | modules/task-manager/src/containerSupervisor.js:330-334 | the task neither holds a slot nor waits for one |
| Supervisor.ContainerSupervisor.FinishTask | modules/task-manager/src/containerSupervisor.js:233 | a running task ends in the outcome given and leaves the running tasks alone otherwise |
| TaskHistory.EndsTell | modules/task-manager/src/containerSupervisor.js:229-300 | over every recorded run a task that turned canceled was pending or canceling before, so its user had cancelled it; one that turned completed was running, and its container had been seen to have written so |
| Supervisor.ContainerSupervisor.Collect | modules/task-manager/src/containerSupervisor.js:229-252 | the task has ended; if it was running, in the outcome decided by its state in a state recorded meanwhile and by its result file in a later one; its container is gone and nothing more can be launched |
| Supervisor.ContainerSupervisor.Discard | modules/task-manager/src/containerSupervisor.js:317-328 | a container whose removal succeeded is gone; in any case the workspace, the slot and the place in line are, and no other workspace is |
| Supervisor.ContainerSupervisor.Reconcile | modules/task-manager/src/containerSupervisor.js:254-281 | from any stored tasks and containers, cancels interleaving and collects launching meanwhile: ends with exactly the containers of the running tasks, ends no task listed with a running container, removes no running task's container; those read as running and listed without one end canceled if read as canceling, else failed; those listed running are being waited for and, if read as canceling, being stopped |
| Supervisor.ContainerSupervisor.Stop | modules/task-manager/src/containerSupervisor.js:205-215 | signals a container exactly if no stop of it is in progress |
| Supervisor.ContainerSupervisor.Watch | modules/task-manager/src/containerSupervisor.js:217-227 | waits for a container exactly if nothing waits for it yet |
| Supervisor.ContainerSupervisor.EndLost | modules/task-manager/src/containerSupervisor.js:259-264 | a running task without a container ends in the outcome given; its workspace is gone, and it neither holds nor waits for a slot |
| Supervisor.ContainerSupervisor.RemoveStrays | modules/task-manager/src/containerSupervisor.js:273-280 | removes exactly the containers listed without a running task, none of which has a running task now, and exactly their workspaces |
| Supervisor.ContainerSupervisor.TimeOut | modules/task-manager/src/containerSupervisor.js:305-306 | an overdue task is canceled, a stalled one has failed, or was cancelled meanwhile and is left canceling; its container and workspace are gone unless the engine failed |
| Supervisor.ContainerSupervisor.EnforceTimeouts | modules/task-manager/src/containerSupervisor.js:302-317 | exactly the tasks that in one recorded state were active with progress before the bound, and in a later one canceling since before theirs, lose their containers; those have failed, these are canceled; the only running tasks left without one are stalled ones cancelled between query and update |
| Supervisor.StalledCancelLosesContainer | modules/task-manager/src/containerSupervisor.js:302-317 | and that happens: after query, cancel, update and kill the task is canceling, running, and without a container |
| Supervisor.ContainerSupervisor.Start | modules/task-manager/src/containerSupervisor.js:55-60 | resets the clocks; unless the engine fails, ends with matching containers and nothing more to launch |
| Supervisor.ContainerSupervisor.ResetProgressClock | modules/task-manager/src/taskRepository.js:143-149 | in a recorded state every active task has the reading as its time of progress, and in a later one every canceling task as its last update; no task starts or ends |
| Supervisor.DowntimeIsNoSilence | modules/task-manager/src/taskRepository.js:143-165 | so no task that was active or canceling through a start is stalled or overdue for a bound that the reading has reached, unless its row was written since |
| Supervisor.ContainerSupervisor.Serve | modules/task-manager/src/containerSupervisor.js:32-121 | in every state ever stored, over any items, interleavings, crashes and restarts, crashes during a start included: running tasks, each user's running tasks and slot holders stay within their limits; every start was rightly chosen, every end canceled or completed is told as above |
| TaskProgress.ProgressThen | modules/task-manager/src/containerSupervisor.js:229-281 | progress composes over the parts of a queue item |
| TaskProgress.RoundDrops | modules/task-manager/src/containerSupervisor.js:128-135 | a dispatch round leaves fewer tasks that could be picked, whether the launch succeeds, fails or loses to a cancel |
| TaskProgress.Reconciled | modules/task-manager/src/containerSupervisor.js:254-281 | every task handled and the strays removed, containers and running tasks match |
| TaskCommands.Tasks.Cancel | modules/task-manager/src/tasks.js:57-66 | a cancel is never lost: on return the task is neither pending nor active, though it was launched meanwhile; all that happened is a run of statements |
| TaskCommands.Tasks.Submit | modules/task-manager/src/tasks.js:24-47 | a task stored is pending since the reading of its insert; repeating a named submission answers the task already there; another user's id is refused; an id that is no UUID, or no operation, changes nothing |
| TaskCommands.GroupsOfHex | modules/task-manager/src/tasks.js:143-151 | an id is five groups of hexadecimal digits joined by hyphens |
| TaskCommands.AtMostOneResubmitted | modules/task-manager/src/tasks.js:80-86 | of any number of resubmits of one task, however their statements interleave, at most one stores a new task |
| TaskCommands.Tasks.Resubmit | modules/task-manager/src/tasks.js:80-86 | a new task is stored only after an effective removal of the finished one by this very call, and answered exactly if its insert took effect; no answer is given exactly if another removal came first; a task without an operation is removed and then refused |
| TaskCommands.Tasks.Store | modules/task-manager/src/tasks.js:24-47 | the last statement inserts the task; it is answered exactly if that took effect, and then the task is pending since its reading |
| TaskCommands.Tasks.Remove | modules/task-manager/src/tasks.js:68-71 | only a finished task of the user is removed; all that happened is a run of statements |
| TaskCommands.Tasks.OwnedTask | modules/task-manager/src/tasks.js:133-141 | answers only the owner's task; NotFound and Unauthorized exactly tell why not |
| CycleNaming.CanonicalizeRotation | dev-env/src/depsValidation.js:11-14 | every rotation of a cycle gets one canonical form |
| CycleNaming.CanonicalizeIdentifiesRotations | dev-env/src/depsValidation.js:11-14 | two cycles have one canonical form exactly when one is a rotation of the other |
| CycleNaming.Lexicographic | dev-env/src/depsValidation.js:11-14 | names are ordered by their first difference |
| CycleNaming.KeyTold | dev-env/src/depsValidation.js:16-39 | a cycle is named by its modules joined by arrows |
| CycleFinder.PathSuffixIsCycle | dev-env/src/depsValidation.js:20-26 | the end of the search path from an occurrence of the module is a simple cycle of real edges |
| CycleFinder.ClosedWalkHasBackEdge | dev-env/src/depsValidation.js:20-34 | every closed walk uses an edge the search took back into its path |
| CycleFinder.CycleFinder.Visit | dev-env/src/depsValidation.js:20-34 | the search ends on every graph; it keeps the finishing order and names a cycle for every back edge |
| CycleFinder.FindGraphCycles | dev-env/src/depsValidation.js:16-39 | reports only simple cycles along real edges in canonical form, each name once; nothing exactly when the graph is acyclic; every closed walk shares an edge with a cycle of a reported name |
| DepsValidation.FindDependencyCycles | dev-env/src/depsValidation.js:41-44 | reports only real cycles; passes exactly when both graphs are acyclic, exactly when all starts and all builds end |
| DepsValidation.TerminationIsAcyclicity | dev-env/src/depsValidation.js:41-44 | each recursion ends for all modules exactly when its graph is acyclic |
| RunSchedule.RunDependencyMapExact | dev-env/src/deps.js:50-62 | the recursion depth needed is the longest walk; the result maps exactly the modules reached to their direct dependencies |
| RunSchedule.TerminatesIffAcyclic | dev-env/src/deps.js:50-62 | the recursion ends for every list of modules exactly when the run graph is acyclic |
| RunSchedule.AcyclicTerminates | dev-env/src/deps.js:50-62 | after validation one more nested call than there are modules is enough |
| RunSchedule.BatchesInOrder | dev-env/src/start.js:67-83 | if the batches end, they start every module of the map once, after its dependencies and no later than needed |
| RunSchedule.BoundedBatches | dev-env/src/start.js:67-83 | a closed map over a graph of bounded walks never gets stuck |
| RunSchedule.Stuck | dev-env/src/start.js:67-83 | a round that starts nothing means endless walks |
| RunSchedule.StartOrder | dev-env/src/start.js:67-88 | after validation: exactly the modules reached are started, each once, every transitive dependency at least as many batches earlier as it is edges away |
| RunSchedule.Starter.StartModules | dev-env/src/start.js:67-83 | the trace of the recursion is those batches |
| BuildPlan.BuildDepthExact | dev-env/src/build.js:93-111 | the recursion depth needed is exactly the longest chain of build dependencies |
| BuildPlan.DeduplicateKeeps | dev-env/src/build.js:113-118 | keeping first occurrences keeps every action once and everything an action needs before it |
| BuildPlan.BuildOrder | dev-env/src/build.js:93-118 | with an acyclic build graph the plan is exactly the builds of the modules reached and the starts they need, each once, needs before needers |
| BuildPlan.PullTold | dev-env/src/build.js:93-111 | only modules without build dependencies are built by pulling |
| BuildPlan.CyclicBuildDiverges | dev-env/src/build.js:93-111 | on a cyclic build graph the recursion never ends |
| SessionUse.RunAsExpected | modules/budget/src/openSessionUse.js:12-48 | after any prefix of any deliveries each row is the one told from what has arrived |
| SessionUse.Convergence | modules/budget/src/openSessionUse.js:12-48 | payload of any open, end of any real close, else of the first stale close that found the row, else none |
| SessionUse.Confluence | modules/budget/src/openSessionUse.js:3-4 | runs of the same opens and real closes agree if and only if the sessions no real close reached were first found by the same stale close |
| SessionUse.ConfluenceWithoutStale | modules/budget/src/openSessionUse.js:3-4 | without stale closes order and repetition never matter |
| SessionUse.StaleOrderMatters | modules/budget/src/openSessionUse.js:3-4 | with them it can: the same open and the same stale close, swapped, leave the session closed or open |
| SessionUse.CloseWithoutOpen | modules/budget/src/openSessionUse.js:22-41 | a close that comes first leaves a row of nobody that ends when it begins |
| SessionUse.OpenSessionUse.OpenSession | modules/budget/src/openSessionUse.js:12-20 | an open writes the payload and keeps the end |
| SessionUse.OpenSessionUse.CloseSession | modules/budget/src/openSessionUse.js:22-41 | run alone, a close stores the end, in a placeholder row if there is none |
| SessionUse.OpenSessionUse.CloseStaleSession | modules/budget/src/openSessionUse.js:43-48 | closes only a row still open |
| SessionUse.OpenSessionUse.OpenSessionIds | modules/budget/src/openSessionUse.js:63-70 | answers exactly the open rows |
| SessionUse.SessionEventHandlers.OnWorkerSessionOpened | modules/budget/src/sessionEventHandlers.js:5-18 | requested and activated are one and the same open |
| SessionUse.SessionEventHandlers.OnWorkerSessionClosed | modules/budget/src/sessionEventHandlers.js:20-22 | a close at its close time, or at now if it has none |
| SessionReconciler.StaleCloseOfOpen | modules/budget/src/openSessionUse.js:43-48 | closing an open session as stale would be final: no open undoes it |
| SessionReconciler.ReconciledMatches | modules/budget/src/reconciler.js:2-25 | run alone, the open rows are the worker's sessions if and only if no open session's row was closed |
| SessionReconciler.Reconciler.Reconcile | modules/budget/src/reconciler.js:2-25 | under any interleaving of the worker and deliveries, no session open at the worker is ever closed; run alone, the table is the one above |
| SessionReconciler.Reconciler.ReopenMissed | modules/budget/src/reconciler.js:9-17 | opening what the worker reported never touches an end |
| SessionReconciler.Reconciler.CloseMissed | modules/budget/src/reconciler.js:19-24 | only rows read as open and no longer reported are closed |
| Calendar.MonthFrom | modules/budget/src/dateTime.js:3-4 | every instant lies in exactly the month found |
| Calendar.MonthMonotone | modules/budget/src/dateTime.js:27-28 | months follow the order of instants |
| Calendar.HoursOfMonth | modules/budget/src/dateTime.js:1-25 | the hours since the first of the month are fewer than the month has |
| Calendar.StartIsCivil | modules/budget/src/dateTime.js:1-25 | every month starts, and is as long, as the civil calendar says |
| Calendar.HoursTold | modules/budget/src/dateTime.js:1 | an hour is one, and a month has twenty-four for each of its days |
| StorageUse.AccumulationBound | modules/budget/src/storageUseService.js:8-20 | for every run of measurements in time order and every delay of the first second reading, GB-hours are at most the largest size times the hours of the month so far, and at least zero but for the shortfall below |
| StorageUse.NeverDecreases | modules/budget/src/storageUseService.js:8-20 | within a month GB-hours never decrease |
| StorageUse.SpendingBound | modules/budget/src/storageUseService.js:35-39 | a month never costs more than the largest size kept for the whole month, and less than nothing only by the shortfall |
| StorageUse.ConstantSize | modules/budget/src/storageUseService.js:8-20 | with a constant size GB-hours are exact however often they are updated |
| StorageUse.Trapezoid | modules/budget/src/storageUseService.js:8-20 | between two measurements of a month the average of the sizes is used for the hours between them |
| StorageUse.WholeMonthCosts | modules/budget/src/storageUseService.js:35-39 | a size kept for a whole month costs exactly that size times the monthly price |
| StorageUse.SpendingScales | modules/budget/src/storageUseService.js:35-39 | costs are in proportion to the GB-hours |
| StorageUse.FirstReadingDelay | modules/budget/src/budgetRepository.js:242-248 | the later second clock reading costs exactly half the first size times the delay, in the first month only |
| StorageUse.FirstRowNegative | modules/budget/src/budgetRepository.js:242-248 | the first GB-hours are negative exactly when something is stored and the second reading is later |
| StorageUse.LatestRow | modules/budget/src/budgetRepository.js:62-73 | the row of the latest month is the one last written |
| StorageUse.StorageRepository.LastUserStorageUse | modules/budget/src/budgetRepository.js:62-73 | answers the latest month's row, or zeros at its own reading |
| StorageUse.StorageRepository.UpdateUserStorageUse | modules/budget/src/budgetRepository.js:75-96 | replaces or adds the row of the month of the update |
| StorageUse.UpdateStorageUseForThisMonth | modules/budget/src/storageUseService.js:22-27 | an update is one more measurement of the run, in the answer and in the rows |
| StorageUse.StorageUseForThisMonth | modules/budget/src/storageUseService.js:29-33 | reading the month so far is measuring the last size again, and stores nothing |
| InstanceSpending.FilterCharges | modules/budget/src/budgetRepository.js:24-48 | the rows the month predicate selects cost what all rows of the user cost |
| InstanceSpending.OrderFree | modules/budget/src/instanceSpendingCalculator.js:16-24 | the order of the rows does not matter |
| InstanceSpending.MonthPredicateIsExact | modules/budget/src/budgetRepository.js:24-48 | selecting by month, in whatever order rows come, charges what all uses ever recorded charge |
| InstanceSpending.ChargedHours | modules/budget/src/instanceSpendingCalculator.js:26-34 | charged hours cover the exact time in use within the month and exceed it by less than an hour |
| InstanceSpending.OneUseCosts | modules/budget/src/instanceSpendingCalculator.js:16-34 | a use costs the price of its type for each hour begun of its time in the month; a type without a price is free |
| InstanceSpending.UsesAdd | modules/budget/src/instanceSpendingCalculator.js:16-24 | uses are charged each for itself |
| InstanceSpending.WhereTold | modules/budget/src/budgetRepository.js:24-48 | the query selects exactly the user's rows that begin by the end of the month and have not ended before it |
| InstanceSpending.SpendingGrows | modules/budget/src/budgetRepository.js:42-46 | spending does not go down as the clock advances |
| StatePaths.Find | modules/gui/src/stateUtils.js:87-95 | the first item from which the names of the template's leaves pick what the template says |
| StatePaths.MatchesPicked | modules/gui/src/stateUtils.js:87-95 | an item matches a template if and only if every leaf of the template is what its names pick from the item |
| StatePaths.ScalarsPicked | modules/gui/src/stateUtils.js:87-95 | for a template of scalars: if and only if each of its names is among the fields with its value |
| StatePaths.NestedPicked | modules/gui/src/stateUtils.js:87-95 | for one name below another: if and only if the two lead to its value |
| StatePaths.FoundItem | modules/gui/src/stateUtils.js:110-163 | the first item that has every leaf is the one read and written; the list keeps its length and all other items |
| StatePaths.KnownIdUpdates | modules/gui/src/stateUtils.js:110-163 | setting a property of the item with an id changes that property of the first item with the id and nothing else |
| StatePaths.PutGet | modules/gui/src/stateUtils.js:110-170 | what is set at a fitting path is what the path resolves to |
| StatePaths.PutGetExactly | modules/gui/src/stateUtils.js:110-170 | for every tree, path and value, what is written is read back if and only if the path fits, or would read the value anyway: a condition on tree, path and value before the write |
| StatePaths.WritableExactly | modules/gui/src/stateUtils.js:110-141 | a write fails exactly where a truthy scalar stands in its way, a template has to be followed in an object, or an array is given a length that is none |
| StatePaths.SetGetExactly | modules/gui/src/stateUtils.js:165-170 | for every state, path and value, set then resolve gives the value if and only if that condition holds |
| StatePaths.TemplateInObject | modules/gui/src/stateUtils.js:87-95 | a template set inside an object stores the value under the name "undefined", where the path does not read it |
| StatePaths.NegativeNameReads | modules/gui/src/stateUtils.js:41-53 | a negative integer names a property of the array itself, which is set and read back |
| StatePaths.LengthCuts | modules/gui/src/stateUtils.js:165-170 | setting the length of an array to zero takes its items away |
| StatePaths.LengthSet | modules/gui/src/stateUtils.js:165-170 | setting the length of an array cuts it or fills it up with undefined items, and fails for what is no length |
| StatePaths.LengthsRead | modules/gui/src/stateUtils.js:165-170 | null, booleans and digits are lengths like the numbers they stand for |
| StatePaths.DecimalNames | modules/gui/src/stateUtils.js:41-53 | decimal text names the index it says and is read as it |
| StatePaths.NegativeNames | modules/gui/src/stateUtils.js:41-53 | with a minus sign it names and reads the negative integer |
| StatePaths.LooseNumbers | modules/gui/src/stateUtils.js:41-53 | a plus sign, and what follows the digits, are ignored when an index is read; a leading zero makes a name no index |
| StatePaths.SetSet | modules/gui/src/stateUtils.js:165-170 | of two sets of one path the second is all that shows |
| StatePaths.SetAside | modules/gui/src/stateUtils.js:110-170 | paths that part resolve as before, by names, indices or templates; a new length of an array parts from nothing |
| StatePaths.PutAside | modules/gui/src/stateUtils.js:110-170 | a write leaves alone what is read by a path that parts by another name, by a template with a different leaf, or by an index that the template does not come to, whether items are found or appended |
| StatePaths.NoneMatchesBoth | modules/gui/src/stateUtils.js:87-95 | no item matches two templates that differ on a leaf |
| StatePaths.TabsApart | modules/gui/src/stateUtils.js:110-170 | writing below one tab of a list, told by its id, changes nothing of what is read of another |
| StatePaths.GetPut | modules/gui/src/stateUtils.js:110-170 | writing the defined value that is read leaves the tree as it was, wherever it can be written, as far as comparing for equality sees |
| StatePaths.RewritesExactly | modules/gui/src/stateUtils.js:110-170 | a write leaves the tree as it was, own properties of arrays included, if and only if every place on the path is there and the last holds the value, and cloning loses nothing |
| StatePaths.SetIfChangedIsSet | modules/gui/src/stateUtils.js:172-177 | for a defined value and a path whose names have no dots setIfChanged gives the tree that set gives, as far as comparing for equality sees, unless one of them throws |
| StatePaths.SetIfChangedExactly | modules/gui/src/stateUtils.js:172-177 | for every path and value they agree if and only if what the path with its names split reads as the value is in the place that the path writes, and a path that so cannot be read cannot be written |
| StatePaths.SplitUndotted | modules/gui/src/stateUtils.js:15-31 | turning a path into a list once more changes it only where a name has a dot |
| StatePaths.SplitsEach | modules/gui/src/stateUtils.js:15-31 | the elements of a path are taken apart each for itself |
| StatePaths.SplitDots | modules/gui/src/stateUtils.js:15-31 | a name is taken apart into the parts that its dots join, none of which has a dot |
| StatePaths.DottedNameDiffers | modules/gui/src/stateUtils.js:172-177 | so a value elsewhere can pass for the one at a name with a dot: setIfChanged then leaves out what set would write |
| StatePaths.DottedNameMissed | modules/gui/src/stateUtils.js:172-177 | and a value in its place is not found under such a name |
| StatePaths.ArrayNameDiffers | modules/gui/src/stateUtils.js:172-177 | they differ at an array and a name that is no number: setIfChanged throws, set stores a property of the array itself |
| StatePaths.UndefinedDiffers | modules/gui/src/stateUtils.js:172-177 | they differ for an undefined value whose path is missing: set creates it |
| StatePaths.KeptExactly | modules/gui/src/stateUtils.js:87-95 | an item matches its template after the write if and only if what is written agrees with what the template says of its place |
| StatePaths.CreatedContainer | modules/gui/src/stateUtils.js:97-108 | a missing child becomes an array for an index or a template, else an object; a falsy one an object |
| StatePaths.AppendedItem | modules/gui/src/stateUtils.js:117-128 | a template whose leaves no item has is appended, with the rest of the path written into it; the other items stay |
| StatePaths.ScalarInTheWay | modules/gui/src/stateUtils.js:97-108 | a scalar in the way stops a write, unless it is undefined, null, false, zero or empty text |
| StateMutator.Mutator.Traverse | modules/gui/src/stateUtils.js:110-141 | clones the nodes along the path, touching no cell there was; fails only where set fails, and leaves it no other failure than the last assignment |
| StateMutator.Mutator.Set | modules/gui/src/stateUtils.js:143-170 | the result shows the tree that set describes; the state given, and every cell there was, is unchanged; off the path the new state points to the old cells |
| StateMutator.Mutator.SetIfChanged | modules/gui/src/stateUtils.js:172-177 | answers the very same state, with nothing allocated, where the path with its names split already reads the value; else what set gives |
| StateMutator.CopyShows | modules/gui/src/stateUtils.js:110-141 | linking each clone to the next makes the root show the write |
| StateMutator.CopyShares | modules/gui/src/stateUtils.js:110-141 | each clone shares with its original what the path leaves alone: everything but one name, or but the items that a new length cuts off |
| Recipes.RevisionIdentifiesContent | modules/recipe/src/recipeRepository.js:17-53 | over all interleavings an id and a revision identify name, type version and content; owner and type never change |
| Recipes.OneWriterWins | modules/recipe/src/recipeRepository.js:14-16 | of two creates, or two saves with one expected revision, at most one succeeds, whatever comes between |
| Recipes.RevisionCountsWrites | modules/recipe/src/recipeRepository.js:119-132 | no write is lost: a revision is the number of writes the recipe took |
| Recipes.WriteReadsBack | modules/recipe/src/recipeRepository.js:179-211 | what a write stored is read back while its revision stands; placement and revision come from the columns alone |
| Recipes.CreationTold | modules/recipe/src/recipeRepository.js:21-36 | a creation stores what it was given, at the first revision, unless the id is taken |
| Recipes.ColumnsTold | modules/recipe/src/recipeRepository.js:37-53 | exactly which statement changes which column: a save name, version and content, a migration version and content, both the revision by one, a move the project, removals the flag |
| Recipes.ConditionsTold | modules/recipe/src/recipeRepository.js:37-53 | exactly when a save and a migration find their row |
| Recipes.DocumentTold | modules/recipe/src/recipeRepository.js:205-220 | a document tells revision and project from the columns and everything else as stored |
| Recipes.LoadedStoresSame | modules/recipe/src/recipeRepository.js:179-211 | saving a document as it was loaded stores the same content |
| Recipes.RejectionIsTrue | modules/recipe/src/recipeRepository.js:189-203 | a rejected save is explained by the condition that failed |
| Recipes.LockedExplanation | modules/recipe/src/recipeRepository.js:189-203 | while the row, or the place of a missing one, stays as the rejected statement found it, the explanation is the true one and names no expected revision |
| Recipes.LateExplanation | modules/recipe/src/recipeRepository.js:189-203 | writes to it in between, which take an isolation level that releases rows an update did not match, can make a rejected save be explained by the very revision it expected if and only if its writer was ahead of a row that it could have saved on, or of a recipe not there |
| Recipes.RecipeRepository.SaveRecipe | modules/recipe/src/recipeRepository.js:17-53 | saves exactly when all conditions hold; a rejected save changes no row |
| Recipes.RecipeRepository.FindRecipe | modules/recipe/src/recipeRepository.js:55-64 | a removed recipe is absent; another is answered with the columns' placement and revision |
| Recipes.RecipeRepository.RemoveRecipes | modules/recipe/src/recipeRepository.js:78-89 | hides exactly the owner's recipes named |
| Recipes.RecipeRepository.MoveRecipes | modules/recipe/src/recipeRepository.js:91-101 | places exactly the owner's recipes named |
| Recipes.RecipeRepository.SaveMigratedRecipe | modules/recipe/src/recipeRepository.js:119-132 | writes one row of that owner or fails having changed nothing |
| Recipes.RecipeRepository.RemoveProjectRecipes | modules/recipe/src/recipeRepository.js:166-176 | hides exactly the owner's recipes in the project |
| Scenes.SelectBest | modules/scene-metadata/src/sceneRepository.js:36-46 | the shortest non-empty beginning of the rows that is enough, or all of them |
| Scenes.BestIsUnique | modules/scene-metadata/src/sceneRepository.js:36-46 | there is only one such beginning |
| Scenes.LimitIsExact | modules/scene-metadata/src/sceneRepository.js:16-25 | selecting from the first maxScenes rows gives what all rows give if and only if maxScenes is at least one or there are none |
| Scenes.CumulativeMultiplies | modules/scene-metadata/src/sceneRepository.js:36-46 | the share under cloud is the product of the shares of the parts |
| Scenes.CumulativeOfOne | modules/scene-metadata/src/sceneRepository.js:36-46 | and of one scene its percentage |

## Left out

- Docker, MySQL and the file system: an engine call or a statement is one step on a map, and any engine call may fail. A failing database statement is left out; it aborts a queue item like a crash does, but keeps the memory of the process.
- Supervisor: liveness (that the interval timer fires and that a wait calls back), containers without a task label, an operator removing containers, and containers that appear after a run that timed out.
- TaskRepository.TaskRepository.PendingTask: among tasks created at the same instant any may be the first, as in the query.
- StatePaths: names that objects and arrays inherit from JavaScript (constructor, push), which read as absent here; positions skipped by an assignment beyond the end read as undefined; `parseInt` knows decimal text only.
- StatePaths.LengthOf: text other than digits, and arrays, which JavaScript may still read as a number when they are written to the length of an array, are no lengths here.
- StatePaths.Slot: a template met in an object that has a property "length", which JavaScript searches like an array.
- StatePaths.Matches: template names that contain dots or are "length", and what a template says of properties that an array owns.
- StateMutator: hashes, and the sorting, merging, pushing and deleting mutations; the value and the templates of a path are copied into memory before the descent instead of during it.
- TaskCommands.Tasks.Submit: a task's operation, parameters and recipe are carried along unchanged and are not part of a row.
- SlotTokens.LateReleaseEndsNothing: assumes that the task's own slot does not get the reading again, as with a clock that advances from each of its grants to the next (SlotTokens.AdvancingClockReadsOnce); SlotTokens.LateReleaseEndsExactly says that nothing less will do.
- Docker.DockerEngine.Run: a call that timed out and whose container appears afterwards.
- Docker.DockerEngine.Remove: a removal that the engine already has in progress (its answer 409) counts as done, as in the source; that the container may still be listed then is not modelled.
- Supervisor.ContainerSupervisor.Stop: what the signal does in the container, and the harm of a second one, which a restarted process may send: it has forgotten the stops in progress, as in the source.
- RunSchedule.Starter.StartModules: the order in which the modules of one batch are started, and what starting does.
- BuildPlan: what building and starting do.
- CycleNaming.CycleKey: module names that contain the separator could give two cycles one name, and then only one of them is reported; that something is reported holds all the same.
- StorageUse.UpdateStorageUseForThisMonth: concurrent updates of one user, and instants before 1970.
- StorageUse.ConstantSize: stated for equal clock readings of the first measurement; StorageUse.FirstReadingDelay gives the exact difference for any delay.
- InstanceSpending, StorageUse and Scenes compute with real numbers where the source rounds.
- SessionUse: removing a user, and the storage event, which does no more than update storage use.
- SessionUse.Convergence: assumes that every delivery of a close carries the same time; a close without a time counts from each delivery's own now.
- Recipes: projects themselves, summaries, the query for recipes to migrate and the migrations; documents are stored as values, so texts that cannot be parsed do not occur.
- Scenes: the query, its scoring and its order; rows are given in that order.
- Usernames are opaque and already normalised; keys, identifiers and generated task ids are fresh values.
- Limits are whole numbers above zero.
- Logging, status descriptions, tags, announcements, websockets, routes, configuration, the other services and the React code.
