# Kontroler's DAG runs, verified

Kontroler runs directed acyclic graphs of containers on Kubernetes. This project models, in Dafny, the
part of it that decides what may run and when, and proves what that part is for: a run never starts a
task before its dependencies have succeeded, never gets stuck, counts its tasks right and cleans up once,
whatever retries, competing workers and interrupted controllers do in between. Where the code does not
do that, it shows a run that goes wrong and proves exactly when the code does, up to two points on
cleanup and on failed verdicts that are named under "Left out". It also covers what the run engine leans
on: the admission checks on the graph, the DSL that produces it, the queues that feed pod events to the
workers, and the upload of a pod's logs.

## What is where

- `Graphs.dfy`, `Prelude.dfy`: walks, reachability, topological orders, the invariant of a depth-first
  search; stock facts about finite sets.
- `DagTypes.dfy`, `DagForm.dfy`, `DagDsl.dfy`: the three validators and the DSL compiler, as methods
  and as classes holding the maps their closures capture. Each is proved against a predicate on the
  edge relation.
- `Tables.dfy`, `Catalog.dfy`: the database tables as values (a row's position is its id) and
  `InsertDAG`, which turns validated names into rows.
- `Store.dfy`, `Runnable.dfy`, `Suspension.dfy`, `Claims.dfy`, `Lease.dfy`: what each database operation
  does, the two counting queries, the two suspension searches, the claim protocol and its timing.
- `Admission.dfy`: from admitted specifications to their runs.
- `Manager.dfy`, `Worker.dfy`: the database manager, the worker and the reconciler as classes whose
  methods run those operations statement by statement.
- `Progress.dfy`: one run seen as sets of tasks, its invariant, and what follows from it.
- `Engine.dfy`: the state machine. Its steps are single database calls: those of the event loop, of
  Reconcile, and the claim steps of any number of workers, interleaved freely over any number of runs.
- `RowFacts.dfy`, `EngineSteps.dfy`, `EngineOutcomes.dfy`, `EngineStarts.dfy`: every step keeps the
  invariant. `EngineHandlers.dfy`: whole handlers are runs of those steps. `EngineRuns.dfy`: what holds
  in every state reached with ids that tell.
- `EngineAnyId.dfy`, `EngineCounts.dfy`, `LooseProgress.dfy`, `EngineAnyRuns.dfy`, `EngineOrder.dfy`,
  `EngineVerdicts.dfy`, `EngineEndedOnce.dfy`: what holds whatever ids are passed, and the exact conditions
  under which the results of `EngineRuns` hold then. `LiteralId.dfy`, `StrandedRun.dfy`: runs that go wrong.
- `Fifo.dfy`, `MemoryQueue.dfy`, `Decimals.dfy`, `KeyedLog.dfy`, `PebbleQueue.dfy`,
  `QueueRefinement.dfy`: the abstract queue, its two implementations, and their agreement.
- `LogStore.dfy`: the multipart upload.

`dafny verify dfyconfig.toml` checks all of it.

## How the engine is modelled

- The event loop of one worker handles one pod event at a time
  (controller/internal/workers/workers.go:238-266), so there is one handler; it may be anywhere between
  two database calls when claim steps and Reconcile's steps happen. Claims, renewals, recovery and
  finalisation come from any worker at any moment.
- A row's pod reports one outcome, after its claim was finalised. Success, failure and retry are the
  environment's choice, as is `ShouldRerun`.
- A retry inserts a second row for the task and leaves the first one running; the model remembers such
  replaced rows as `retired`. A task's state is that of its newest row. No uniqueness of
  (run_id, task_id) is assumed, and the schema has none.
- The catalog of DAG versions is the same throughout a run of the machine, all versions that will ever
  be inserted included; which of them is the latest of its name changes as versions are published.
- Reconcile attempts follow each other, each of them cut off anywhere (`Crash`).

## Where the code departs from its intent

- `getRunnableTasks` looks for a row under the run's id, but is handed the id of the *task run*
  (controller/internal/db/sqliteManager.go:1010, 1110-1114). The model passes an arbitrary id k.
  `EngineSteps.NextIdsAgainstRows` says exactly when nothing is returned twice, nothing is forgotten and
  nothing comes too early, and `EngineSteps.SucceedKeepsIff` exactly which ids are harmless. The id of the
  run always is (`EngineRuns.IntendedIdsAreSafe`), and the results of `EngineRuns` are for ids that are.
  With the id the code passes each of them fails in some run. When they hold is proved for any ids:
  - a pending task gets a second row (`LiteralId.LiteralIdEnqueuesTwice`); the rows are as intended
    exactly if no task that has a row is ever enqueued (`EngineOrder.RowsOkIff`);
  - the duplicate's second success is counted for a missing one, and a task is enqueued before its
    dependencies have succeeded (`LiteralId.LiteralIdBreaksDependencyOrder`); order is kept exactly if no
    task is returned one of whose dependencies has two success rows (`EngineOrder.DependencyOrderIff`);
  - a run's success counter exceeds its succeeded tasks (`LiteralId.LiteralIdMiscounts`); the counters are
    right exactly if no task has two rows with that outcome (`EngineCounts.CountersExactIff`), the status
    exactly as `EngineVerdicts.StatusExactlyIff` says;
  - counted out too early, a run is a success and its workspace gone while a pod still runs
    (`LiteralId.LiteralIdCleansUnderARunningTask`); once the workspace is gone, the run is over exactly if
    no task has two rows that no retry replaced (`EngineVerdicts.CleanedMeansQuietIff`), and when the
    completion check says yes, all tasks have ended exactly if none has ended twice
    (`EngineVerdicts.DoneExactlyIff`, and over whole runs `EngineEndedOnce.GoneInTimeIff`);
  - the success is then taken back (`LiteralId.LiteralIdTakesVerdictBack`); when a verdict stays is
    `EngineVerdicts.VerdictStaysIff`, when a success is final `EngineVerdicts.SuccessIsFinalIff`;
  - the two backends suspend different tasks after a failure (`LiteralId.LiteralIdSplitsBackends`;
    `EngineOutcomes.BackendsAgreeIff` for the exact condition);
  - a ready task is skipped because another run, whose id is that of the task run, has a row for it, and
    the run is left without a verdict for good (`StrandedRun.LiteralIdStrandsARun`); a run that waits for
    nothing is over exactly if nothing is ready (`EngineAnyRuns.NoRunIsStuckIff`).

  As long as no task of a run has ended twice, order, counters, status, suspension and cleanup are as
  intended whatever ids are passed (`EngineEndedOnce`, `EngineVerdicts.StatusRightIfEndedOnce`).
- If a version is published between two attempts of Reconcile, the later attempt lists nothing and the
  run does not start (`StrandedRun.NewVersionKeepsRunFromStarting`; `EngineAnyId.AttemptStartsAllIff` for
  the exact condition).
- References may repeat a name, and the second of two references to one task loses its dependencies to
  the first (`Catalogs.RepeatedReferenceLosesItsDependencies`; `Catalogs.HonouredIff` for the exact
  condition).
- The one-slot notify channel of both queues is enough for a single consumer only
  (`QueueWakeUp.NoLostWakeUpIff`).
- A read that breaks after the first part was uploaded leaves the multipart upload open: the deferred
  cleanup tests an error variable that this return does not assign
  (controller/internal/object/logStore.go:192-196, 228). `LogStores.UploadLogs` states for which streams
  this happens, `LogStores.BrokenAfterTheFirstPart` gives one.
- With a repeated task name the form's cycle check looks at the last entry only
  (`DagForm.RepeatedNameHidesCycle`); it never rejects what the controller accepts
  (`DagForm.FormIsNoStricter`).
- An edge into an undefined task vanishes in DSL compilation, so neither validator sees it
  (`DagDsl.UndefinedTargetDropped`).
- A lease below one second has no slack at all on PostgreSQL, as the fraction is dropped
  (`Leases.SlackPositiveIff`).

## Model

| member | source | states |
|---|---|---|
| EngineRuns.NoRunIsStuck | controller/internal/db/sqliteManager.go:920-1016 | with ids that tell (see SucceedKeepsIff), in every reachable state: a run whose starting tasks all have rows, whose newest rows are all terminal and for which the event loop owes nothing has every task succeeded, failed or suspended; the completion check says so and the run's status is no longer running |
| EngineRuns.DependencyOrder | controller/internal/db/sqliteManager.go:1127-1192 | with ids that tell, in every reachable state, over any number of runs, a row that is not a suspended one exists only if every task above its own, at any distance, has succeeded in that run |
| EngineRuns.OneTerminalRow | controller/internal/workers/workers.go:481-526 | with ids that tell, a task has at most one terminal row in a run and it is the newest; every other row of the task still says running and was replaced by a retry |
| EngineRuns.CountersAreExact | controller/internal/db/sqliteManager.go:928-965 | with ids that tell, the three counters of a run equal the numbers of its succeeded, failed and suspended tasks; its status is success iff all tasks succeeded and failed iff some task failed |
| EngineRuns.VerdictIsFinal | controller/internal/db/sqliteManager.go:1388-1407 | with ids that tell, once a run's status is success or failed, no later step of anybody changes it |
| EngineRuns.CleanedExactlyOnce | controller/internal/workers/workers.go:384-398 | with ids that tell, the workspace of a run has been removed once if all its tasks are terminal and the handler that made the last one so has asked, and never otherwise |
| EngineRuns.CleanedMeansQuiet | controller/internal/workers/workers.go:718-743 | with ids that tell, in a run whose workspace is gone every row is terminal or was replaced after its pod had failed: no pod runs or will run |
| EngineRuns.BackendsSuspendTheSame | controller/internal/db/postgresDAGManager.go:1756-1858 | with ids that tell, in every reachable state with a failed task, the stack search that stops at tasks with rows and the recursive query that walks through them suspend the same set: all descendants of the failed task that have no row |
| EngineAnyRuns.NoRunIsStuckIff | controller/internal/db/sqliteManager.go:920-1016 | whatever ids are passed, in every reachable state: a run whose starting tasks all have rows, whose newest rows are all terminal and for which the event loop owes nothing is over, every task succeeded, failed or suspended, iff none of its tasks is ready without a row |
| EngineAnyRuns.TableIsOverIff | controller/internal/db/sqliteManager.go:2053-2110 | the same on any tables, however they came about, a handler that died between two writes included: such a run is over iff no task is ready and no task is left without a row right below a failed or suspended one |
| EngineOrder.DependencyOrderIff | controller/internal/db/sqliteManager.go:1101-1192 | from an empty database, with any ids: in every state of a run of the machine, whatever has a row that is not suspended or is to be enqueued has only succeeded dependencies, iff no success returned a task one of whose dependencies then had two success rows |
| EngineOrder.InOrderAbove | controller/internal/db/sqliteManager.go:1127-1192 | dependencies in order mean that everything above such a row has succeeded, at any distance |
| EngineOrder.StepKeepsOrderIff | controller/internal/workers/workers.go:238-266 | each step of anybody keeps dependency order, except that a success does so iff what it returns has no dependency with two success rows |
| EngineOrder.RowsOkIff | controller/internal/workers/workers.go:400-411 | with any ids, in every state of a run of the machine all rows of a task but its newest were replaced by a retry, so that it has at most one terminal row, iff no task that has a row was ever enqueued |
| EngineVerdicts.DoneExactlyIff | controller/internal/db/sqliteManager.go:2129-2145 | whatever ids are passed: of the completion check saying yes, all tasks having ended, and no task having two terminal rows, any two imply the third; so once the check says yes, all tasks have ended iff none has ended twice |
| EngineVerdicts.SuccessExactlyIff | controller/internal/db/sqliteManager.go:943-954 | likewise for the success counter having reached the number of tasks, all tasks having succeeded, and no task having two success rows |
| EngineVerdicts.EveryTaskSucceededIff | controller/internal/db/sqliteManager.go:943-954 | whatever ids are passed: if the second update of DAG_Runs hits, every task has now succeeded iff no task has two success rows; and without such a task it hits iff every task has succeeded |
| EngineVerdicts.StatusExactlyIff | controller/internal/db/sqliteManager.go:928-965 | whatever ids are passed: the status is success iff all tasks succeeded and failed iff one failed, exactly when the success counter is short of the number of tasks, or all succeeded and none failed, or the status is failed and some task has not succeeded |
| EngineVerdicts.StatusRightIfEndedOnce | controller/internal/db/sqliteManager.go:928-965 | in particular whenever no task has two terminal rows |
| EngineVerdicts.AllEndedHasVerdict | controller/internal/db/sqliteManager.go:943-954 | whatever ids are passed, a run all of whose tasks have ended has a verdict |
| EngineVerdicts.VerdictStaysIff | controller/internal/db/sqliteManager.go:1388-1407 | whatever ids are passed, over any further run: a success stays the verdict throughout iff no row of the run fails in it; a failure stays the verdict throughout iff the success counter had reached the number of tasks before or does not reach it |
| EngineVerdicts.SuccessIsFinalIff | controller/internal/db/sqliteManager.go:1396-1407 | between two events, starting tasks enqueued: a success is final, under every continuation, iff no row of the run is pending or running, replaced ones aside |
| EngineVerdicts.CleanedAtMostOnce | controller/internal/workers/workers.go:384-398 | whatever ids are passed, a workspace is removed at most once, and never before as many outcomes were counted as there are tasks |
| EngineVerdicts.CleanedMeansQuietIff | controller/internal/workers/workers.go:718-743 | whatever ids are passed, once the workspace is gone: every task has ended, the counters add up to the number of tasks and no row is left pending or running, iff no task has two rows that no retry replaced |
| EngineEndedOnce.InOrderIfSucceededOnce | controller/internal/db/sqliteManager.go:1127-1192 | whatever ids are passed, a run no task of which has two success rows is in dependency order |
| EngineEndedOnce.CleanedExactlyOnceIfEndedOnce | controller/internal/workers/workers.go:384-398 | whatever ids are passed, the workspace of a run no task of which has two terminal rows has been removed exactly once if all tasks have ended and the last handler has asked, and never otherwise |
| EngineEndedOnce.GoneInTimeIff | controller/internal/workers/workers.go:384-398 | from an empty database, with any ids: in every state of a run of the machine a workspace is gone only if all tasks of its run have ended, iff it is never removed while some task has two terminal rows |
| EngineEndedOnce.BackendsAgreeIfEndedOnce | controller/internal/db/postgresDAGManager.go:1756-1858 | and both backends suspend the same tasks of it |
| EngineOutcomes.BackendsAgreeIff | controller/internal/db/postgresDAGManager.go:1756-1858 | on any tables with a failed task: SQLite's search finds no more than PostgreSQL's query, and the same iff every rowless task that depends on a descendant of the failed one with a row also reaches the failed one through rowless tasks |
| LiteralId.LiteralIdSplitsBackends | controller/internal/db/sqliteManager.go:2053-2084 | with the id the code passes, a reachable state in which SQLite suspends nothing and PostgreSQL something |
| EngineAnyId.StartsAtMostOnce | controller/internal/controller/dagrun_controller.go:152-197 | whatever ids successes pass, and however Reconcile attempts were repeated and cut off, with workers in between: run names are unique, and each row the controller inserted is the first of its run and task |
| EngineAnyId.RootRowsAreControllerRows | controller/internal/controller/dagrun_controller.go:167-197 | whatever ids are passed, a starting task has a row exactly if it has one of the controller's |
| EngineAnyId.AttemptStartsAllIff | controller/internal/controller/dagrun_controller.go:158-197 | whatever ids are passed, and with anybody's steps in between: an attempt that came to the end of its list leaves every starting task with a row iff the run's version was the latest when the tasks were listed, or they all had rows already |
| StrandedRun.NewVersionKeepsRunFromStarting | controller/internal/db/sqliteManager.go:600-634 | a reachable state, ids as intended, in which an attempt has completed and the run has no row at all, because a newer version was published after the first attempt was cut off |
| EngineAnyId.SettledForGood | controller/internal/workers/workers.go:238-266 | a run whose starting tasks are enqueued, with no row pending or running, those replaced by a retry aside, and the event loop not busy with it, is never changed again by any step of anybody, whatever ids are passed |
| EngineCounts.CountersExactIff | controller/internal/db/sqliteManager.go:928-965 | whatever ids are passed, in every reachable state: each counter is at least the number of its tasks, and equal to it iff no task of the run has two rows with that outcome |
| Admission.RunAfterRespected | controller/api/v1alpha1/dag_types.go:424-446 | with ids that tell, over all runs of an inserted DAG: a row that is not a suspended one exists only if for every name its task's specification runs after a task of that name has succeeded in the run; for specifications that are the first of their name and version |
| Admission.RunAfterRespectedIfOnce | controller/api/v1alpha1/dag_types.go:424-446 | the same whatever ids are passed, for a run no task of which has two success rows |
| Admission.StillHolds | controller/internal/db/sqliteManager.go:235-282 | later inserts of accepted DAGs leave the graph of an earlier version, and with it that result, as it was |
| EngineRuns.StepKeepsInv | controller/internal/workers/workers.go:238-266 | with ids that tell, every step of every participant keeps the engine's invariant: row facts, the per-run invariant of all runs, cleanup and run starts |
| EngineRuns.RunKeepsInv | controller/internal/workers/workers.go:96-146 | with ids that tell, the invariant holds after any interleaving of any length |
| EngineRuns.IntendedIdsAreSafe | controller/internal/db/sqliteManager.go:1010-1016 | every state reached by passing the id of the run to the last query, as intended, is one the results above speak about |
| EngineSteps.SucceedKeepsIff | controller/internal/db/sqliteManager.go:920-986 | whatever id k is passed: marking a task successful keeps the invariant exactly if k tells the candidate tasks that have a row in the run from those that have none; otherwise the invariant is broken in that very step |
| LiteralId.LiteralIdEnqueuesTwice | controller/internal/db/sqliteManager.go:1010-1011 | with the id the code passes, that of the task run, a reachable state exists in which a task that is still pending is returned for enqueueing again |
| LiteralId.LiteralIdBreaksDependencyOrder | controller/internal/db/sqliteManager.go:1108-1114 | with that id, and through the duplicate's two success rows, a reachable state exists in which a pending row belongs to a task one of whose dependencies has not succeeded |
| LiteralId.LiteralIdMiscounts | controller/internal/db/sqliteManager.go:928-931 | with that id, a reachable state with two success rows of one task and a counter larger than the number of succeeded tasks |
| LiteralId.LiteralIdCleansUnderARunningTask | controller/internal/workers/workers.go:384-398 | with that id, a reachable state in which a run counts as a success and its workspace is gone while one of its pods runs |
| LiteralId.LiteralIdTakesVerdictBack | controller/internal/db/sqliteManager.go:1396-1407 | and a step further the run counts as failed |
| StrandedRun.LiteralIdStrandsARun | controller/internal/db/sqliteManager.go:1108-1114 | with that id a run is stranded: a reachable state in which its starting tasks are enqueued, nothing of it is pending or running and the event loop and the controller are idle, while a ready task has no row, the run is not complete and has no verdict; and no later step of anybody changes that |
| EngineSteps.NextIdsAgainstRows | controller/internal/db/sqliteManager.go:920-986 | after a success, on any tables and for any id k: nothing that has a row is returned iff the second update hits or every task the counts let through that has a row in the run has one under k; nothing ready is forgotten iff nothing ready has a row under k or a dependency with two success rows; and what is returned has only succeeded dependencies iff none of them has two success rows |
| RunnableTasks.RunnableAgainstRows | controller/internal/db/sqliteManager.go:1101-1125 | the same three equivalences for the last filter alone, on any table |
| EngineSteps.ClaimStepKeeps | controller/internal/db/postgresDAGManager.go:942-1036 | claims, renewals, recovery, finalisation and the claim of a retry, on either backend, keep the engine's invariant |
| EngineSteps.NextIdsReadyIff | controller/internal/db/sqliteManager.go:999-1016 | on any tables: the ids returned after a success are precisely the tasks that became ready, iff none of the three mistakes is made |
| RunnableTasks.RunnableIsReadyIff | controller/internal/db/sqliteManager.go:1101-1125 | on any table the last filter lets through exactly the ready tasks iff none of the three mistakes is made |
| EngineOutcomes.EnqueueKeeps | controller/internal/workers/workers.go:400-411 | inserting one pending row of those returned keeps the invariant: the task had no row and is no starting task |
| EngineOutcomes.FailKeeps | controller/internal/db/sqliteManager.go:1380-1410 | marking a live task failed keeps the invariant and leaves its descendants to be suspended |
| EngineOutcomes.SuspendKeeps | controller/internal/db/sqliteManager.go:2086-2110 | suspending the orphans of the failed task keeps the invariant and settles the debt |
| EngineOutcomes.BackendsAgree | controller/internal/db/sqliteManager.go:2053-2084 | the two searches agree in any state in which the failing run's invariant holds |
| EngineOutcomes.RetryKeeps | controller/internal/workers/workers.go:481-526 | a retry adds one pending row of the same run and task after all others, its old row is live no more, and the invariant holds |
| EngineOutcomes.RetryReplaces | controller/internal/workers/workers.go:494 | in any state: that row, the one pod less, and nothing else in the tables |
| EngineOutcomes.CheckKeeps | controller/internal/workers/workers.go:384-398 | asking for completion, and removing the workspace if the counts say so, keeps the invariant |
| EngineStarts.StartRunKeeps | controller/internal/db/sqliteManager.go:519-564 | CreateDAGRun keeps the invariant: a new name adds an empty run, a known one changes nothing |
| EngineStarts.InsertOneKeeps | controller/internal/controller/dagrun_controller.go:189-194 | enqueueing a starting task that had no row keeps the invariant |
| EngineStarts.CheckOneKeeps | controller/internal/controller/dagrun_controller.go:179-187 | between the existence check and the insert no worker can add a row for the starting task |
| EngineStarts.ListStartingKeeps | controller/internal/db/sqliteManager.go:600-634 | listing the starting tasks keeps the controller's facts, also when a newer version has been published in between |
| RunProgress.TaskSucceeded | controller/internal/db/sqliteManager.go:920-986 | a success leaves ready exactly the tasks that are to be enqueued |
| RunProgress.TaskFailed | controller/internal/db/sqliteManager.go:1380-1410 | a failure makes nothing ready and leaves only the failed task's descendants uncontained |
| RunProgress.NextEnqueued | controller/internal/workers/workers.go:400-411 | enqueueing a ready task keeps dependency order and takes it off the ready set |
| RunProgress.OrphansSuspended | controller/internal/db/sqliteManager.go:2053-2110 | suspending all rowless descendants leaves every task below a failed or suspended one with a row, each suspension with a cause right above it |
| RunProgress.SearchesAgree | controller/internal/db/sqliteManager.go:2069-2082 | where dependency order holds, no path from a rowless task down to the failed one passes a task with a row, so stopping at rows loses nothing |
| RunProgress.SearchesAgreeIff | controller/internal/db/sqliteManager.go:2069-2082 | for any set of tasks with rows in an acyclic graph: stopping at rows finds no more than walking through them, and the same iff nothing is hidden behind a row |
| LooseProgress.OverIff | controller/internal/db/sqliteManager.go:2129-2145 | the set-level form of the two results on runs that wait for nothing |
| RunProgress.EnqueuedMeansSucceededAbove | controller/internal/db/sqliteManager.go:1127-1165 | everything above a task that was enqueued has succeeded |
| RunProgress.NoStuckRun | controller/internal/db/sqliteManager.go:2129-2145 | roots enqueued, all rows terminal and nothing owed: every task of the graph is terminal |
| RunProgress.WaitingForNothing | controller/internal/db/sqliteManager.go:2129-2145 | such a run also counts as complete and has a verdict |
| RunProgress.SuspendedMeansFailed | controller/internal/db/sqliteManager.go:2053-2110 | without a failure nothing is suspended |
| RunProgress.DoneByCount | controller/internal/db/sqliteManager.go:2129-2145 | the sum of the counters reaches the number of tasks iff the terminal tasks are all the tasks |
| RunProgress.Verdict | controller/internal/db/sqliteManager.go:943-954 | status against tasks: success iff all succeeded, failed iff one failed, never both |
| RunProgress.SuccessFits | controller/internal/db/sqliteManager.go:928-965 | a success keeps the per-run invariant with counters, status and cleanup count |
| RunProgress.FailFits | controller/internal/db/sqliteManager.go:1396-1407 | so does a failure |
| RunProgress.SuspendFits | controller/internal/db/sqliteManager.go:2104-2110 | so does a suspension of exactly the rowless descendants |
| RowFacts.LiveIsUnfinished | controller/internal/workers/workers.go:494 | the row of a pod whose outcome is still out is the newest of its task, which has no terminal row |
| RowFacts.AtMostOneSuccess | controller/internal/db/sqliteManager.go:923-931 | in any table that satisfies the row facts a task has at most one success row per run, which is what makes the counts exact |
| RunnableTasks.GetRunnableTasks | controller/internal/db/sqliteManager.go:1101-1125 | whatever order the map yields its keys in, each qualifying task is returned once and no other |
| RunnableTasks.CountsMeet | controller/internal/db/sqliteManager.go:1127-1192 | for a task none of whose dependencies has two success rows, the joined count never exceeds the dependency count and equals it iff every dependency has succeeded, repeated runAfter entries included |
| RunnableTasks.CountsExceed | controller/internal/db/sqliteManager.go:1127-1192 | for a task all of whose dependencies have succeeded, the joined count is never below the dependency count and equals it iff none of them has two success rows |
| RunnableTasks.RunnableInOrderIff | controller/internal/db/sqliteManager.go:1101-1192 | on any table: a returned task has only succeeded dependencies iff none of them has two success rows; and a task that should be returned, all dependencies succeeded, not started and without a row under the id, is returned iff none of them has |
| RunnableTasks.RunnableExactly | controller/internal/db/postgresDAGManager.go:649-758 | row by row, for a task none of whose dependencies has two success rows: it is returned iff it is of the DAG version, some Dependencies row is of it, the dependency of each such row has a success row in the run, each of its own rows in the run is pending or suspended, and it has no row under the checked id |
| RunnableTasks.ReturnedNotStarted | controller/internal/db/sqliteManager.go:1139-1145 | on any table, row by row: no returned task has a running, success or failed row in the run, nor any row under the checked id |
| RunnableTasks.SuccessRowsCount | controller/internal/db/sqliteManager.go:1130-1150 | what is counted as the success rows of a dependency are the rows of that run and task that say success |
| RunnableTasks.DuplicateSuccessFoolsTheCount | controller/internal/db/sqliteManager.go:1130-1146 | two success rows of one dependency can stand in for a missing one of another |
| Suspension.BuildDependents | controller/internal/db/sqliteManager.go:2021-2044 | the map of dependents holds exactly the DAG version's edges, turned round |
| Suspension.PushDependents | controller/internal/db/sqliteManager.go:2069-2082 | the inner loop: the dependents without a row that were not found before, once each, go to the result and onto the stack |
| Suspension.StackSearch | controller/internal/db/sqliteManager.go:2053-2084 | the search ends and yields, once each, the tasks joined to the failed one by a path of rowless tasks |
| Suspension.RecursiveQuery | controller/internal/db/postgresDAGManager.go:1761-1819 | the query ends on an acyclic graph and, deduplicated, yields all rowless descendants of the failed task once each |
| Suspension.FirstsWithoutRow | controller/internal/db/postgresDAGManager.go:1803-1819 | the loop over the query's rows keeps each task without a row once |
| ClaimProtocol.StepKeeps | controller/internal/db/sqliteManager.go:793-899 | a claim is held by the latest claimant, a finalised row is never pending or claimed again, and no step returns a row to pending |
| ClaimProtocol.GuardsAre | controller/internal/db/postgresDAGManager.go:942-962 | which rows claims may take: pending ones, on PostgreSQL and by id only if unclaimed or expired |
| ClaimProtocol.ClaimingIs | controller/internal/db/postgresDAGManager.go:942-970 | what a claim of many rows writes, row by row, and shows |
| ClaimProtocol.HoldingIs | controller/internal/db/postgresDAGManager.go:983-1015 | renewal and finalisation change the row of the claim's holder and no other |
| ClaimProtocol.RecoveringIs | controller/internal/db/postgresDAGManager.go:1017-1027 | recovery takes expired claims off pending rows and does nothing else |
| ClaimProtocol.FinalisedAtMostOnce | controller/internal/db/postgresDAGManager.go:1001-1036 | over any run and interleaving on either backend, outcomes before finalisation included: finalisation succeeds at most once per row, only for the worker of its latest claim, and no row returns to pending |
| Leases.RenewalsKeepClaim | controller/internal/db/postgresDAGManager.go:942-999 | renewals each less than the slack after their tick keep the claim against any schedule of other workers' claims and of recovery |
| Leases.TickIs | controller/internal/workers/workers.go:156-158 | the ticker ticks every half lease time |
| Leases.ProtectedIffWithinSlack | controller/internal/workers/workers.go:156-176 | the admissible lateness is exactly the whole seconds of the lease less half of it: up to it every schedule is survived, beyond it some schedule loses the claim |
| Leases.LateRenewalLosesClaim | controller/internal/db/postgresDAGManager.go:946-964 | a schedule that loses the claim for any larger lateness |
| Leases.OnTimeWorkerFinalises | controller/internal/db/postgresDAGManager.go:1001-1015 | a worker on time makes the row running |
| Leases.SlackPositiveIff | controller/internal/db/postgresDAGManager.go:943 | there is slack at all iff the lease is a second or longer |
| Managers.DAGManager.InsertDAG | controller/internal/db/sqliteManager.go:296-355 | succeeds iff every dependency names a task; an accepted DAG keeps the catalog well-formed and older versions' graphs as they were |
| Managers.DAGManager.DagNameToDagId | controller/internal/db/sqliteManager.go:581-598 | the newest version of that name, or nothing if there is none |
| Managers.DAGManager.CreateDAGRun | controller/internal/db/sqliteManager.go:519-564 | returns the run of that name, adding it with the newest version only if it did not exist |
| Managers.DAGManager.GetStartingTasks | controller/internal/db/sqliteManager.go:600-634 | the dependency-free tasks of the newest version, once each, if the run is of that version; else none |
| Managers.DAGManager.TaskRunExists | controller/internal/db/sqliteManager.go:566-579 | whether the run has a row of the task, of whatever status |
| Managers.DAGManager.AddPendingTaskRun | controller/internal/db/sqliteManager.go:1656-1663 | one new pending, unclaimed row and nothing else; an error iff PostgreSQL is given an unknown run or task |
| Managers.DAGManager.ClaimTasks | controller/internal/db/postgresDAGManager.go:942-981 | up to limit distinct rows, pending and on PostgreSQL unclaimed or expired, and neither scheduled for later nor locked, get the worker's claim: on PostgreSQL until the whole seconds of the lease from now, on SQLite until the last whole second of it; fewer than limit only if there are no more; every other row is untouched |
| Managers.DAGManager.ClaimTaskByID | controller/internal/db/postgresDAGManager.go:1567-1579 | succeeds iff the row is pending and unclaimed or its lease is over, on either backend, and then writes claim and lease |
| Managers.DAGManager.RenewLease | controller/internal/db/postgresDAGManager.go:983-999 | succeeds iff the worker holds the claim, and then only the end of the lease moves, counted from now |
| Managers.LeasedIsProtectedIff | controller/internal/workers/workers.go:156-176 | a row that the manager has claimed on PostgreSQL stays its worker's against every schedule iff renewals are late by no more than the whole seconds of the lease less half of it |
| Managers.DAGManager.FinalizeClaimToRunning | controller/internal/db/sqliteManager.go:873-887 | succeeds iff the worker holds the claim; the row is running and unclaimed then |
| Managers.DAGManager.RecoverExpiredLeases | controller/internal/db/sqliteManager.go:889-899 | clears exactly the expired claims of pending rows and returns their number |
| Managers.DAGManager.GetNextRunnableTasks | controller/internal/db/sqliteManager.go:999-1016 | the loop and its two queries yield the specified set for the id handed down; no returned task has a running, success or failed row in the run |
| Managers.DAGManager.MarkSuccessAndGetNextTasks | controller/internal/db/sqliteManager.go:920-986 | an unknown row changes nothing and is an error; otherwise the row says success, the counter is one higher, the run is a success if that reaches the task count, and the ids are those for k = the task run's own id, none of a task with a running, success or failed row |
| Managers.DAGManager.MarkTaskAsFailed | controller/internal/db/sqliteManager.go:1380-1410 | row failed, counter raised, run failed; an unknown row changes nothing |
| Managers.DAGManager.MarkConnectingTasksAsSuspended | controller/internal/db/sqliteManager.go:1994-2127 | one suspended row per task its backend's search finds, counter raised by their number, their names returned in that order; an unknown row is an error on SQLite only, tasks to suspend in an unknown run on PostgreSQL only, and an error changes nothing |
| Managers.DAGManager.FoundInOwnVersion | controller/internal/db/postgresDAGManager.go:1774-1788 | for a row of one of the run's own tasks both backends look at the run's own version |
| Managers.DAGManager.CheckIfAllTasksDone | controller/internal/db/sqliteManager.go:2129-2145 | compares the number of tasks of the run's DAG version with the sum of its counters; an unknown run is an error |
| Workers.Worker.HandleDagRunCompletion | controller/internal/workers/workers.go:384-398 | removes the workspace iff the run is complete |
| Workers.Worker.AllocateNextTasks | controller/internal/workers/workers.go:400-411 | one pending row per returned task, in order, except those whose insert fails |
| Workers.Worker.HandleSuccessfulTaskRun | controller/internal/workers/workers.go:322-382 | leaves database and cleanups where the engine's steps for a success leave them, with the id the code passes; nothing is changed if the pod cannot be deleted or the database does not answer, and failing inserts lose only their rows |
| Workers.Worker.RetryFailedTask | controller/internal/workers/workers.go:481-526 | one more row, of the pod's run and task, pending and claimed by this worker |
| Workers.Worker.HandleUnretryablePod | controller/internal/workers/workers.go:698-744 | the row says failed, one suspended row per task its backend's search finds, counters and status follow, and the workspace goes iff the run is complete |
| Workers.Worker.HandleFailedTaskRun | controller/internal/workers/workers.go:413-526 | a retry leaves exactly one more row, pending and claimed by this worker; otherwise database and cleanups are where the engine's steps for a failure leave them; nothing is changed if the pod is there and cannot be deleted, or the database does not answer |
| Workers.Worker.PollClaims | controller/internal/workers/workers.go:96-146 | claims distinct claimable rows for this worker, at most five a tick and at most as many as keep fifty in flight, and fewer only if there are no more; every other row is untouched |
| Workers.Worker.ClaimProcessed | controller/internal/workers/workers.go:136-143 | a processed claim is in flight no more |
| Workers.DagRunReconciler.Reconcile | controller/internal/controller/dagrun_controller.go:152-197 | a complete attempt: the run exists under its name, all old rows are kept, the new rows are pending ones of listed starting tasks, and each listed task has a row |
| EngineHandlers.SuccessHandledIs | controller/internal/workers/workers.go:322-411 | a handled success in the tables: one row says success, its run's counter and status follow, each returned task gets a pending row, and if none was returned the workspace goes iff the outcomes have reached the number of tasks |
| EngineHandlers.SuccessIsSteps | controller/internal/workers/workers.go:322-411 | for any running pod that is a run of the engine's steps |
| EngineHandlers.FailureHandledIs | controller/internal/workers/workers.go:698-744 | a handled failure in the tables: one row says failed, what was found gets suspended rows, the run's counters and status follow, and the workspace goes iff the outcomes have reached the number of tasks |
| EngineHandlers.FailureIsSteps | controller/internal/workers/workers.go:698-744 | for any running pod that is a run of the engine's steps too |
| EngineHandlers.RetryIsSteps | controller/internal/workers/workers.go:481-526 | for any running pod two steps lead to the tables with one more row, of the same run and task, pending and claimed by the worker, the old row untouched |
| EngineHandlers.ClaimsAreAStep | controller/internal/db/postgresDAGManager.go:942-981 | giving pending rows, on PostgreSQL those nobody has a lease on, the worker's claim is a step |
| EngineHandlers.HolderActsInAStep | controller/internal/db/postgresDAGManager.go:983-1015 | so are a renewal and a finalisation by the worker that holds the claim |
| EngineHandlers.RecoveryIsAStep | controller/internal/db/postgresDAGManager.go:1017-1027 | so is taking the expired claims off pending rows |
| EngineHandlers.AttemptIsSteps | controller/internal/controller/dagrun_controller.go:152-197 | a complete Reconcile attempt, with the run it finds or makes and the tasks it lists, is a run of the engine's steps |
| EngineHandlers.ListingSteps | controller/internal/controller/dagrun_controller.go:167-197 | so is Reconcile's loop from any point to its end |
| EngineHandlers.StartMissingStarts | controller/internal/controller/dagrun_controller.go:167-197 | the loop gives every listed task a row and no other, and keeps all rows there were |
| EngineHandlers.StartMissingRows | controller/internal/controller/dagrun_controller.go:179-194 | each new row is a pending one of a listed task that had no row in the run |
| EngineHandlers.NothingMissing | controller/internal/controller/dagrun_controller.go:179-187 | an attempt after a completed one changes nothing |
| EngineHandlers.StartMissingCount | controller/internal/controller/dagrun_controller.go:167-197 | and exactly one row each |
| EngineHandlers.RelistedAttempt | controller/internal/controller/dagrun_controller.go:158-197 | a first attempt cut off after any number of tasks and a second one that lists the tasks anew, others or none: the tasks with rows are those that had one and those either attempt came to, the new ones with one row each |
| EngineHandlers.CutOffAttemptIsMadeUp | controller/internal/controller/dagrun_controller.go:167-197 | if the second attempt lists the same tasks, it leaves exactly the rows a single attempt would have left |
| Catalogs.FindTask | controller/internal/db/sqliteManager.go:458-465 | the first row of that version, name and task version, or nothing |
| Catalogs.FindLatest | controller/internal/db/sqliteManager.go:470-476 | a row of that name with the highest version, or nothing if the name is unknown |
| Catalogs.CreateDependencyConnection | controller/internal/db/sqliteManager.go:454-489 | adds one row per runAfter entry of one specification, in order: from the first task of its name and version to a latest task of the entry's name; fails iff an entry names no task |
| Catalogs.InsertDag | controller/internal/db/sqliteManager.go:296-355 | one row for the DAG version, one per task with its name and its reference's version or 1, and the dependency rows of all entries of all specifications; fails iff a dependency names no task |
| Catalogs.AreRowsAt | controller/internal/db/sqliteManager.go:454-489 | the dependency rows are one for each entry of each specification's runAfter, in that order |
| Catalogs.RowDependencies | controller/internal/db/sqliteManager.go:454-489 | for any list: a new task waits for a task of some name iff a specification it stands first for runs after that name |
| Catalogs.HonouredIff | controller/internal/db/sqliteManager.go:454-489 | a task waits for all that its own runAfter lists iff no earlier specification has its name and version, or it lists nothing |
| Catalogs.GraphIsRunAfter | controller/internal/db/sqliteManager.go:454-489 | with distinct names the graph by id is the graph by name |
| Catalogs.RepeatedReferenceLosesItsDependencies | controller/api/v1alpha1/dag_types.go:449-481 | an accepted DAG with a repeated reference whose third task runs after another but waits for nothing |
| Catalogs.InsertKeepsWellFormed | controller/internal/db/sqliteManager.go:296-355 | an acyclic, closed, non-empty DAG leaves a well-formed catalog: acyclic by id too, edges within their version, right task count; older versions untouched |
| Catalogs.ValidateAndInsert | controller/api/v1alpha1/dag_types.go:424-446 | admission and insertion together succeed iff the DAG is accepted, and leave the well-formed catalog that the run engine relies on |
| DagTypes.CheckFieldsFilled | controller/api/v1alpha1/dag_types.go:449-481 | accepts iff every field is filled and inline tasks have distinct names |
| DagTypes.CycleVisitor.Visit | controller/api/v1alpha1/dag_types.go:487-507 | ends on every graph; a hit means a cycle, a miss leaves the task settled and the stack as it was |
| DagTypes.CheckNoCycles | controller/api/v1alpha1/dag_types.go:483-517 | accepts iff the name graph given by runAfter has no cycle |
| DagTypes.CheckRunAfterTasksExist | controller/api/v1alpha1/dag_types.go:520-533 | accepts iff every dependency names a task |
| DagTypes.ComponentVisitor.Dfs | controller/api/v1alpha1/dag_types.go:548-559 | reaches exactly what the adjacency lists connect, without returning to what was visited |
| DagTypes.BuildAdjacency | controller/api/v1alpha1/dag_types.go:537-546 | the adjacency lists hold exactly the undirected neighbours |
| DagTypes.CheckAllTasksConnected | controller/api/v1alpha1/dag_types.go:536-573 | accepts iff all tasks lie in one component of the undirected graph, whichever task map iteration starts from |
| DagTypes.CheckStartingTask | controller/api/v1alpha1/dag_types.go:576-583 | accepts iff some task has no dependencies |
| DagTypes.AcyclicClosedHasRoot | controller/api/v1alpha1/dag_types.go:520-583 | a non-empty list that passes the cycle and existence checks has a topological order and a starting task, so the last check can fail on the empty list only |
| DagTypes.ValidateDAG | controller/api/v1alpha1/dag_types.go:424-446 | accepts iff fields, parameters, acyclicity, closure and connectedness are in order and there is a task |
| DagForm.CycleDetector.HasCycle | ui/src/utils/dagform.ts:16-32 | ends always, and answers right as long as no earlier hit left the stack dirty |
| DagForm.DetectCycles | ui/src/utils/dagform.ts:8-42 | reports some error iff the graph of the last task of each name has a cycle, dirty stack or not |
| DagForm.FormGraphIsRunAfterGraph | ui/src/utils/dagform.ts:13-14 | with distinct names that graph is the controller's |
| DagForm.FormIsNoStricter | ui/src/utils/dagform.ts:13-14 | for any list, repeated names included: a graph without a cycle for the controller has none for the form |
| DagForm.BothDetectors | ui/src/utils/dagform.ts:8-42 | what the controller's cycle check lets pass the form lets pass, for any list; with distinct names they accept the same graphs |
| DagForm.RepeatedNameHidesCycle | ui/src/utils/dagform.ts:13-14 | with a repeated name the form can miss a cycle the controller sees |
| DagDsl.BuildDependencyMap | controller/internal/dagdsl/parser.go:193-208 | for every name the sources of the written edges into it, a list of targets being an edge into each, in the order and as often as they are written |
| DagDsl.RecordEdge | controller/internal/dagdsl/parser.go:199-205 | the sources recorded for each target of one edge |
| DagDsl.CreateTaskSpec | controller/internal/dagdsl/parser.go:221-267 | image, command and script are what the last field that sets them says, without its quotes; the task runs after what the map records for its name |
| DagDsl.CleanStringIs | controller/internal/dagdsl/parser.go:269-275 | a pair of quotes is taken off and nothing else is changed |
| DagDsl.CleanScriptIs | controller/internal/dagdsl/parser.go:277-285 | three quotes on each side are taken off, and otherwise a script is treated like other strings |
| DagDsl.ConvertToDAGSpec | controller/internal/dagdsl/parser.go:129-172 | in terms of the program's items: the compiled tasks stem from the task items in order, and each runs after exactly the sources of the last graph block's edges into it, alone or in a list of targets, in the order and as often as they are written |
| DagDsl.TargetWaits | controller/internal/dagdsl/parser.go:210-217 | whatever an edge names as its target, or as one of its targets, runs after the edge's source |
| DagDsl.WaitsAreWritten | controller/internal/dagdsl/parser.go:210-217 | and after nothing that no such edge names as its source |
| DagDsl.WrittenEdgesAre | controller/internal/dagdsl/parser.go:193-217 | the written graph consists of those edges of the last graph block |
| DagDsl.HasGraph | controller/internal/dagdsl/validator.go:69-77 | whether some task has a dependency |
| DagDsl.ValidateGraphTaskReferences | controller/internal/dagdsl/validator.go:80-106 | complains iff a dependency names no task, and only of such names |
| DagDsl.ValidateDAGSpec | controller/internal/dagdsl/validator.go:30-57 | valid iff there is a graph, it is closed and the parameter checks pass |
| DagDsl.CompiledGraph | controller/internal/dagdsl/parser.go:193-267 | the compiled graph is the written one restricted to edges into defined tasks |
| DagDsl.CompileAndValidate | controller/internal/dagdsl/validator.go:30-106 | both validators accept iff the edges into defined tasks are non-empty, closed over the defined tasks, acyclic and connected, beside the field and parameter checks |
| DagDsl.UndefinedTargetDropped | controller/internal/dagdsl/parser.go:261-264 | an edge into an undefined task changes no compiled task |
| Fifo.Conservation | controller/internal/queue/queue.go:21-33 | over any operations, what was popped followed by what is left is what was there followed by what was pushed |
| Fifo.PopIs | controller/internal/queue/queue.go:21-33 | a pop hands out the first elements, as many as asked for or all there are, and leaves the rest; on an empty queue it waits |
| MemoryQueues.MemoryQueue.PushBatch | controller/internal/queue/memory.go:40-51 | appends; slots before head stay nil and head stays below the larger of 1024 and the live items |
| MemoryQueues.MemoryQueue.TryPopBatch | controller/internal/queue/memory.go:69-117 | hands out the front in order, through nil-out and compaction, keeping the retention bound; nothing iff empty |
| MemoryQueues.MemoryQueue.Size | controller/internal/queue/memory.go:119-124 | the number of queued events |
| QueueWakeUp.NoLostWakeUpIff | controller/internal/queue/memory.go:44-50 | no consumer sleeps without a token while events are queued, over all runs, iff there is at most one consumer |
| QueueWakeUp.TwoConsumersLose | controller/internal/queue/memory.go:69-84 | with two consumers a run in which one sleeps on although an event is queued |
| KeyedLogs.PushAppends | controller/internal/queue/pebble.go:82-109 | a committed batch of a push appends to the stored queue |
| KeyedLogs.PopTakesFront | controller/internal/queue/pebble.go:127-183 | a committed batch of a pop removes the front of the stored queue |
| KeyedLogs.RepairOrdersCounters | controller/internal/queue/pebble.go:66-75 | the repair on opening leaves a well-formed store alone and makes an empty queue of one whose tail is behind its head |
| Decimals.FormatValue | controller/internal/queue/pebble.go:185-200 | a counter's text reads back as its number |
| Decimals.PaddedValue | controller/internal/queue/pebble.go:13 | the eight-column text reads back as its number, for all naturals |
| PebbleQueues.TopicLayoutSound | controller/internal/queue/pebble.go:13 | event keys of different numbers differ and none is the head or tail key |
| PebbleQueues.PebbleQueue.WriteEvents | controller/internal/queue/pebble.go:86-96 | the events go under the numbers after the tail |
| PebbleQueues.PebbleQueue.PushBatch | controller/internal/queue/pebble.go:82-109 | writes the events under the numbers after the tail and then the tail, on any store; appends to the queue a well-formed store stands for |
| PebbleQueues.PebbleQueue.TakeEvents | controller/internal/queue/pebble.go:149-171 | reads the events in order, or reports a missing one |
| PebbleQueues.PebbleQueue.TryPopBatch | controller/internal/queue/pebble.go:127-183 | hands out the front in order; on a missing event nothing is stored |
| PebbleQueues.PebbleQueue.Size | controller/internal/queue/pebble.go:202-214 | the number of queued events; an error iff a counter cannot be read |
| PebbleQueues.NewPebbleQueue | controller/internal/queue/pebble.go:28-76 | refused iff a counter cannot be read; reopening a queue's store gives the same queue, a tail behind the head gives a valid empty one, and head never exceeds tail |
| QueueRefinement.OnMemory | controller/internal/queue/memory.go:40-124 | each operation answers and changes the queue as the abstract one does |
| QueueRefinement.OnPebble | controller/internal/queue/pebble.go:82-214 | so does each operation on the persistent queue |
| QueueRefinement.Lockstep | controller/internal/queue/queue.go:21-33 | any sequence of operations gets identical answers from both queues, those of the abstract queue |
| LogStores.Absorb | controller/internal/object/logStore.go:231-241 | one read and the possible part keep uploaded bytes plus buffer equal to what was read |
| LogStores.ReadAll | controller/internal/object/logStore.go:198-248 | the loop for any chunking of the stream, with the part sizes it guarantees |
| LogStores.StoreRest | controller/internal/object/logStore.go:250-289 | what remains becomes the only object or the last part; a failed call leaves no object |
| LogStores.UploadLogs | controller/internal/object/logStore.go:178-313 | normal success stores exactly the stream, as one object if shorter than a part, else as consecutively numbered parts; an empty stream stores nothing; the multipart upload is left open only if the stream breaks after at least a part's worth of bytes, and without faults of the store exactly then |
| LogStores.BrokenAfterTheFirstPart | controller/internal/object/logStore.go:217-229 | a stream of one byte, which is a part, and then a broken read: the upload stays open |

## Left out

- `handleConfigError` marks a task failed twice (controller/internal/workers/workers.go:704, 810), which breaks the counters; the step is not part of the machine.
- Retry limits: attempts and backoff are not stored in the model, and `ShouldRerun` is a free choice.
- Workers.Worker.HandleFailedTaskRun: database errors and worker crashes after its first write. Like those of the success handler they leave a run unfinished; the machine's handlers always come to their end, while Reconcile may be cut off anywhere. What is missing in a run that was left so is told by `EngineAnyRuns.TableIsOverIff`, which is about any tables.
- Workers.Worker.HandleSuccessfulTaskRun: database errors and worker crashes after its first write, except inserts that fail, whose tasks stay without a row; see the line above.
- Several workers handling pod events at the same time: the handlers are those of one event loop, the default worker count. Claims are by any number of workers.
- Pod outcomes before finalisation in the engine; `ClaimProtocol` does allow them.
- EngineRuns.NoRunIsStuck: for ids that tell in the sense of `EngineSteps.SucceedKeepsIff`, which the id the code passes does not always do; without that it fails, see `StrandedRun.LiteralIdStrandsARun`, and `EngineAnyRuns.NoRunIsStuckIff` is the exact condition. Both speak of states in which the event loop is not in the middle of enqueueing or suspending for the run, as between those calls some tasks are still to come.
- EngineRuns.DependencyOrder: for ids that tell; without that it fails, see `LiteralId.LiteralIdBreaksDependencyOrder`, and `EngineOrder.DependencyOrderIff` is the exact condition. In terms of runAfter it is `Admission.RunAfterRespected`.
- Admission.RunAfterRespected: for ids that tell; for others `Admission.RunAfterRespectedIfOnce`. Both for specifications that are the first of their name and version; for others it fails, see `Catalogs.RepeatedReferenceLosesItsDependencies` and `Catalogs.HonouredIff`.
- EngineRuns.OneTerminalRow: for ids that tell; without that it fails, see `LiteralId.LiteralIdMiscounts`, and `EngineOrder.RowsOkIff` is the exact condition.
- EngineRuns.CountersAreExact: for ids that tell; without that it fails, see `LiteralId.LiteralIdMiscounts`. For any ids `EngineCounts.CountersExactIff` is the exact condition for the counters and `EngineVerdicts.StatusExactlyIff` that for the status.
- EngineRuns.VerdictIsFinal: for ids that tell; without that it fails, see `LiteralId.LiteralIdTakesVerdictBack`. `EngineVerdicts.VerdictStaysIff` is the exact condition over a run of the machine; over all continuations there is one for a success, `EngineVerdicts.SuccessIsFinalIff`, and none for a failure, which a later second success of a task may still turn.
- EngineRuns.CleanedExactlyOnce: for ids that tell; without that it fails, see `LiteralId.LiteralIdCleansUnderARunningTask`. For any ids: at most once (`EngineVerdicts.CleanedAtMostOnce`), not before all tasks have ended exactly as `EngineEndedOnce.GoneInTimeIff` says, and exactly once if no task has ended twice (`EngineEndedOnce.CleanedExactlyOnceIfEndedOnce`); of a run in which a task has ended twice it is not stated that its workspace goes at all.
- EngineRuns.CleanedMeansQuiet: for ids that tell; without that it fails, see `LiteralId.LiteralIdCleansUnderARunningTask`, and `EngineVerdicts.CleanedMeansQuietIff` is the exact condition.
- EngineRuns.BackendsSuspendTheSame: for ids that tell; without that it fails, see `LiteralId.LiteralIdSplitsBackends`, and `EngineOutcomes.BackendsAgreeIff` is the exact condition.
- EngineRuns.StepKeepsInv: for ids that tell; a success with another id breaks the invariant at once, see `EngineSteps.SucceedKeepsIff`. What any ids keep is the invariant of `EngineAnyRuns`.
- EngineRuns.RunKeepsInv: likewise for ids that tell.
- Leases.ProtectedIffWithinSlack: PostgreSQL only; `ClaimTasks` on SQLite does not look at an existing claim. Durations of at least zero.
- Managers.DAGManager.ClaimTasks: takes the first claimable rows; which rows are scheduled for later or locked is an input. There is one clock: that SQLite's lease is written in local time and compared with the time in UTC (controller/internal/db/sqliteManager.go:835, 890) is not modelled.
- Managers.DAGManager.InsertDAG: schedules, hashes, namespaces, parameters, workspaces, webhooks and the refusal of an unchanged DAG are not modelled.
- Managers.DAGManager.CreateDAGRun: run parameters and the PVC name are not stored.
- DagTypes.ValidateDAG: the verdict of checkParameters is an input; it does not look at the graph.
- DagDsl.ValidateDAGSpec: the verdicts of the two parameter checks are inputs, and error texts are shortened.
- DagDsl.CreateTaskSpec: args, parameters, retry codes and backoff are not carried along.
- PebbleQueues.PebbleQueue.PushBatch: counters are natural numbers, not 64-bit words.
- Queue events are opaque values, so JSON encoding and its failures other than an unreadable stored event are not modelled; nor are Close and cancellation, beyond a waiter giving up.
- LogStores.UploadLogs: for a minimum part size that is not negative; a read delivers at most its buffer; retries of opening the stream and pauses are not modelled.
- SuspendDagRun, DeleteDagRun, DeleteDAG, GetDAGsToStartAndUpdate: bulk SQL, the last one around a cron library.
- Kubernetes clients, pod specs, PVC calls, finalizers, webhooks, HTTP, authentication, metrics, migrations, configuration: thin wrappers or I/O.
- The DSL's lexer and parser: the model starts from the syntax tree.
- The form's other checks (names, cron expressions).
