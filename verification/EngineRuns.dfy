/** What holds in every state the run engine can reach, from an empty database, by any interleaving of
    workers, event handlers and Reconcile attempts over any number of runs. */
module EngineRuns {
  import opened Prelude
  import opened Graphs
  import opened Tables
  import opened RunProgress
  import opened Claims
  import opened Store
  import opened Engine
  import opened RowFacts
  import opened EngineSteps
  import opened EngineOutcomes
  import opened EngineStarts

  lemma InitialInv(c: Catalog)
    ensures Inv(c, Initial())
  {
  }

  lemma ClaimRetryKeeps(c: Catalog, s: Sys, worker: string, now: int, lease: int)
    requires Inv(c, s) && s.handler.Retrying?
    ensures Inv(c, DoClaimRetry(s, worker, now, lease))
  {
    ClaimStepKeeps(c, s, ClaimRetry(worker, now, lease));
  }

  lemma SuspendBelowKeeps(c: Catalog, s: Sys, backend: Backend, found: seq<nat>)
    requires WellFormed(c) && Inv(c, s) && Enabled(c, s, SuspendBelow(backend, found))
    ensures Inv(c, DoSuspend(s, found))
  {
    BackendsAgree(c, s, s.handler.run);
    SuspendKeeps(c, s, found);
  }

  lemma StepKeepsInv(c: Catalog, s: Sys, a: Action)
    requires WellFormed(c) && Inv(c, s) && Enabled(c, s, a) && Admits(TellingId, c, s, a)
    ensures Inv(c, Next(c, s, a))
  {
    match a {
      case Succeed(id, k, next) => SucceedKeepsIff(c, s, id, k, next);
      case EnqueueOne => EnqueueKeeps(c, s);
      case Fail(id) => FailKeeps(c, s, id);
      case SuspendBelow(backend, found) => SuspendBelowKeeps(c, s, backend, found);
      case Retry(id) => RetryKeeps(c, s, id);
      case ClaimRetry(worker, now, lease) => ClaimRetryKeeps(c, s, worker, now, lease);
      case CheckDone => CheckKeeps(c, s);
      case Publish(_, _) => ControllerKeeps(c, s, Next(c, s, a));
      case StartRun(name, dagName) => StartRunKeeps(c, s, name, dagName);
      case ListStarting(tasks) => ListStartingKeeps(c, s, tasks);
      case CheckOne => CheckOneKeeps(c, s);
      case InsertOne => InsertOneKeeps(c, s);
      case Crash => ControllerKeeps(c, s, Next(c, s, a));
      case _ => ClaimStepKeeps(c, s, a);
    }
  }

  lemma {:induction false} RunKeepsInv(c: Catalog, s: Sys, actions: seq<Action>, t: Sys)
    requires WellFormed(c) && Inv(c, s) && Runs(c, TellingId, s, actions, t)
    ensures Inv(c, t)
    decreases |actions|
  {
    if actions != [] {
      StepKeepsInv(c, s, actions[0]);
      RunKeepsInv(c, Next(c, s, actions[0]), actions[1..], t);
    }
  }

  /** Reached with ids that tell, such as the ids of the runs. */
  ghost predicate SafelyReachable(c: Catalog, s: Sys) {
    WellFormed(c) && Reachable(c, TellingId, s)
  }

  lemma IntendedIdsAreSafe(c: Catalog, s: Sys)
    requires WellFormed(c) && Reachable(c, RunId, s)
    ensures SafelyReachable(c, s)
  {
    var actions :| Runs(c, RunId, Initial(), actions, s);
    MoreIds(c, RunId, TellingId, Initial(), actions, s);
  }

  lemma ReachableInv(c: Catalog, s: Sys)
    requires SafelyReachable(c, s)
    ensures Inv(c, s)
  {
    var actions :| Runs(c, TellingId, Initial(), actions, s);
    InitialInv(c);
    RunKeepsInv(c, Initial(), actions, s);
  }

  // ----- No run gets stuck -----

  /** No later row for the same run and task. */
  ghost predicate Newest(rows: seq<TaskRun>, i: nat)
    requires i < |rows|
  {
    forall j :: i < j < |rows| ==> !SameKey(rows[i], rows[j])
  }

  /** No task of the run waits for a worker or for its pod. */
  ghost predicate Quiet(rows: seq<TaskRun>, r: nat) {
    forall i :: 0 <= i < |rows| && rows[i].runId == r && Newest(rows, i) ==> Terminal(rows[i].status)
  }

  lemma {:induction false} NewestExists(rows: seq<TaskRun>, i: nat) returns (n: nat)
    requires i < |rows|
    ensures i <= n < |rows| && SameKey(rows[n], rows[i]) && Newest(rows, n)
    decreases |rows| - i
  {
    if Newest(rows, i) {
      n := i;
    } else {
      var j :| i < j < |rows| && SameKey(rows[i], rows[j]);
      n := NewestExists(rows, j);
    }
  }

  lemma QuietFinishes(rows: seq<TaskRun>, r: nat)
    requires Quiet(rows, r)
    ensures TasksIn(rows, r) <= ProgressOf(rows, r).Finished()
  {
    forall t | t in TasksIn(rows, r) ensures t in ProgressOf(rows, r).Finished() {
      var i :| 0 <= i < |rows| && rows[i].runId == r && rows[i].taskId == t;
      var n := NewestExists(rows, i);
      MemberIn(rows, n);
    }
  }

  lemma QuietViewFinishes(c: Catalog, s: Sys, r: nat)
    requires WellFormed(c) && Keyed(c, s.db) && AllRunsOk(c, s) && r < |s.db.dagRuns| && DutyOf(s, r) == Nothing
    requires RootsOf(c, s, r) <= TasksIn(s.db.taskRuns, r) <= ProgressOf(s.db.taskRuns, r).Finished()
    ensures ProgressOf(s.db.taskRuns, r).Finished() == GraphOf(c, s, r).tasks
    ensures AllTasksDone(c, s.db, r) && s.db.dagRuns[r].status != RunRunning
  {
    assert WellFormedDag(c, s.db.dagRuns[r].dagId);
    WaitingForNothing(ViewOf(c, s, r));
  }

  lemma QuietRunFinishes(c: Catalog, s: Sys, r: nat)
    requires SafelyReachable(c, s) && r < |s.db.dagRuns| && DutyOf(s, r) == Nothing
    requires RootsOf(c, s, r) <= TasksIn(s.db.taskRuns, r) && Quiet(s.db.taskRuns, r)
    ensures ProgressOf(s.db.taskRuns, r).Finished() == GraphOf(c, s, r).tasks
    ensures AllTasksDone(c, s.db, r) && s.db.dagRuns[r].status != RunRunning
  {
    ReachableInv(c, s);
    QuietFinishes(s.db.taskRuns, r);
    QuietViewFinishes(c, s, r);
  }

  /** The task has succeeded, failed or been suspended. */
  ghost predicate Ended(rows: seq<TaskRun>, r: nat, t: nat) {
    exists i :: 0 <= i < |rows| && rows[i].runId == r && rows[i].taskId == t && Terminal(rows[i].status)
  }

  lemma FinishedEnded(rows: seq<TaskRun>, r: nat, t: nat)
    requires t in ProgressOf(rows, r).Finished()
    ensures Ended(rows, r, t)
  {
    var i :| 0 <= i < |rows| && rows[i].runId == r && rows[i].taskId == t && Terminal(rows[i].status);
  }

  /** Once the starting tasks are enqueued, a run that waits for nothing is over: every task has
      ended, the completion check says so, and the run has a verdict. */
  lemma NoRunIsStuck(c: Catalog, s: Sys, r: nat)
    requires SafelyReachable(c, s) && r < |s.db.dagRuns| && DutyOf(s, r) == Nothing
    requires RootsOf(c, s, r) <= TasksIn(s.db.taskRuns, r) && Quiet(s.db.taskRuns, r)
    ensures forall t :: t in GraphOf(c, s, r).tasks ==> Ended(s.db.taskRuns, r, t)
    ensures AllTasksDone(c, s.db, r) && s.db.dagRuns[r].status != RunRunning
  {
    QuietRunFinishes(c, s, r);
    forall t | t in GraphOf(c, s, r).tasks ensures Ended(s.db.taskRuns, r, t) {
      FinishedEnded(s.db.taskRuns, r, t);
    }
  }

  // ----- Dependency order -----

  /** A row that is not a suspended one exists only if everything above its task, at any distance, has
      succeeded in the run. */
  lemma DependencyOrder(c: Catalog, s: Sys, i: nat, d: nat)
    requires SafelyReachable(c, s) && i < |s.db.taskRuns| && s.db.taskRuns[i].status != Suspended
    requires s.db.taskRuns[i].runId < |s.db.dagRuns|
    requires Reaches(GraphOf(c, s, s.db.taskRuns[i].runId).needs, s.db.taskRuns[i].taskId, d)
    ensures d in TasksWith(s.db.taskRuns, s.db.taskRuns[i].runId, Success)
  {
    ReachableInv(c, s);
    var row := s.db.taskRuns[i];
    var v := ViewOf(c, s, row.runId);
    assert Fits(v);
    MemberIn(s.db.taskRuns, i);
    if row.taskId in v.p.suspended {
      SuspendedIsAlone(s.db.taskRuns, s.retired, i);
    }
    EnqueuedMeansSucceededAbove(v.g, v.p, row.taskId, d);
  }

  /** A suspended row is the only row of its task. */
  lemma SuspendedIsAlone(rows: seq<TaskRun>, retired: set<nat>, i: nat)
    requires RowsOk(rows, retired) && i < |rows| && rows[i].taskId in TasksWith(rows, rows[i].runId, Suspended)
    ensures rows[i].status == Suspended
  {
    var j :| 0 <= j < |rows| && rows[j].runId == rows[i].runId && rows[j].status == Suspended
        && rows[j].taskId == rows[i].taskId;
  }

  /** A task has at most one terminal row in a run, and it is its newest: every other row says running
      and was replaced by a retry. */
  lemma OneTerminalRow(c: Catalog, s: Sys, i: nat, j: nat)
    requires SafelyReachable(c, s) && i < |s.db.taskRuns| && j < |s.db.taskRuns| && i != j
    requires SameKey(s.db.taskRuns[i], s.db.taskRuns[j]) && Terminal(s.db.taskRuns[i].status)
    ensures j < i && s.db.taskRuns[j].status == Running && j in s.retired
  {
    ReachableInv(c, s);
    TerminalIsNewest(s.db.taskRuns, s.retired, i, j);
  }

  // ----- Counters and verdicts -----

  /** The counters count tasks, and the verdict is what the tasks say. */
  lemma CountersAreExact(c: Catalog, s: Sys, r: nat)
    requires SafelyReachable(c, s) && r < |s.db.dagRuns|
    ensures var run, rows := s.db.dagRuns[r], s.db.taskRuns;
            && run.successfulCount == |TasksWith(rows, r, Success)|
            && run.failedCount == |TasksWith(rows, r, Failed)|
            && run.suspendedCount == |TasksWith(rows, r, Suspended)|
            && (run.status == RunSuccess <==> TasksWith(rows, r, Success) == GraphOf(c, s, r).tasks)
            && (run.status == RunFailed <==> TasksWith(rows, r, Failed) != {})
  {
    ReachableInv(c, s);
    Verdict(ViewOf(c, s, r));
  }

  ghost predicate CountsGrow(s: Db, t: Db) {
    && |s.dagRuns| <= |t.dagRuns|
    && forall r :: 0 <= r < |s.dagRuns| ==>
         && t.dagRuns[r].dagId == s.dagRuns[r].dagId
         && s.dagRuns[r].successfulCount <= t.dagRuns[r].successfulCount
         && s.dagRuns[r].failedCount <= t.dagRuns[r].failedCount
  }

  lemma {:induction false} CountsOnlyGrow(c: Catalog, s: Sys, actions: seq<Action>, t: Sys)
    requires Runs(c, AnyId, s, actions, t)
    ensures CountsGrow(s.db, t.db)
    decreases |actions|
  {
    if actions != [] {
      var next := Next(c, s, actions[0]);
      assert CountsGrow(s.db, next.db);
      CountsOnlyGrow(c, next, actions[1..], t);
    }
  }

  /** A verdict is never taken back. */
  lemma VerdictIsFinal(c: Catalog, s: Sys, actions: seq<Action>, t: Sys, r: nat)
    requires SafelyReachable(c, s) && Runs(c, TellingId, s, actions, t) && r < |s.db.dagRuns|
             && s.db.dagRuns[r].status != RunRunning
    ensures r < |t.db.dagRuns| && t.db.dagRuns[r].status == s.db.dagRuns[r].status
  {
    ReachableOn(c, TellingId, s, actions, t);
    MoreIds(c, TellingId, AnyId, s, actions, t);
    CountsOnlyGrow(c, s, actions, t);
    ReachableInv(c, s);
    ReachableInv(c, t);
    VerdictKept(ViewOf(c, s, r), ViewOf(c, t, r));
  }

  // ----- The workspace -----

  /** The workspace is removed exactly once, by the handler that makes the last task terminal. */
  lemma CleanedExactlyOnce(c: Catalog, s: Sys, r: nat)
    requires SafelyReachable(c, s) && r < |s.db.dagRuns|
    ensures multiset(s.cleanups)[r] ==
            if ProgressOf(s.db.taskRuns, r).Finished() == GraphOf(c, s, r).tasks && !Busy(s, r) then 1 else 0
  {
    ReachableInv(c, s);
    CleanedIff(ViewOf(c, s, r));
  }

  /** No pod runs or will run in a run whose workspace is gone. */
  lemma CleanedMeansQuiet(c: Catalog, s: Sys, r: nat, i: nat)
    requires SafelyReachable(c, s) && r in s.cleanups
    requires i < |s.db.taskRuns| && s.db.taskRuns[i].runId == r
    ensures Terminal(s.db.taskRuns[i].status) || i in s.retired
  {
    ReachableInv(c, s);
    CleanedExactlyOnce(c, s, r);
    RowsOfTasks(c, s, i);
    FinishedMeansRetired(s.db.taskRuns, s.retired, i);
  }

  lemma RowsOfTasks(c: Catalog, s: Sys, i: nat)
    requires Inv(c, s) && i < |s.db.taskRuns|
    ensures s.db.taskRuns[i].runId < |s.db.dagRuns|
    ensures s.db.taskRuns[i].taskId in GraphOf(c, s, s.db.taskRuns[i].runId).tasks
  {
    assert Fits(ViewOf(c, s, s.db.taskRuns[i].runId));
    MemberIn(s.db.taskRuns, i);
  }

  lemma FinishedMeansRetired(rows: seq<TaskRun>, retired: set<nat>, i: nat)
    requires RowsOk(rows, retired) && i < |rows| && rows[i].taskId in ProgressOf(rows, rows[i].runId).Finished()
    ensures Terminal(rows[i].status) || i in retired
  {
    var j :| 0 <= j < |rows| && SameKey(rows[j], rows[i]) && Terminal(rows[j].status);
    if j != i {
      TerminalIsNewest(rows, retired, j, i);
    }
  }

  // ----- Suspension -----

  /** The stack search and the recursive query suspend the same tasks: every descendant of the failed
      task that has no row. */
  lemma BackendsSuspendTheSame(c: Catalog, s: Sys)
    requires SafelyReachable(c, s) && s.handler.Failing?
    ensures FailingIn(s, s.handler.run)
    ensures var r, rows := s.handler.run, TasksIn(s.db.taskRuns, s.handler.run);
            SuspendedBy(c, s.db, Sqlite, r, s.handler.id) == SuspendedBy(c, s.db, Postgres, r, s.handler.id)
              == Orphans(GraphOf(c, s, r), rows, FailedTask(s, r))
  {
    ReachableInv(c, s);
    BackendsAgree(c, s, s.handler.run);
  }
}
