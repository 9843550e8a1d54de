/** The worker's event handlers and claim poller, and Reconcile, as sequences of database calls.
    Each is proved to end where the engine's steps for it end. */
module Workers {
  import opened Prelude
  import opened Graphs
  import opened Tables
  import opened RunProgress
  import opened RunnableTasks
  import opened Claims
  import opened Store
  import opened Engine
  import opened EngineHandlers
  import opened Managers

  /** What ends a handler before it has written anything: the pod cannot be deleted, though it is there,
      or the database does not answer. */
  datatype Mishap = NoMishap | PodGone | PodNotDeleted | DatabaseDown

  /** The tasks whose inserts do not fail. */
  function Kept(tasks: seq<nat>, fails: set<nat>): seq<nat> {
    if tasks == [] then [] else
    var last := |tasks| - 1;
    Kept(tasks[..last], fails) + if last in fails then [] else [tasks[last]]
  }

  lemma {:induction false} KeptAll(tasks: seq<nat>)
    ensures Kept(tasks, {}) == tasks
  {
    if tasks != [] {
      KeptAll(tasks[..|tasks| - 1]);
    }
  }

  /** The first n positions without those in fails. */
  function Going(n: nat, fails: set<nat>): set<nat> {
    set k: nat | k < n && k !in fails
  }

  /** Kept is what it says, in order: the task at a position that does not fail comes after the kept ones
      of the positions before. */
  lemma {:induction false} KeptIs(tasks: seq<nat>, fails: set<nat>)
    ensures |Kept(tasks, fails)| == |Going(|tasks|, fails)|
    ensures forall i: nat :: i < |tasks| && i !in fails ==>
              |Going(i, fails)| < |Kept(tasks, fails)| && Kept(tasks, fails)[|Going(i, fails)|] == tasks[i]
  {
    if tasks == [] {
      assert Going(0, fails) == {};
    } else {
      var last: nat := |tasks| - 1;
      KeptIs(tasks[..last], fails);
      if last in fails {
        assert Going(last + 1, fails) == Going(last, fails);
      } else {
        assert Going(last + 1, fails) == Going(last, fails) + {last};
      }
      forall i: nat | i < last && i !in fails
        ensures |Going(i, fails)| < |Kept(tasks, fails)| && Kept(tasks, fails)[|Going(i, fails)|] == tasks[i]
      {
        assert tasks[..last][i] == tasks[i];
      }
    }
  }

  lemma NextIdsKnown(c: Catalog, db: Db, id: nat, k: nat)
    requires Keyed(c, db) && id < |db.taskRuns|
    ensures forall t :: t in NextIds(c, db, id, k) ==> t < |c.tasks|
  {
  }

  lemma NothingToSuspend(db: Db, run: nat)
    requires run < |db.dagRuns|
    ensures Suspend(db, run, []) == db
  {
    assert db.taskRuns + SuspendedRows(run, []) == db.taskRuns;
  }

  const CLAIM_BATCH_SIZE: nat := 5
  const MAX_CONCURRENT_CLAIMS: nat := 50

  ghost predicate HasRow(rows: seq<TaskRun>, run: nat, t: nat) {
    exists i :: 0 <= i < |rows| && rows[i].runId == run && rows[i].taskId == t
  }

  lemma ListedHaveRows(rows: seq<TaskRun>, run: nat, tasks: seq<nat>)
    requires Elements(tasks) <= TasksIn(rows, run)
    ensures forall t :: t in tasks ==> HasRow(rows, run, t)
  {
    forall t | t in tasks ensures HasRow(rows, run, t) {
      assert t in Elements(tasks);
    }
  }

  class Worker {
    const id: string
    const manager: DAGManager
    const leaseTTL: nat
    /** Runs whose PVC was deleted, in order. */
    var cleanups: seq<nat>
    var inFlight: nat

    constructor (id: string, manager: DAGManager, leaseTTL: nat)
      ensures this.id == id && this.manager == manager && this.leaseTTL == leaseTTL
      ensures cleanups == [] && inFlight == 0
    {
      this.id, this.manager, this.leaseTTL := id, manager, leaseTTL;
      cleanups, inFlight := [], 0;
    }

    /** The engine state s is what the database holds and what was cleaned up. */
    ghost predicate Shows(s: Sys)
      reads this, manager
    {
      manager.Valid() && s.db == manager.Contents() && s.cleanups == cleanups
    }

    /** checkIfDagRunIsComplete, then deletePVC. */
    method HandleDagRunCompletion(dagRunId: nat)
      requires manager.Valid() && dagRunId < |manager.dagRuns|
      modifies this`cleanups
      ensures cleanups == if AllTasksDone(manager.catalog, manager.Contents(), dagRunId)
              then old(cleanups) + [dagRunId] else old(cleanups)
      ensures var run := manager.dagRuns[dagRunId];
              cleanups ==
                if |set t | 0 <= t < |manager.catalog.tasks| && manager.catalog.tasks[t].dagId == run.dagId| ==
                   run.successfulCount + run.failedCount + run.suspendedCount
                then old(cleanups) + [dagRunId] else old(cleanups)
    {
      var complete := manager.CheckIfAllTasksDone(dagRunId);
      if complete == Some(true) {
        cleanups := cleanups + [dagRunId];
      }
    }

    /** An insert that fails, at the positions in fails, is logged and its task skipped. */
    method AllocateNextTasks(dagRunId: nat, tasks: seq<nat>, fails: set<nat>)
      requires manager.Valid() && dagRunId < |manager.dagRuns| && forall t :: t in tasks ==> t < |manager.catalog.tasks|
      modifies manager`taskRuns
      ensures manager.Valid() && manager.Contents() == EnqueueAll(old(manager.Contents()), dagRunId, Kept(tasks, fails))
      ensures manager.taskRuns == old(manager.taskRuns) + seq(|Kept(tasks, fails)|,
                i requires 0 <= i < |Kept(tasks, fails)| => TaskRun(dagRunId, Kept(tasks, fails)[i], Pending, None))
      ensures fails == {} ==>
                manager.taskRuns == old(manager.taskRuns) +
                seq(|tasks|, i requires 0 <= i < |tasks| => TaskRun(dagRunId, tasks[i], Pending, None))
    {
      assert EnqueueAll(manager.Contents(), dagRunId, []).taskRuns == manager.taskRuns;
      for i := 0 to |tasks|
        invariant manager.Valid() && manager.Contents() ==
                  EnqueueAll(old(manager.Contents()), dagRunId, Kept(tasks[..i], fails))
      {
        assert tasks[..i + 1][..i] == tasks[..i] && tasks[i] in tasks;
        if i !in fails {
          var taskRunId := manager.AddPendingTaskRun(dagRunId, tasks[i]);
          assert manager.taskRuns == EnqueueAll(old(manager.Contents()), dagRunId,
                 Kept(tasks[..i + 1], fails)).taskRuns;
        }
      }
      assert tasks[..|tasks|] == tasks;
      KeptAll(tasks);
    }

    method HandleSuccessfulTaskRun(ghost s: Sys, taskRunId: nat, dagRunId: nat, mishap: Mishap, fails: set<nat>)
      returns (ghost next: seq<nat>)
      requires Shows(s) && s.handler == Idle && Live(s, taskRunId) && s.db.taskRuns[taskRunId].runId == dagRunId
      modifies manager`taskRuns, manager`dagRuns, this`cleanups
      ensures mishap != NoMishap ==> Shows(s)
      ensures mishap == NoMishap ==>
                && Distinct(next) && Elements(next) == NextIds(manager.catalog, s.db, taskRunId, taskRunId)
                && (if next == [] then Shows(SuccessHandled(manager.catalog, s, taskRunId, next))
                    else cleanups == s.cleanups && manager.Contents() ==
                         EnqueueAll(MarkSuccess(manager.catalog, s.db, taskRunId), dagRunId, Kept(next, fails)))
      ensures mishap == NoMishap && fails == {} ==> Shows(SuccessHandled(manager.catalog, s, taskRunId, next))
      ensures mishap == NoMishap && fails == {} ==>
                manager.taskRuns ==
                old(manager.taskRuns)[taskRunId := old(manager.taskRuns)[taskRunId].(status := Success)] +
                seq(|next|, i requires 0 <= i < |next| => TaskRun(dagRunId, next[i], Pending, None))
    {
      next := [];
      if mishap != NoMishap {
        return;
      }
      var tasks := manager.MarkSuccessAndGetNextTasks(taskRunId);
      next := tasks.value;
      if |tasks.value| == 0 {
        HandleDagRunCompletion(dagRunId);
      } else {
        NextIdsKnown(manager.catalog, s.db, taskRunId, taskRunId);
        forall t | t in tasks.value ensures t < |manager.catalog.tasks| {
          assert t in Elements(tasks.value) && t in NextIds(manager.catalog, s.db, taskRunId, taskRunId);
        }
        KeptAll(tasks.value);
        AllocateNextTasks(dagRunId, tasks.value, fails);
      }
    }

    /** A second row for the task, claimed at once; the old one is left as it is. */
    method RetryFailedTask(dagRunId: nat, taskId: nat, now: int)
      requires manager.Valid() && dagRunId < |manager.dagRuns| && taskId < |manager.catalog.tasks|
      modifies manager`taskRuns
      ensures manager.Valid()
      ensures manager.taskRuns == old(manager.taskRuns) +
                [TaskRun(dagRunId, taskId, Pending, Some(Claim(id, LeaseEnd(manager.backend, now, leaseTTL))))]
      ensures IsLeased(TaskRun(dagRunId, taskId, Pending, None), manager.taskRuns[|old(manager.taskRuns)|],
                       id, manager.backend, now, leaseTTL)
    {
      var newTaskRunId := manager.AddPendingTaskRun(dagRunId, taskId);
      var claimed := manager.ClaimTaskByID(newTaskRunId.value, id, now, leaseTTL);
    }

    /** The task fails, what depends on it is suspended, and the run may be over. */
    method HandleUnretryablePod(dagRunId: nat, taskRunId: nat) returns (ghost found: seq<nat>)
      requires manager.Valid() && taskRunId < |manager.taskRuns| && manager.taskRuns[taskRunId].runId == dagRunId
      requires manager.taskRuns[taskRunId].taskId in TasksOf(manager.catalog, manager.dagRuns[dagRunId].dagId)
      modifies manager`taskRuns, manager`dagRuns, this`cleanups
      ensures manager.Valid() && Distinct(found)
      ensures Elements(found) ==
              SuspendedBy(manager.catalog, MarkFailed(manager.catalog, old(manager.Contents()), taskRunId),
                          manager.backend, dagRunId, taskRunId)
      ensures manager.taskRuns ==
              old(manager.taskRuns)[taskRunId := old(manager.taskRuns)[taskRunId].(status := Failed)] +
              seq(|found|, i requires 0 <= i < |found| => TaskRun(dagRunId, found[i], Suspended, None))
      ensures var run := old(manager.dagRuns)[dagRunId];
              manager.dagRuns == old(manager.dagRuns)[dagRunId := run.(
                failedCount := run.failedCount + 1, status := RunFailed,
                suspendedCount := run.suspendedCount + |found|)]
      ensures cleanups == if AllTasksDone(manager.catalog, manager.Contents(), dagRunId)
                          then old(cleanups) + [dagRunId] else old(cleanups)
    {
      manager.MarkTaskAsFailed(taskRunId);
      var names;
      manager.FoundInOwnVersion(dagRunId, taskRunId);
      NothingToSuspend(manager.Contents(), dagRunId);
      names, found := manager.MarkConnectingTasksAsSuspended(dagRunId, taskRunId);
      HandleDagRunCompletion(dagRunId);
    }

    /** shouldRerun is ShouldRerun's answer; taskId is read off the pod. A pod that is gone already is no
        obstacle. */
    method HandleFailedTaskRun(ghost s: Sys, taskRunId: nat, dagRunId: nat, taskId: nat, shouldRerun: bool,
          mishap: Mishap, now: int)
      returns (ghost found: seq<nat>)
      requires Shows(s) && s.handler == Idle && Live(s, taskRunId)
      requires s.db.taskRuns[taskRunId].runId == dagRunId && s.db.taskRuns[taskRunId].taskId == taskId
      requires taskId in TasksOf(manager.catalog, s.db.dagRuns[dagRunId].dagId)
      modifies manager`taskRuns, manager`dagRuns, this`cleanups
      ensures mishap == PodNotDeleted || mishap == DatabaseDown ==> Shows(s)
      ensures mishap != PodNotDeleted && mishap != DatabaseDown && shouldRerun ==>
                && Shows(RetryHandled(s, taskRunId, id, now, LeaseEnd(manager.backend, now, leaseTTL)))
                && |manager.taskRuns| == |s.db.taskRuns| + 1
                && manager.taskRuns[..|s.db.taskRuns|] == s.db.taskRuns
                && IsLeased(TaskRun(dagRunId, taskId, Pending, None), manager.taskRuns[|s.db.taskRuns|],
                            id, manager.backend, now, leaseTTL)
                && manager.dagRuns == s.db.dagRuns && cleanups == s.cleanups
      ensures mishap != PodNotDeleted && mishap != DatabaseDown && !shouldRerun ==>
                && Distinct(found)
                && Elements(found) == SuspendedBy(manager.catalog, MarkFailed(manager.catalog, s.db, taskRunId),
                    manager.backend, dagRunId, taskRunId)
                && Shows(FailureHandled(manager.catalog, s, taskRunId, found))
    {
      found := [];
      if mishap == PodNotDeleted || mishap == DatabaseDown {
        return;
      }
      if shouldRerun {
        RetryHandledIs(s, taskRunId, id, now, LeaseEnd(manager.backend, now, leaseTTL));
        RetryFailedTask(dagRunId, taskId, now);
      } else {
        found := HandleUnretryablePod(dagRunId, taskRunId);
        FailureHandledIs(manager.catalog, s, taskRunId, found);
      }
    }

    /** One tick of claimPoller: up to five claims, never more than 50 in flight, and fewer than that only
        if there is nothing more to claim. */
    method PollClaims(now: int, passedOver: set<nat>) returns (claims: seq<nat>)
      requires manager.Valid() && inFlight <= 50
      modifies manager`taskRuns, this`inFlight
      ensures manager.Valid() && inFlight == old(inFlight) + |claims| <= 50
      ensures |claims| <= 5 && Distinct(claims)
      ensures forall i :: i in claims ==>
                && i < |old(manager.taskRuns)| && i !in passedOver
                && Claimable(manager.backend, old(manager.taskRuns)[i], now)
      ensures |claims| < 5 && |claims| < 50 - old(inFlight) ==>
                forall i: nat :: i < |old(manager.taskRuns)| ==>
                  i in passedOver || !Claimable(manager.backend, old(manager.taskRuns)[i], now) || i in claims
      ensures |claims| < 5 && |claims| < 50 - old(inFlight) ==>
                forall i: nat :: i < |old(manager.taskRuns)| && i !in passedOver
                                 && old(manager.taskRuns)[i].status == Pending
                                 && old(manager.taskRuns)[i].claim.None? ==>
                  i in claims
      ensures manager.taskRuns == ClaimRows(old(manager.taskRuns), Elements(claims), id,
                                            LeaseEnd(manager.backend, now, leaseTTL))
      ensures |manager.taskRuns| == |old(manager.taskRuns)|
      ensures forall i :: 0 <= i < |manager.taskRuns| ==>
                if i in claims
                then IsLeased(old(manager.taskRuns)[i], manager.taskRuns[i], id, manager.backend, now, leaseTTL)
                else manager.taskRuns[i] == old(manager.taskRuns)[i]
    {
      var allowed := MAX_CONCURRENT_CLAIMS - inFlight;
      if allowed <= 0 {
        assert Elements<nat>([]) == {};
        return [];
      }
      var limit := CLAIM_BATCH_SIZE;
      if limit > allowed {
        limit := allowed;
      }
      claims := manager.ClaimTasks(limit, id, now, leaseTTL, passedOver);
      inFlight := inFlight + |claims|;
    }

    /** processClaim for one of these claims has returned. */
    method ClaimProcessed()
      requires 0 < inFlight <= 50
      modifies this`inFlight
      ensures inFlight == old(inFlight) - 1
    {
      inFlight := inFlight - 1;
    }
  }

  class DagRunReconciler {
    const manager: DAGManager

    constructor (manager: DAGManager)
      ensures this.manager == manager
    {
      this.manager := manager;
    }

    /** The loop over the listed tasks: a pending row for each that has none. */
    method StartTasks(runId: nat, tasks: seq<nat>)
      requires manager.Valid() && runId < |manager.dagRuns| && forall t :: t in tasks ==> t < |manager.catalog.tasks|
      modifies manager`taskRuns
      ensures manager.Valid() && manager.Contents() == StartMissing(old(manager.Contents()), runId, tasks)
    {
      for i := 0 to |tasks|
        invariant manager.Valid()
        invariant StartMissing(manager.Contents(), runId, tasks[i..]) ==
                  StartMissing(old(manager.Contents()), runId, tasks)
      {
        assert tasks[i..][0] == tasks[i] && tasks[i..][1..] == tasks[i + 1..];
        var found := manager.TaskRunExists(runId, tasks[i]);
        if !found {
          assert tasks[i] in tasks;
          var taskRunId := manager.AddPendingTaskRun(runId, tasks[i]);
        }
      }
      assert tasks[|tasks|..] == [];
    }

    /** A complete attempt: the run exists, once, and each starting task of its version has a row. */
    method Reconcile(name: string, dagName: string)
      returns (runId: Option<nat>, ghost created: Db, ghost listed: seq<nat>)
      requires manager.Valid()
      modifies manager`taskRuns, manager`dagRuns
      ensures manager.Valid()
      ensures runId.None? <==> forall i :: 0 <= i < |manager.catalog.dags| ==> manager.catalog.dags[i].name != dagName
      ensures runId.None? ==> manager.Contents() == old(manager.Contents())
      ensures runId.Some? ==>
                && (if FindRun(old(manager.dagRuns), name).Some? then created == old(manager.Contents())
                    else exists d ::
                      IsLatest(manager.catalog.dags, dagName, d) && created == AddRun(old(manager.Contents()), name, d))
                && FindRun(created.dagRuns, name) == runId
                && manager.Contents() == StartMissing(created, runId.value, listed)
                && Distinct(listed)
                && (Elements(listed) == if IsLatest(manager.catalog.dags, dagName, created.dagRuns[runId.value].dagId)
                                        then Roots(DagOf(manager.catalog, created.dagRuns[runId.value].dagId)) else {})
      ensures runId.Some? ==>
                && |manager.taskRuns| >= |old(manager.taskRuns)|
                && manager.taskRuns[..|old(manager.taskRuns)|] == old(manager.taskRuns)
                && (forall i :: |old(manager.taskRuns)| <= i < |manager.taskRuns| ==>
                      && manager.taskRuns[i] == TaskRun(runId.value, manager.taskRuns[i].taskId, Pending, None)
                      && manager.taskRuns[i].taskId in listed)
                && forall t :: t in listed ==> HasRow(manager.taskRuns, runId.value, t)
    {
      created, listed := manager.Contents(), [];
      runId := manager.CreateDAGRun(name, dagName);
      if runId.None? {
        return;
      }
      created := manager.Contents();
      var tasks := manager.GetStartingTasks(dagName, runId.value);
      listed := tasks;
      StartTasks(runId.value, tasks);
      StartMissingRows(created, runId.value, tasks);
      StartMissingStarts(created, runId.value, tasks, runId.value);
      ListedHaveRows(manager.taskRuns, runId.value, tasks);
    }
  }
}
