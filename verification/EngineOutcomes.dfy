/** The event loop's other steps keep the invariant: enqueueing, failing, suspending, retrying and
    asking for completion. */
module EngineOutcomes {
  import opened Prelude
  import opened Graphs
  import opened Tables
  import opened RunProgress
  import opened Claims
  import opened Store
  import opened Engine
  import opened RowFacts
  import opened EngineSteps

  // ----- Enqueueing the next task -----

  /** A new pending row of a task with dependencies, or of a task with a row, is none of the
      controller's business. */
  lemma InsertKeepsStarts(c: Catalog, s: Sys, t: Sys, run: nat, task: nat)
    requires AllStartsOk(c, s) && run < |s.db.dagRuns|
    requires t.db == AddPending(s.db, run, task) && t.controller == s.controller && t.fromController == s.fromController
    requires task !in RootsOf(c, s, run) || task in TasksIn(s.db.taskRuns, run)
    ensures AllStartsOk(c, t)
  {
    forall r | 0 <= r < |s.db.dagRuns| ensures RowsGrow(c, s, t, r) {
      InsertProgress(s.db.taskRuns, run, task, r);
      assert TasksIn(t.db.taskRuns, r) == ProgressOf(t.db.taskRuns, r).rows;
      assert TasksIn(s.db.taskRuns, r) == ProgressOf(s.db.taskRuns, r).rows;
    }
    assert KeysKept(c, s, t);
    WorkerKeepsStarts(c, s, t);
  }

  lemma EnqueueViews(c: Catalog, s: Sys, r: nat, q: nat)
    requires s.handler.Enqueueing? && s.handler.run == r && s.handler.todo != []
    requires r < |s.db.dagRuns| && q < |s.db.dagRuns|
    ensures ViewOf(c, DoEnqueueOne(s), q) == if q == r then AfterEnqueue(ViewOf(c, s, r), s.handler.todo)
            else ViewOf(c, s, q)
  {
    InsertProgress(s.db.taskRuns, r, s.handler.todo[0], q);
  }

  lemma EnqueueKeepsRuns(c: Catalog, s: Sys, r: nat)
    requires AllRunsOk(c, s) && s.handler.Enqueueing? && s.handler.run == r && s.handler.todo != []
             && r < |s.db.dagRuns|
    ensures AllRunsOk(c, DoEnqueueOne(s))
    ensures s.handler.todo[0] !in TasksIn(s.db.taskRuns, r) && s.handler.todo[0] !in RootsOf(c, s, r)
  {
    var t := DoEnqueueOne(s);
    forall q | 0 <= q < |s.db.dagRuns| && q != r ensures ViewOf(c, t, q) == ViewOf(c, s, q) {
      EnqueueViews(c, s, r, q);
    }
    EnqueueFits(ViewOf(c, s, r), s.handler.todo);
    EnqueueViews(c, s, r, r);
    OtherViewsKeep(c, s, t, r);
  }

  lemma EnqueueKeeps(c: Catalog, s: Sys)
    requires WellFormed(c) && Inv(c, s) && s.handler.Enqueueing? && s.handler.todo != []
    ensures Inv(c, DoEnqueueOne(s))
  {
    var r, task := s.handler.run, s.handler.todo[0];
    EnqueueKeepsRuns(c, s, r);
    InsertFresh(s.db.taskRuns, s.retired, r, task, Pending);
    InsertKeepsStarts(c, s, DoEnqueueOne(s), r, task);
  }

  // ----- MarkTaskAsFailed -----

  lemma FailViews(c: Catalog, s: Sys, id: nat, r: nat, q: nat)
    requires Keyed(c, s.db) && LiveIn(s, id, r) && s.handler == Idle && q < |s.db.dagRuns|
    ensures ViewOf(c, DoFail(c, s, id), q) ==
            if q == r then AfterFail(ViewOf(c, s, r), s.db.taskRuns[id].taskId) else ViewOf(c, s, q)
  {
    FinishProgress(s.db.taskRuns, id, Failed, q);
  }

  lemma FailKeepsRuns(c: Catalog, s: Sys, id: nat, r: nat)
    requires RunInv(c, s, r) && AllRunsOk(c, s) && LiveIn(s, id, r) && s.handler == Idle
    ensures AllRunsOk(c, DoFail(c, s, id))
  {
    var t := DoFail(c, s, id);
    forall q | 0 <= q < |s.db.dagRuns| && q != r ensures ViewOf(c, t, q) == ViewOf(c, s, q) {
      FailViews(c, s, id, r, q);
    }
    LiveTask(c, s, id, r);
    FailFits(ViewOf(c, s, r), s.db.taskRuns[id].taskId);
    FailViews(c, s, id, r, r);
    OtherViewsKeep(c, s, t, r);
  }

  lemma FailKeepsStarts(c: Catalog, s: Sys, id: nat)
    requires AllStartsOk(c, s) && Live(s, id)
    ensures AllStartsOk(c, DoFail(c, s, id))
  {
    FinishKeepsStarts(c, s, DoFail(c, s, id), id, Failed);
  }

  lemma FailKeeps(c: Catalog, s: Sys, id: nat)
    requires WellFormed(c) && Inv(c, s) && s.handler == Idle && Live(s, id)
    ensures Inv(c, DoFail(c, s, id))
  {
    var r := s.db.taskRuns[id].runId;
    FailKeepsRuns(c, s, id, r);
    FinishKeepsRows(s.db.taskRuns, s.retired, id, Failed);
    FailKeepsStarts(c, s, id);
  }

  // ----- MarkConnectingTasksAsSuspended -----

  ghost predicate FailingIn(s: Sys, r: nat) {
    s.handler.Failing? && s.handler.run == r && r < |s.db.dagRuns| && s.handler.id < |s.db.taskRuns|
  }

  ghost function FailedTask(s: Sys, r: nat): nat
    requires FailingIn(s, r)
  {
    s.db.taskRuns[s.handler.id].taskId
  }

  lemma OneAnswer(c: Catalog, db: Db, r: nat, id: nat)
    requires r < |db.dagRuns| && id < |db.taskRuns|
    requires var g, rows, failed := DagOf(c, db.dagRuns[r].dagId), TasksIn(db.taskRuns, r), db.taskRuns[id].taskId;
             RowlessOrphans(g, rows, failed) == Orphans(g, rows, failed)
    ensures SuspendedBy(c, db, Sqlite, r, id) == SuspendedBy(c, db, Postgres, r, id)
              == Orphans(DagOf(c, db.dagRuns[r].dagId), TasksIn(db.taskRuns, r), db.taskRuns[id].taskId)
  {
  }

  /** Under the invariant of the run both backends find the same tasks: all descendants without a row. */
  lemma BackendsAgree(c: Catalog, s: Sys, r: nat)
    requires FailingIn(s, r) && Fits(ViewOf(c, s, r))
    ensures SuspendedBy(c, s.db, Sqlite, r, s.handler.id) == SuspendedBy(c, s.db, Postgres, r, s.handler.id)
              == Orphans(GraphOf(c, s, r), TasksIn(s.db.taskRuns, r), FailedTask(s, r))
  {
    SearchesAgreeIn(ViewOf(c, s, r), FailedTask(s, r));
    OneAnswer(c, s.db, r, s.handler.id);
  }

  /** Whatever the rows are, the two agree exactly if nothing is hidden behind a row. */
  lemma BackendsAgreeIff(c: Catalog, s: Sys, r: nat)
    requires WellFormed(c) && Keyed(c, s.db) && FailingIn(s, r)
    ensures SuspendedBy(c, s.db, Sqlite, r, s.handler.id) <= SuspendedBy(c, s.db, Postgres, r, s.handler.id)
    ensures SuspendedBy(c, s.db, Sqlite, r, s.handler.id) == SuspendedBy(c, s.db, Postgres, r, s.handler.id) <==>
            NothingHidden(GraphOf(c, s, r), TasksIn(s.db.taskRuns, r), FailedTask(s, r))
  {
    assert WellFormedDag(c, s.db.dagRuns[r].dagId);
    SearchesAgreeIff(GraphOf(c, s, r), TasksIn(s.db.taskRuns, r), FailedTask(s, r));
  }

  lemma OrphansAreNoRoots(g: Dag, rows: set<nat>, failed: nat)
    ensures Orphans(g, rows, failed) !! Roots(g)
  {
    forall t | t in Orphans(g, rows, failed) ensures t !in Roots(g) {
      var d := ReachesFirstStep(g.needs, t, failed);
      assert (t, d) in g.needs;
      assert d in DepsOf(g, t);
    }
  }

  lemma SuspendViews(c: Catalog, s: Sys, found: seq<nat>, r: nat, q: nat)
    requires FailingIn(s, r) && q < |s.db.dagRuns|
    ensures ViewOf(c, DoSuspend(s, found), q) == if q == r then AfterSuspend(ViewOf(c, s, r), found)
            else ViewOf(c, s, q)
  {
    AppendSuspended(s.db.taskRuns, r, found, q);
  }

  lemma SuspendKeepsRuns(c: Catalog, s: Sys, found: seq<nat>, r: nat)
    requires RunInv(c, s, r) && AllRunsOk(c, s) && FailingIn(s, r) && Distinct(found)
    requires Elements(found) == Orphans(GraphOf(c, s, r), TasksIn(s.db.taskRuns, r), FailedTask(s, r))
    ensures AllRunsOk(c, DoSuspend(s, found))
  {
    var t := DoSuspend(s, found);
    forall q | 0 <= q < |s.db.dagRuns| && q != r ensures ViewOf(c, t, q) == ViewOf(c, s, q) {
      SuspendViews(c, s, found, r, q);
    }
    assert WellFormedDag(c, s.db.dagRuns[r].dagId);
    SuspendFits(ViewOf(c, s, r), FailedTask(s, r), found);
    SuspendViews(c, s, found, r, r);
    OtherViewsKeep(c, s, t, r);
  }

  lemma SuspendKeepsStarts(c: Catalog, s: Sys, found: seq<nat>, r: nat)
    requires AllStartsOk(c, s) && FailingIn(s, r) && Elements(found) !! RootsOf(c, s, r)
    ensures AllStartsOk(c, DoSuspend(s, found))
  {
    var t := DoSuspend(s, found);
    forall i | 0 <= i < |t.db.taskRuns|
      ensures t.db.taskRuns[i].runId < |s.db.dagRuns|
      ensures i < |s.db.taskRuns| ==> t.db.taskRuns[i] == s.db.taskRuns[i]
    {
      if i >= |s.db.taskRuns| {
        assert t.db.taskRuns[i] == SuspendedRows(r, found)[i - |s.db.taskRuns|];
      }
    }
    forall q | 0 <= q < |s.db.dagRuns| ensures RowsGrow(c, s, t, q) {
      AppendSuspended(s.db.taskRuns, r, found, q);
      assert TasksIn(t.db.taskRuns, q) == ProgressOf(t.db.taskRuns, q).rows;
      assert TasksIn(s.db.taskRuns, q) == ProgressOf(s.db.taskRuns, q).rows;
    }
    assert KeysKept(c, s, t);
    WorkerKeepsStarts(c, s, t);
  }

  lemma SuspendKeeps(c: Catalog, s: Sys, found: seq<nat>)
    requires WellFormed(c) && Inv(c, s) && s.handler.Failing? && Distinct(found)
    requires Elements(found) == Orphans(GraphOf(c, s, s.handler.run), TasksIn(s.db.taskRuns, s.handler.run),
             FailedTask(s, s.handler.run))
    ensures Inv(c, DoSuspend(s, found))
  {
    var r := s.handler.run;
    SuspendKeepsRuns(c, s, found, r);
    assert forall t :: t in found ==> t in Elements(found);
    InsertManyFresh(s.db.taskRuns, s.retired, r, found);
    OrphansAreNoRoots(GraphOf(c, s, r), TasksIn(s.db.taskRuns, r), FailedTask(s, r));
    SuspendKeepsStarts(c, s, found, r);
  }

  // ----- retryFailedTask -----

  lemma RetryViews(c: Catalog, s: Sys, id: nat, q: nat)
    requires Live(s, id) && s.handler == Idle && q < |s.db.dagRuns|
    ensures ViewOf(c, DoRetry(s, id), q) == ViewOf(c, s, q)
  {
    var row := s.db.taskRuns[id];
    InsertProgress(s.db.taskRuns, row.runId, row.taskId, q);
    if q == row.runId {
      assert ProgressOf(s.db.taskRuns, q).rows + {row.taskId} == ProgressOf(s.db.taskRuns, q).rows;
    }
  }

  /** A retry adds exactly one pending row, of the same run and task, and the old row's pod is gone. */
  lemma RetryReplaces(c: Catalog, s: Sys, id: nat)
    requires Keyed(c, s.db) && Enabled(c, s, Retry(id))
    ensures var row, t := s.db.taskRuns[id], Next(c, s, Retry(id));
            && t.db == Db(s.db.taskRuns + [TaskRun(row.runId, row.taskId, Pending, None)], s.db.dagRuns)
            && Live(s, id) && !Live(t, id) && t.handler == Retrying(|s.db.taskRuns|)
            && forall i :: i != id ==> (Live(t, i) <==> Live(s, i))
  {
  }

  lemma RetryKeeps(c: Catalog, s: Sys, id: nat)
    requires WellFormed(c) && Inv(c, s) && s.handler == Idle && Live(s, id)
    ensures Inv(c, DoRetry(s, id))
    ensures DoRetry(s, id).db.taskRuns ==
            s.db.taskRuns + [TaskRun(s.db.taskRuns[id].runId, s.db.taskRuns[id].taskId, Pending, None)]
    ensures !Live(DoRetry(s, id), id)
  {
    var r := s.db.taskRuns[id].runId;
    forall q | 0 <= q < |s.db.dagRuns| ensures ViewOf(c, DoRetry(s, id), q) == ViewOf(c, s, q) {
      RetryViews(c, s, id, q);
    }
    SameViewsKeep(c, s, DoRetry(s, id));
    InsertRetry(s.db.taskRuns, s.retired, id);
    LiveTask(c, s, id, r);
    InsertKeepsStarts(c, s, DoRetry(s, id), r, s.db.taskRuns[id].taskId);
  }

  // ----- CheckIfAllTasksDone and the workspace -----

  lemma CheckViews(c: Catalog, s: Sys, q: nat)
    requires s.handler.Completing? && s.handler.run < |s.db.dagRuns| && q < |s.db.dagRuns|
    ensures ViewOf(c, DoCheckDone(c, s), q) ==
            if q == s.handler.run then AfterCheck(ViewOf(c, s, s.handler.run)) else ViewOf(c, s, q)
  {
  }

  lemma CheckKeepsRuns(c: Catalog, s: Sys)
    requires AllRunsOk(c, s) && s.handler.Completing? && s.handler.run < |s.db.dagRuns|
    ensures AllRunsOk(c, DoCheckDone(c, s))
  {
    var t, r := DoCheckDone(c, s), s.handler.run;
    forall q | 0 <= q < |s.db.dagRuns| && q != r ensures ViewOf(c, t, q) == ViewOf(c, s, q) {
      CheckViews(c, s, q);
    }
    CheckFits(ViewOf(c, s, r));
    CheckViews(c, s, r);
    OtherViewsKeep(c, s, t, r);
  }

  lemma CheckKeeps(c: Catalog, s: Sys)
    requires WellFormed(c) && Inv(c, s) && s.handler.Completing?
    ensures Inv(c, DoCheckDone(c, s))
  {
    CheckKeepsRuns(c, s);
    SameTablesKeepStarts(c, s, DoCheckDone(c, s));
  }
}
