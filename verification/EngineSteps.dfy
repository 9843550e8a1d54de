/** Every step of the run engine keeps the invariant, whichever run it belongs to. */
module EngineSteps {
  import opened Prelude
  import opened Graphs
  import opened Tables
  import opened RunProgress
  import opened RunnableTasks
  import opened Claims
  import opened Store
  import opened Engine
  import opened RowFacts

  /** The keys of the old rows are kept, and new rows are of tasks with dependencies, or of tasks
      that have a row already. */
  ghost predicate KeysKept(c: Catalog, s: Sys, t: Sys) {
    && SameKeys(s.db.taskRuns, t.db.taskRuns) && |s.db.dagRuns| <= |t.db.dagRuns|
    && (forall r :: 0 <= r < |s.db.dagRuns| ==>
          t.db.dagRuns[r].dagId == s.db.dagRuns[r].dagId && t.db.dagRuns[r].name == s.db.dagRuns[r].name)
    && (forall r :: 0 <= r < |s.db.dagRuns| ==> RowsGrow(c, s, t, r))
  }

  ghost predicate RowsGrow(c: Catalog, s: Sys, t: Sys, r: nat)
    requires r < |s.db.dagRuns|
  {
    && TasksIn(s.db.taskRuns, r) <= TasksIn(t.db.taskRuns, r)
    && forall x :: x in TasksIn(t.db.taskRuns, r) && x in RootsOf(c, s, r) ==> x in TasksIn(s.db.taskRuns, r)
  }

  /** A step of a worker leaves the controller's facts alone. */
  lemma WorkerKeepsStarts(c: Catalog, s: Sys, t: Sys)
    requires StartsOk(c, s) && ControllerOk(c, s) && Keyed(c, s.db)
    requires KeysKept(c, s, t) && |t.db.dagRuns| == |s.db.dagRuns|
    requires t.controller == s.controller && t.fromController == s.fromController
    ensures StartsOk(c, t) && ControllerOk(c, t)
  {
    forall i | i in t.fromController ensures FirstOfRoot(c, t, i) {
      assert FirstOfRoot(c, s, i);
    }
    forall r, x | 0 <= r < |t.db.dagRuns| && x in TasksIn(t.db.taskRuns, r) && x in RootsOf(c, t, r)
      ensures ControllerRow(t, r, x)
    {
      assert RowsGrow(c, s, t, r);
      assert ControllerRow(s, r, x);
      var i :| i in s.fromController && i < |s.db.taskRuns| && s.db.taskRuns[i].runId == r
          && s.db.taskRuns[i].taskId == x;
      assert SameKey(s.db.taskRuns[i], t.db.taskRuns[i]);
    }
    if s.controller.Listing? || s.controller.Inserting? {
      assert RowsGrow(c, s, t, s.controller.run);
    }
  }

  // ----- Claims, renewals, recovery, finalisation -----

  lemma SameViewsKeep(c: Catalog, s: Sys, t: Sys)
    requires AllRunsOk(c, s) && |t.db.dagRuns| == |s.db.dagRuns|
    requires forall q :: 0 <= q < |s.db.dagRuns| ==> ViewOf(c, t, q) == ViewOf(c, s, q)
    ensures AllRunsOk(c, t)
  {
    forall q | 0 <= q < |s.db.dagRuns| ensures Fits(ViewOf(c, t, q)) {
      assert Fits(ViewOf(c, s, q));
    }
  }

  /** A step on run r leaves the other runs alone. */
  lemma OtherViewsKeep(c: Catalog, s: Sys, t: Sys, r: nat)
    requires AllRunsOk(c, s) && |t.db.dagRuns| == |s.db.dagRuns| && r < |t.db.dagRuns| && Fits(ViewOf(c, t, r))
    requires forall q :: 0 <= q < |s.db.dagRuns| && q != r ==> ViewOf(c, t, q) == ViewOf(c, s, q)
    ensures AllRunsOk(c, t)
  {
    forall q | 0 <= q < |s.db.dagRuns| ensures Fits(ViewOf(c, t, q)) {
      assert Fits(ViewOf(c, s, q));
    }
  }

  lemma StutterViews(c: Catalog, s: Sys, t: Sys, q: nat)
    requires Stutters(s.db.taskRuns, t.db.taskRuns) && t == WithRows(s, t.db.taskRuns) && q < |s.db.dagRuns|
    requires HandlerOk(s)
    ensures ViewOf(c, t, q) == ViewOf(c, s, q)
  {
    StutterKeepsProgress(s.db.taskRuns, t.db.taskRuns, q);
    if s.handler.Failing? {
      assert RowStutters(s.db.taskRuns[s.handler.id], t.db.taskRuns[s.handler.id]);
    }
  }

  lemma StutterKeepsStarts(c: Catalog, s: Sys, t: Sys)
    requires AllStartsOk(c, s) && Stutters(s.db.taskRuns, t.db.taskRuns) && t == WithRows(s, t.db.taskRuns)
    ensures AllStartsOk(c, t)
  {
    var rows, after := s.db.taskRuns, t.db.taskRuns;
    forall i | 0 <= i < |rows| ensures SameKey(rows[i], after[i]) {
      assert RowStutters(rows[i], after[i]);
    }
    forall r | 0 <= r < |s.db.dagRuns| ensures RowsGrow(c, s, t, r) {
      StutterKeepsProgress(rows, after, r);
      assert ProgressOf(after, r).rows == ProgressOf(rows, r).rows;
    }
    WorkerKeepsStarts(c, s, t);
  }

  lemma StutterKeeps(c: Catalog, s: Sys, t: Sys)
    requires Inv(c, s) && Stutters(s.db.taskRuns, t.db.taskRuns)
    requires t == WithRows(s, t.db.taskRuns)
    ensures Inv(c, t)
  {
    StutterKeepsRows(s.db.taskRuns, t.db.taskRuns, s.retired);
    forall q | 0 <= q < |s.db.dagRuns| ensures ViewOf(c, t, q) == ViewOf(c, s, q) {
      StutterViews(c, s, t, q);
    }
    SameViewsKeep(c, s, t);
    StutterKeepsStarts(c, s, t);
  }

  lemma IdleViews(c: Catalog, s: Sys, t: Sys)
    requires s.handler.Retrying? && t == s.(handler := Idle)
    ensures forall q :: 0 <= q < |s.db.dagRuns| ==> ViewOf(c, t, q) == ViewOf(c, s, q)
  {
  }

  lemma SameTablesKeepStarts(c: Catalog, s: Sys, t: Sys)
    requires AllStartsOk(c, s) && t.db == s.db && t.controller == s.controller && t.fromController == s.fromController
    ensures AllStartsOk(c, t)
  {
    forall q | 0 <= q < |s.db.dagRuns| ensures RowsGrow(c, s, t, q) {}
    WorkerKeepsStarts(c, s, t);
  }

  /** Leaving the retrying state changes nothing a run depends on. */
  lemma HandlerIdles(c: Catalog, s: Sys, t: Sys)
    requires Inv(c, s) && s.handler.Retrying? && t == s.(handler := Idle)
    ensures Inv(c, t)
  {
    IdleViews(c, s, t);
    SameViewsKeep(c, s, t);
    SameTablesKeepStarts(c, s, t);
  }

  lemma ClaimStepKeeps(c: Catalog, s: Sys, a: Action)
    requires Inv(c, s) && Enabled(c, s, a)
    requires a.ClaimTasks? || a.Renew? || a.Recover? || a.Finalise? || a.ClaimRetry?
    ensures Inv(c, Next(c, s, a))
  {
    var t := Next(c, s, a);
    var rows, after := s.db.taskRuns, t.db.taskRuns;
    forall i | 0 <= i < |rows| ensures RowStutters(rows[i], after[i]) {}
    if a.ClaimRetry? {
      StutterKeeps(c, s, WithRows(s, after));
      HandlerIdles(c, WithRows(s, after), t);
    } else {
      StutterKeeps(c, s, t);
    }
  }

  // ----- The event loop -----

  /** Under the row facts what is let through are the candidates. */
  lemma LetThroughAreCandidates(c: Catalog, rows: seq<TaskRun>, retired: set<nat>, dagId: nat, r: nat)
    requires RowsOk(rows, retired)
    ensures forall t :: t in LetThrough(c, rows, dagId, r) <==> Candidate(DagOf(c, dagId), rows, r, t)
  {
    AtMostOneSuccess(rows, retired, r);
    forall t ensures t in LetThrough(c, rows, dagId, r) <==> Candidate(DagOf(c, dagId), rows, r, t) {
      LetThroughExactly(c, rows, dagId, r, t);
    }
  }

  lemma SafeIdReadyIff(c: Catalog, rows: seq<TaskRun>, retired: set<nat>, dagId: nat, r: nat, k: nat)
    requires RowsOk(rows, retired)
    ensures RunnableIds(c, rows, dagId, r, k) == Ready(DagOf(c, dagId), ProgressOf(rows, r)) <==>
            SeesRows(DagOf(c, dagId), rows, r, k) && SeesOnlyRows(DagOf(c, dagId), rows, r, k)
  {
    AtMostOneSuccess(rows, retired, r);
    LetThroughAreCandidates(c, rows, retired, dagId, r);
    ReadyAreCandidates(DagOf(c, dagId), rows, r);
    RunnableIsReadyIff(c, rows, dagId, r, k);
  }

  lemma AllSucceededNoCandidates(g: Dag, rows: seq<TaskRun>, r: nat)
    requires TasksWith(rows, r, Success) == g.tasks
    ensures Ready(g, ProgressOf(rows, r)) == {} && forall t :: !Candidate(g, rows, r, t)
  {
    StartedHaveRows(rows, r);
  }

  // ----- MarkSuccessAndGetNextTasks -----

  /** The parts of the invariant a step on run r starts from. */
  ghost predicate RunInv(c: Catalog, s: Sys, r: nat) {
    WellFormed(c) && Keyed(c, s.db) && RowsOk(s.db.taskRuns, s.retired) && r < |s.db.dagRuns| && Fits(ViewOf(c, s, r))
  }

  ghost predicate LiveIn(s: Sys, id: nat, r: nat) {
    Live(s, id) && s.db.taskRuns[id].runId == r
  }

  lemma LiveTask(c: Catalog, s: Sys, id: nat, r: nat)
    requires RunInv(c, s, r) && LiveIn(s, id, r)
    ensures var p, x := ProgressOf(s.db.taskRuns, r), s.db.taskRuns[id].taskId;
            x in p.rows && x !in p.Finished() && x in GraphOf(c, s, r).tasks
  {
    LiveIsUnfinished(s.db.taskRuns, s.retired, id);
  }

  lemma TaskCount(c: Catalog, s: Sys, r: nat)
    requires WellFormed(c) && Keyed(c, s.db) && r < |s.db.dagRuns|
    ensures c.dags[s.db.dagRuns[r].dagId].taskCount == |GraphOf(c, s, r).tasks|
  {
    assert WellFormedDag(c, s.db.dagRuns[r].dagId);
  }

  /** The count in DAGs.taskCount is reached only by the last task. */
  lemma EveryTaskSucceeded(c: Catalog, s: Sys, id: nat, r: nat)
    requires RunInv(c, s, r) && LiveIn(s, id, r)
    ensures TurnsSuccess(c, s.db.dagRuns[r]) <==>
            ProgressOf(MarkSuccess(c, s.db, id).taskRuns, r).succeeded == GraphOf(c, s, r).tasks
  {
    var v, x := ViewOf(c, s, r), s.db.taskRuns[id].taskId;
    TaskCount(c, s, r);
    LiveTask(c, s, id, r);
    LastSuccess(v, x);
    FinishProgress(s.db.taskRuns, id, Success, r);
    assert ProgressOf(MarkSuccess(c, s.db, id).taskRuns, r).succeeded == v.p.succeeded + {x};
  }

  /** After a success, on any tables and with any id: which mistakes the returned ids make. */
  lemma NextIdsAgainstRows(c: Catalog, db: Db, id: nat, k: nat)
    requires Keyed(c, db) && id < |db.taskRuns|
    ensures var r, after, found := db.taskRuns[id].runId, MarkSuccess(c, db, id).taskRuns, NextIds(c, db, id, k);
            var dagId, hit := db.dagRuns[r].dagId, TurnsSuccess(c, db.dagRuns[r]);
            var ready := Ready(DagOf(c, dagId), ProgressOf(after, r));
            && (found !! TasksIn(after, r) <==> hit || FindsRows(c, after, dagId, r, k))
            && (ready <= found <==> if hit then ready == {} else ForgetsNone(c, after, dagId, r, k))
            && ((forall t :: t in found ==> DepsOf(DagOf(c, dagId), t) <= TasksWith(after, r, Success)) <==>
                NoneTooEarly(c, after, dagId, r, found))
  {
    var r, after := db.taskRuns[id].runId, MarkSuccess(c, db, id).taskRuns;
    RunnableAgainstRows(c, after, db.dagRuns[r].dagId, r, k);
  }

  /** They are the tasks that are ready, exactly if none is made. */
  lemma NextIdsReadyIff(c: Catalog, db: Db, id: nat, k: nat)
    requires Keyed(c, db) && id < |db.taskRuns|
    ensures var r, after, found := db.taskRuns[id].runId, MarkSuccess(c, db, id).taskRuns, NextIds(c, db, id, k);
            var dagId := db.dagRuns[r].dagId;
            var ready := Ready(DagOf(c, dagId), ProgressOf(after, r));
            found == ready <==>
              if TurnsSuccess(c, db.dagRuns[r]) then ready == {}
              else
                && FindsRows(c, after, dagId, r, k) && ForgetsNone(c, after, dagId, r, k)
                && NoneTooEarly(c, after, dagId, r, found)
  {
    var r, after := db.taskRuns[id].runId, MarkSuccess(c, db, id).taskRuns;
    RunnableIsReadyIff(c, after, db.dagRuns[r].dagId, r, k);
  }

  /** Under the run's invariant that is what a safe id means. */
  lemma SafeNextIdsIff(c: Catalog, s: Sys, id: nat, k: nat, r: nat)
    requires RunInv(c, s, r) && LiveIn(s, id, r)
    ensures NextIds(c, s.db, id, k) == Ready(GraphOf(c, s, r), ProgressOf(MarkSuccess(c, s.db, id).taskRuns, r)) <==>
            SafeId(c, s, id, k)
  {
    var after := MarkSuccess(c, s.db, id).taskRuns;
    EveryTaskSucceeded(c, s, id, r);
    if TurnsSuccess(c, s.db.dagRuns[r]) {
      AllSucceededNoCandidates(GraphOf(c, s, r), after, r);
    } else {
      FinishKeepsRows(s.db.taskRuns, s.retired, id, Success);
      SafeIdReadyIff(c, after, s.retired, s.db.dagRuns[r].dagId, r, k);
    }
  }

  lemma SucceedViews(c: Catalog, s: Sys, id: nat, next: seq<nat>, r: nat, q: nat)
    requires Keyed(c, s.db) && WellFormed(c) && LiveIn(s, id, r) && s.handler == Idle && q < |s.db.dagRuns|
    ensures ViewOf(c, DoSucceed(c, s, id, next), q) ==
            if q == r then AfterSuccess(ViewOf(c, s, r), s.db.taskRuns[id].taskId, next) else ViewOf(c, s, q)
  {
    TaskCount(c, s, r);
    FinishProgress(s.db.taskRuns, id, Success, q);
  }

  lemma SucceedKeepsRun(c: Catalog, s: Sys, id: nat, next: seq<nat>, r: nat)
    requires RunInv(c, s, r) && LiveIn(s, id, r) && s.handler == Idle && Distinct(next)
    requires Elements(next) == Ready(GraphOf(c, s, r), ProgressOf(MarkSuccess(c, s.db, id).taskRuns, r))
    ensures Fits(ViewOf(c, DoSucceed(c, s, id, next), r))
  {
    LiveTask(c, s, id, r);
    FinishProgress(s.db.taskRuns, id, Success, r);
    SuccessFits(ViewOf(c, s, r), s.db.taskRuns[id].taskId, next);
    SucceedViews(c, s, id, next, r, r);
  }

  lemma SucceedKeepsRuns(c: Catalog, s: Sys, id: nat, next: seq<nat>, r: nat)
    requires RunInv(c, s, r) && AllRunsOk(c, s) && LiveIn(s, id, r) && s.handler == Idle && Distinct(next)
    requires Elements(next) == Ready(GraphOf(c, s, r), ProgressOf(MarkSuccess(c, s.db, id).taskRuns, r))
    ensures AllRunsOk(c, DoSucceed(c, s, id, next))
  {
    var t := DoSucceed(c, s, id, next);
    forall q | 0 <= q < |s.db.dagRuns| && q != r ensures ViewOf(c, t, q) == ViewOf(c, s, q) {
      SucceedViews(c, s, id, next, r, q);
    }
    SucceedKeepsRun(c, s, id, next, r);
    OtherViewsKeep(c, s, t, r);
  }

  /** Success and failure of a row leave the controller's facts alone. */
  lemma FinishKeepsStarts(c: Catalog, s: Sys, t: Sys, id: nat, status: Status)
    requires AllStartsOk(c, s) && Live(s, id) && (status == Success || status == Failed)
    requires t.db.taskRuns == WithStatus(s.db.taskRuns, id, status) && |t.db.dagRuns| == |s.db.dagRuns|
    requires forall r :: 0 <= r < |s.db.dagRuns| ==>
               t.db.dagRuns[r].dagId == s.db.dagRuns[r].dagId && t.db.dagRuns[r].name == s.db.dagRuns[r].name
    requires t.controller == s.controller && t.fromController == s.fromController
    ensures AllStartsOk(c, t)
  {
    forall r | 0 <= r < |s.db.dagRuns| ensures RowsGrow(c, s, t, r) {
      Finish(s.db.taskRuns, id, status, r);
    }
    assert KeysKept(c, s, t);
    WorkerKeepsStarts(c, s, t);
  }

  lemma SucceedKeepsStarts(c: Catalog, s: Sys, id: nat, next: seq<nat>)
    requires AllStartsOk(c, s) && Live(s, id)
    ensures AllStartsOk(c, DoSucceed(c, s, id, next))
  {
    FinishKeepsStarts(c, s, DoSucceed(c, s, id, next), id, Success);
  }

  lemma SucceedKeeps(c: Catalog, s: Sys, id: nat, next: seq<nat>, r: nat)
    requires WellFormed(c) && Inv(c, s) && s.handler == Idle && LiveIn(s, id, r) && Distinct(next)
    requires Elements(next) == Ready(GraphOf(c, s, r), ProgressOf(MarkSuccess(c, s.db, id).taskRuns, r))
    ensures Inv(c, DoSucceed(c, s, id, next))
  {
    SucceedKeepsRuns(c, s, id, next, r);
    FinishKeepsRows(s.db.taskRuns, s.retired, id, Success);
    SucceedKeepsStarts(c, s, id, next);
  }

  lemma RunOkMeansReady(c: Catalog, t: Sys, r: nat, next: seq<nat>)
    requires r < |t.db.dagRuns| && Fits(ViewOf(c, t, r))
    requires t.handler == if next == [] then Completing(r) else Enqueueing(r, next)
    ensures Elements(next) == Ready(GraphOf(c, t, r), ProgressOf(t.db.taskRuns, r))
  {
    DutyIsReady(ViewOf(c, t, r), next);
  }

  /** A success keeps the invariant exactly if its id tells; otherwise it breaks it at once. */
  lemma SucceedKeepsIff(c: Catalog, s: Sys, id: nat, k: nat, next: seq<nat>)
    requires WellFormed(c) && Inv(c, s) && s.handler == Idle && Live(s, id)
    requires Distinct(next) && Elements(next) == NextIds(c, s.db, id, k)
    ensures Inv(c, DoSucceed(c, s, id, next)) <==> SafeId(c, s, id, k)
  {
    var t, r := DoSucceed(c, s, id, next), s.db.taskRuns[id].runId;
    SafeNextIdsIff(c, s, id, k, r);
    if SafeId(c, s, id, k) {
      SucceedKeeps(c, s, id, next, r);
    }
    if Inv(c, t) {
      RunOkMeansReady(c, t, r, next);
    }
  }
}
