/** What holds in every state the run engine can reach whatever ids successes pass to the last query, the
    code's own included: when a run that waits for nothing is over, and how often its workspace goes. */
module EngineAnyRuns {
  import opened Prelude
  import opened Graphs
  import opened Tables
  import opened RunProgress
  import opened LooseProgress
  import opened RunnableTasks
  import opened Claims
  import opened Store
  import opened Engine
  import opened RowFacts
  import opened EngineSteps
  import opened EngineOutcomes
  import opened EngineStarts
  import opened EngineRuns
  import opened EngineAnyId
  import opened EngineCounts

  ghost predicate AllHeld(c: Catalog, s: Sys) {
    forall r :: 0 <= r < |s.db.dagRuns| ==> Held(ViewOf(c, s, r))
  }

  ghost predicate RetiredRun(s: Sys) {
    forall i :: i in s.retired ==> i < |s.db.taskRuns| && s.db.taskRuns[i].status == Running
  }

  ghost predicate CleanupsOk(s: Sys) {
    forall r :: r in s.cleanups ==> r < |s.db.dagRuns|
  }

  // ----- The views are kept -----

  lemma SameViewsHeld(c: Catalog, s: Sys, t: Sys)
    requires AllHeld(c, s) && |t.db.dagRuns| == |s.db.dagRuns|
    requires forall q :: 0 <= q < |s.db.dagRuns| ==> ViewOf(c, t, q) == ViewOf(c, s, q)
    ensures AllHeld(c, t)
  {
    forall q | 0 <= q < |s.db.dagRuns| ensures Held(ViewOf(c, t, q)) {
      assert Held(ViewOf(c, s, q));
    }
  }

  lemma OtherViewsHeld(c: Catalog, s: Sys, t: Sys, r: nat)
    requires AllHeld(c, s) && |t.db.dagRuns| == |s.db.dagRuns| && r < |t.db.dagRuns| && Held(ViewOf(c, t, r))
    requires forall q :: 0 <= q < |s.db.dagRuns| && q != r ==> ViewOf(c, t, q) == ViewOf(c, s, q)
    ensures AllHeld(c, t)
  {
    forall q | 0 <= q < |s.db.dagRuns| ensures Held(ViewOf(c, t, q)) {
      assert Held(ViewOf(c, s, q));
    }
  }

  lemma ClaimViews(c: Catalog, s: Sys, a: Action, q: nat)
    requires StartsInv(c, s) && Enabled(c, s, a) && q < |s.db.dagRuns|
    requires a.ClaimTasks? || a.Renew? || a.Recover? || a.Finalise? || a.ClaimRetry?
    ensures |Next(c, s, a).db.dagRuns| == |s.db.dagRuns| && ViewOf(c, Next(c, s, a), q) == ViewOf(c, s, q)
  {
    var t := Next(c, s, a);
    var rows, after := s.db.taskRuns, t.db.taskRuns;
    forall i | 0 <= i < |rows| ensures RowStutters(rows[i], after[i]) {}
    StutterViews(c, s, WithRows(s, after), q);
    if a.ClaimRetry? {
      IdleViews(c, WithRows(s, after), t);
    }
  }

  lemma ClaimsHeld(c: Catalog, s: Sys, a: Action)
    requires AllHeld(c, s) && StartsInv(c, s) && Enabled(c, s, a)
    requires a.ClaimTasks? || a.Renew? || a.Recover? || a.Finalise? || a.ClaimRetry?
    ensures AllHeld(c, Next(c, s, a))
  {
    forall q | 0 <= q < |s.db.dagRuns|
      ensures |Next(c, s, a).db.dagRuns| == |s.db.dagRuns| && ViewOf(c, Next(c, s, a), q) == ViewOf(c, s, q)
    {
      ClaimViews(c, s, a, q);
    }
    SameViewsHeld(c, s, Next(c, s, a));
  }

  lemma SucceedHeld(c: Catalog, s: Sys, id: nat, k: nat, next: seq<nat>)
    requires WellFormed(c) && AllHeld(c, s) && Keyed(c, s.db) && Enabled(c, s, Succeed(id, k, next))
    ensures AllHeld(c, DoSucceed(c, s, id, next))
  {
    var t, r := DoSucceed(c, s, id, next), s.db.taskRuns[id].runId;
    forall q | 0 <= q < |s.db.dagRuns| && q != r ensures ViewOf(c, t, q) == ViewOf(c, s, q) {
      SucceedViews(c, s, id, next, r, q);
    }
    SucceedViews(c, s, id, next, r, r);
    MemberIn(s.db.taskRuns, id);
    SuccessHeld(ViewOf(c, s, r), s.db.taskRuns[id].taskId, next);
    OtherViewsHeld(c, s, t, r);
  }

  lemma EnqueueOneHeld(c: Catalog, s: Sys)
    requires AllHeld(c, s) && HandlerOk(s) && s.handler.Enqueueing? && s.handler.todo != []
    ensures AllHeld(c, DoEnqueueOne(s))
  {
    var t, r := DoEnqueueOne(s), s.handler.run;
    forall q | 0 <= q < |s.db.dagRuns| && q != r ensures ViewOf(c, t, q) == ViewOf(c, s, q) {
      EnqueueViews(c, s, r, q);
    }
    EnqueueViews(c, s, r, r);
    EnqueueHeld(ViewOf(c, s, r), s.handler.todo);
    OtherViewsHeld(c, s, t, r);
  }

  lemma FailedHeld(c: Catalog, s: Sys, id: nat)
    requires AllHeld(c, s) && Keyed(c, s.db) && s.handler == Idle && Live(s, id)
    ensures AllHeld(c, DoFail(c, s, id))
  {
    var t, r := DoFail(c, s, id), s.db.taskRuns[id].runId;
    forall q | 0 <= q < |s.db.dagRuns| && q != r ensures ViewOf(c, t, q) == ViewOf(c, s, q) {
      FailViews(c, s, id, r, q);
    }
    FailViews(c, s, id, r, r);
    MemberIn(s.db.taskRuns, id);
    FailHeld(ViewOf(c, s, r), s.db.taskRuns[id].taskId);
    OtherViewsHeld(c, s, t, r);
  }

  lemma SuspendedHeld(c: Catalog, s: Sys, backend: Backend, found: seq<nat>)
    requires WellFormed(c) && Keyed(c, s.db) && AllHeld(c, s) && Enabled(c, s, SuspendBelow(backend, found))
    ensures AllHeld(c, DoSuspend(s, found))
  {
    var t, r := DoSuspend(s, found), s.handler.run;
    forall q | 0 <= q < |s.db.dagRuns| && q != r ensures ViewOf(c, t, q) == ViewOf(c, s, q) {
      SuspendViews(c, s, found, r, q);
    }
    SuspendViews(c, s, found, r, r);
    assert WellFormedDag(c, s.db.dagRuns[r].dagId);
    SuspendHeld(ViewOf(c, s, r), FailedTask(s, r), found);
    OtherViewsHeld(c, s, t, r);
  }

  lemma RetriedHeld(c: Catalog, s: Sys, id: nat)
    requires AllHeld(c, s) && s.handler == Idle && Live(s, id)
    ensures AllHeld(c, DoRetry(s, id))
  {
    forall q | 0 <= q < |s.db.dagRuns| ensures ViewOf(c, DoRetry(s, id), q) == ViewOf(c, s, q) {
      RetryViews(c, s, id, q);
    }
    SameViewsHeld(c, s, DoRetry(s, id));
  }

  lemma CheckedHeld(c: Catalog, s: Sys)
    requires AllHeld(c, s) && s.handler.Completing? && s.handler.run < |s.db.dagRuns|
    ensures AllHeld(c, DoCheckDone(c, s))
  {
    var t, r := DoCheckDone(c, s), s.handler.run;
    forall q | 0 <= q < |s.db.dagRuns| && q != r ensures ViewOf(c, t, q) == ViewOf(c, s, q) {
      CheckViews(c, s, q);
    }
    CheckViews(c, s, r);
    CheckHeld(ViewOf(c, s, r));
    OtherViewsHeld(c, s, t, r);
  }

  lemma StartedHeld(c: Catalog, s: Sys, name: string, dagName: string)
    requires WellFormed(c) && AllHeld(c, s) && StartsInv(c, s) && CleanupsOk(s)
    requires Enabled(c, s, StartRun(name, dagName))
    ensures AllHeld(c, DoStartRun(s, name, dagName))
  {
    var t := DoStartRun(s, name, dagName);
    if FindRun(s.db.dagRuns, name).Some? {
      SameViewsHeld(c, s, t);
    } else {
      var dagId := s.latest[dagName];
      NewRunView(c, s, name, dagId, t);
      assert WellFormedDag(c, dagId);
      NewRunHeld(DagOf(c, dagId), name, dagId);
      forall q | 0 <= q < |t.db.dagRuns| ensures Held(ViewOf(c, t, q)) {
        if q < |s.db.dagRuns| {
          assert Held(ViewOf(c, s, q));
        }
      }
    }
  }

  lemma InsertedHeld(c: Catalog, s: Sys)
    requires AllHeld(c, s) && StartsInv(c, s) && s.controller.Inserting?
    ensures AllHeld(c, DoInsertOne(s))
  {
    var t, r := DoInsertOne(s), s.controller.run;
    forall q | 0 <= q < |s.db.dagRuns| && q != r ensures ViewOf(c, t, q) == ViewOf(c, s, q) {
      InsertRootViews(c, s, q);
    }
    InsertRootViews(c, s, r);
    InsertHeld(ViewOf(c, s, r), s.controller.task);
    OtherViewsHeld(c, s, t, r);
  }

  lemma StepKeepsHeld(c: Catalog, s: Sys, a: Action)
    requires WellFormed(c) && AllHeld(c, s) && StartsInv(c, s) && CleanupsOk(s) && Enabled(c, s, a)
    ensures AllHeld(c, Next(c, s, a))
  {
    match a {
      case Succeed(id, k, next) => SucceedHeld(c, s, id, k, next);
      case EnqueueOne => EnqueueOneHeld(c, s);
      case Fail(id) => FailedHeld(c, s, id);
      case SuspendBelow(backend, found) => SuspendedHeld(c, s, backend, found);
      case Retry(id) => RetriedHeld(c, s, id);
      case CheckDone => CheckedHeld(c, s);
      case StartRun(name, dagName) => StartedHeld(c, s, name, dagName);
      case InsertOne => InsertedHeld(c, s);
      case Publish(_, _) => SameViewsHeld(c, s, Next(c, s, a));
      case ListStarting(_) => SameViewsHeld(c, s, Next(c, s, a));
      case CheckOne => SameViewsHeld(c, s, Next(c, s, a));
      case Crash => SameViewsHeld(c, s, Next(c, s, a));
      case _ => ClaimsHeld(c, s, a);
    }
  }

  // ----- The invariant -----

  ghost predicate AnyInv(c: Catalog, s: Sys) {
    StartsInv(c, s) && AllCountRows(s.db) && AllHeld(c, s) && CleanupsOk(s) && RetiredRun(s)
  }

  lemma StepKeepsRetired(c: Catalog, s: Sys, a: Action)
    requires StartsInv(c, s) && CleanupsOk(s) && RetiredRun(s) && Enabled(c, s, a)
    ensures CleanupsOk(Next(c, s, a)) && RetiredRun(Next(c, s, a))
  {
  }

  lemma {:induction false} RunKeepsAny(c: Catalog, ids: Ids, s: Sys, actions: seq<Action>, t: Sys)
    requires WellFormed(c) && AnyInv(c, s) && Runs(c, ids, s, actions, t)
    ensures AnyInv(c, t)
    decreases |actions|
  {
    if actions != [] {
      StepKeepsStarts(c, s, actions[0]);
      StepKeepsCounts(c, s, actions[0]);
      StepKeepsHeld(c, s, actions[0]);
      StepKeepsRetired(c, s, actions[0]);
      RunKeepsAny(c, ids, Next(c, s, actions[0]), actions[1..], t);
    }
  }

  lemma ReachableAny(c: Catalog, ids: Ids, s: Sys)
    requires WellFormed(c) && Reachable(c, ids, s)
    ensures AnyInv(c, s)
  {
    var actions :| Runs(c, ids, Initial(), actions, s);
    RunKeepsAny(c, ids, Initial(), actions, s);
  }

  // ----- No run gets stuck -----

  lemma EndedFinished(rows: seq<TaskRun>, r: nat, t: nat)
    ensures Ended(rows, r, t) <==> t in ProgressOf(rows, r).Finished()
  {
    if t in ProgressOf(rows, r).Finished() {
      FinishedEnded(rows, r, t);
    }
  }

  /** Whatever ids are passed: a run whose starting tasks are enqueued and that waits for nothing is over,
      every task ended, if and only if none of its tasks is ready. */
  lemma NoRunIsStuckIff(c: Catalog, s: Sys, r: nat)
    requires WellFormed(c) && Reachable(c, AnyId, s) && r < |s.db.dagRuns| && DutyOf(s, r) == Nothing
    requires RootsOf(c, s, r) <= TasksIn(s.db.taskRuns, r) && Quiet(s.db.taskRuns, r)
    ensures (forall t :: t in GraphOf(c, s, r).tasks ==> Ended(s.db.taskRuns, r, t)) <==>
            Ready(GraphOf(c, s, r), ProgressOf(s.db.taskRuns, r)) == {}
  {
    ReachableAny(c, AnyId, s);
    assert Held(ViewOf(c, s, r)) && WellFormedDag(c, s.db.dagRuns[r].dagId);
    QuietFinishes(s.db.taskRuns, r);
    OverIff(GraphOf(c, s, r), ProgressOf(s.db.taskRuns, r));
    forall t { EndedFinished(s.db.taskRuns, r, t); }
  }

  /** The same on any tables, for runs whose handler died halfway: what is missing then is what is ready
      or what is left below a failed or suspended task. */
  lemma TableIsOverIff(c: Catalog, db: Db, r: nat)
    requires WellFormed(c) && Keyed(c, db) && r < |db.dagRuns| && Quiet(db.taskRuns, r)
    requires Roots(DagOf(c, db.dagRuns[r].dagId)) <= TasksIn(db.taskRuns, r)
    ensures var g, p := DagOf(c, db.dagRuns[r].dagId), ProgressOf(db.taskRuns, r);
            (forall t :: t in g.tasks ==> Ended(db.taskRuns, r, t)) <==> Ready(g, p) == {} && Contained(g, p, Nothing)
  {
    var g, p := DagOf(c, db.dagRuns[r].dagId), ProgressOf(db.taskRuns, r);
    assert WellFormedDag(c, db.dagRuns[r].dagId);
    QuietFinishes(db.taskRuns, r);
    FinishedHaveRows(db.taskRuns, r);
    OverIff(g, p);
    forall t { EndedFinished(db.taskRuns, r, t); }
  }

  lemma FinishedHaveRows(rows: seq<TaskRun>, r: nat)
    ensures ProgressOf(rows, r).Finished() <= TasksIn(rows, r)
  {
    forall t | t in ProgressOf(rows, r).Finished() ensures t in TasksIn(rows, r) {
      var status :| t in TasksWith(rows, r, status);
    }
  }
}
