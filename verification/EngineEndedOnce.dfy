/** As long as no task of a run has ended twice, everything but the promptness of the run is as intended,
    whatever ids successes pass: dependency order, counters, status, suspension and the workspace. */
module EngineEndedOnce {
  import opened Prelude
  import opened Graphs
  import opened Tables
  import opened RunProgress
  import opened LooseProgress
  import opened RunnableTasks
  import opened Claims
  import opened Store
  import opened Engine
  import opened RowFacts
  import opened EngineSteps
  import opened EngineOutcomes
  import opened EngineStarts
  import opened EngineRuns
  import opened EngineAnyId
  import opened EngineCounts
  import opened EngineOrder
  import opened EngineAnyRuns
  import opened EngineVerdicts

  // ----- What has ended stays -----

  ghost predicate EndingsKept(rows: seq<TaskRun>, after: seq<TaskRun>) {
    && |rows| <= |after|
    && forall i :: 0 <= i < |rows| && Terminal(rows[i].status) ==>
        SameKey(after[i], rows[i]) && after[i].status == rows[i].status
  }

  lemma StepKeepsEndings(c: Catalog, s: Sys, a: Action)
    requires StartsInv(c, s) && Enabled(c, s, a)
    ensures EndingsKept(s.db.taskRuns, Next(c, s, a).db.taskRuns)
  {
  }

  lemma RepeatedKept(rows: seq<TaskRun>, after: seq<TaskRun>, r: nat, among: set<Status>)
    requires EndingsKept(rows, after) && among <= TERMINAL
    ensures Repeated(rows, r, among) ==> Repeated(after, r, among)
  {
    if Repeated(rows, r, among) {
      var i, j :| 0 <= i < j < |rows| && SameKey(rows[i], rows[j]) && i in RowsWith(rows, r, among)
          && j in RowsWith(rows, r, among);
      assert SameKey(after[i], after[j]) && i in RowsWith(after, r, among) && j in RowsWith(after, r, among);
    }
  }

  // ----- Dependency order -----

  lemma SingleIfSucceededOnce(rows: seq<TaskRun>, r: nat)
    requires !Repeated(rows, r, {Success})
    ensures forall d :: SuccessRows(rows, r, d) <= 1
  {
    forall d ensures SuccessRows(rows, r, d) <= 1 {
      if SuccessRows(rows, r, d) >= 2 {
        var i, j := SuccessRowsWitness(rows, r, d);
        TwoSuccesses(rows, r, i, j);
        assert false;
      }
    }
  }

  lemma TwoSuccesses(rows: seq<TaskRun>, r: nat, i: nat, j: nat)
    requires i < j < |rows| && SameKey(rows[i], rows[j]) && rows[i].runId == r
    requires rows[i].status == Success && rows[j].status == Success
    ensures Repeated(rows, r, {Success})
  {
    assert i in RowsWith(rows, r, {Success}) && j in RowsWith(rows, r, {Success});
  }

  lemma StepOrderOnce(c: Catalog, s: Sys, a: Action, r: nat)
    requires StartsInv(c, s) && Enabled(c, s, a)
    requires !Repeated(s.db.taskRuns, r, {Success}) ==> InOrder(c, s, r)
    ensures !Repeated(Next(c, s, a).db.taskRuns, r, {Success}) ==> InOrder(c, Next(c, s, a), r)
  {
    var t := Next(c, s, a);
    StepKeepsEndings(c, s, a);
    RepeatedKept(s.db.taskRuns, t.db.taskRuns, r, {Success});
    if !Repeated(t.db.taskRuns, r, {Success}) {
      SingleIfSucceededOnce(t.db.taskRuns, r);
      StepKeepsOrderIff(c, s, a, r);
    }
  }

  lemma {:induction false} RunOrderOnce(c: Catalog, s: Sys, actions: seq<Action>, t: Sys, r: nat)
    requires StartsInv(c, s) && Runs(c, AnyId, s, actions, t)
    requires !Repeated(s.db.taskRuns, r, {Success}) ==> InOrder(c, s, r)
    ensures !Repeated(t.db.taskRuns, r, {Success}) ==> InOrder(c, t, r)
    decreases |actions|
  {
    if actions != [] {
      StepOrderOnce(c, s, actions[0], r);
      StepKeepsStarts(c, s, actions[0]);
      RunOrderOnce(c, Next(c, s, actions[0]), actions[1..], t, r);
    }
  }

  /** Whatever ids are passed: a run no task of which has two success rows is in dependency order. */
  lemma InOrderIfSucceededOnce(c: Catalog, s: Sys, r: nat)
    requires Reachable(c, AnyId, s) && !Repeated(s.db.taskRuns, r, {Success})
    ensures InOrder(c, s, r)
  {
    var actions :| Runs(c, AnyId, Initial(), actions, s);
    RunOrderOnce(c, Initial(), actions, s, r);
  }

  lemma OrderedByRows(g: Dag, rows: seq<TaskRun>, r: nat)
    requires RowsInOrder(g, rows, r)
    ensures Ordered(g, ProgressOf(rows, r))
  {
    forall t | t in TasksIn(rows, r) && t !in TasksWith(rows, r, Suspended)
      ensures DepsOf(g, t) <= TasksWith(rows, r, Success)
    {
      var i: nat :| i < |rows| && rows[i].runId == r && rows[i].taskId == t;
      MemberIn(rows, i);
    }
  }

  // ----- Suspension and the workspace -----

  lemma EndedOnceCounted(c: Catalog, s: Sys, r: nat)
    requires AllCountRows(s.db) && r < |s.db.dagRuns| && !EndedTwice(s.db.taskRuns, r)
    ensures CountedAt(c, s, r)
  {
    assert CountsRows(s.db.dagRuns[r], s.db.taskRuns, r);
    SumExactIff(s.db.dagRuns[r], s.db.taskRuns, r);
    EndedOnceExclusive(s.db.taskRuns, r);
  }

  ghost predicate CleanAt(c: Catalog, s: Sys, r: nat) {
    r < |s.db.dagRuns| && Clean(ViewOf(c, s, r))
  }

  ghost predicate HeldAt(c: Catalog, s: Sys, r: nat) {
    r < |s.db.dagRuns| && Held(ViewOf(c, s, r))
  }

  ghost predicate CountedAt(c: Catalog, s: Sys, r: nat) {
    r < |s.db.dagRuns| && CountedOnce(ViewOf(c, s, r))
  }

  /** With single successes what is returned may run, and has not started. */
  lemma ReturnedMayRun(c: Catalog, db: Db, id: nat, k: nat, x: nat)
    requires Keyed(c, db) && id < |db.taskRuns| && x in NextIds(c, db, id, k)
    requires !Repeated(MarkSuccess(c, db, id).taskRuns, db.taskRuns[id].runId, {Success})
    ensures var r, after := db.taskRuns[id].runId, MarkSuccess(c, db, id).taskRuns;
            Candidate(DagOf(c, db.dagRuns[r].dagId), after, r, x)
  {
    var r, after := db.taskRuns[id].runId, MarkSuccess(c, db, id).taskRuns;
    SingleIfSucceededOnce(after, r);
    RunnableAreCandidates(c, after, db.dagRuns[r].dagId, r, k, x);
  }

  lemma SucceedClean(c: Catalog, s: Sys, id: nat, next: seq<nat>, r: nat)
    requires WellFormed(c) && Keyed(c, s.db) && s.handler == Idle && LiveIn(s, id, r)
    requires HeldAt(c, s, r) && CleanAt(c, s, r) && CountedAt(c, DoSucceed(c, s, id, next), r)
    requires forall x :: x in next ==> Candidate(GraphOf(c, s, r), MarkSuccess(c, s.db, id).taskRuns, r, x)
    ensures CleanAt(c, DoSucceed(c, s, id, next), r)
  {
    var v, after := ViewOf(c, s, r), MarkSuccess(c, s.db, id).taskRuns;
    SucceedViews(c, s, id, next, r, r);
    MemberIn(s.db.taskRuns, id);
    assert ProgressOf(after, r) == AfterSuccess(v, s.db.taskRuns[id].taskId, next).p;
    SuccessClean(v, s.db.taskRuns[id].taskId, next);
  }

  lemma SuspendedClean(c: Catalog, s: Sys, backend: Backend, found: seq<nat>, r: nat)
    requires FailingIn(s, r) && ValidDag(GraphOf(c, s, r))
    requires Elements(found) == SuspendedBy(c, s.db, backend, r, s.handler.id)
    requires HeldAt(c, s, r) && CleanAt(c, s, r) && Exclusive(ProgressOf(s.db.taskRuns, r))
    requires Ordered(GraphOf(c, s, r), ProgressOf(s.db.taskRuns, r))
    ensures CleanAt(c, DoSuspend(s, found), r)
  {
    SuspendViews(c, s, found, r, r);
    SuspendClean(ViewOf(c, s, r), FailedTask(s, r), found);
  }

  lemma OwnSucceedClean(c: Catalog, s: Sys, id: nat, k: nat, next: seq<nat>, r: nat)
    requires WellFormed(c) && Keyed(c, s.db) && Enabled(c, s, Succeed(id, k, next)) && LiveIn(s, id, r)
    requires HeldAt(c, s, r) && CleanAt(c, s, r) && CountedAt(c, DoSucceed(c, s, id, next), r)
    requires !EndedTwice(MarkSuccess(c, s.db, id).taskRuns, r)
    ensures CleanAt(c, DoSucceed(c, s, id, next), r)
  {
    EndedOnceExclusive(MarkSuccess(c, s.db, id).taskRuns, r);
    forall x | x in next ensures Candidate(GraphOf(c, s, r), MarkSuccess(c, s.db, id).taskRuns, r, x) {
      assert x in Elements(next);
      ReturnedMayRun(c, s.db, id, k, x);
    }
    SucceedClean(c, s, id, next, r);
  }

  lemma SucceedStepClean(c: Catalog, s: Sys, id: nat, k: nat, next: seq<nat>, r: nat)
    requires WellFormed(c) && Keyed(c, s.db) && Enabled(c, s, Succeed(id, k, next)) && AllCountRows(s.db)
    requires r < |s.db.dagRuns| && HeldAt(c, s, r) && CleanAt(c, s, r)
    requires !EndedTwice(MarkSuccess(c, s.db, id).taskRuns, r)
    ensures CleanAt(c, DoSucceed(c, s, id, next), r)
  {
    if s.db.taskRuns[id].runId == r {
      OutcomeKeepsCounts(c, s.db, id, true);
      EndedOnceCounted(c, DoSucceed(c, s, id, next), r);
      OwnSucceedClean(c, s, id, k, next, r);
    } else {
      SucceedViews(c, s, id, next, s.db.taskRuns[id].runId, r);
    }
  }

  lemma SuspendStepClean(c: Catalog, s: Sys, backend: Backend, found: seq<nat>, run: nat, r: nat)
    requires FailingIn(s, run) && Elements(found) == SuspendedBy(c, s.db, backend, run, s.handler.id)
    requires HeldAt(c, s, r) && CleanAt(c, s, r) && ValidDag(GraphOf(c, s, run))
    requires Exclusive(ProgressOf(s.db.taskRuns, r)) && Ordered(GraphOf(c, s, r), ProgressOf(s.db.taskRuns, r))
    ensures CleanAt(c, DoSuspend(s, found), r)
  {
    if run == r {
      SuspendedClean(c, s, backend, found, r);
    } else {
      SuspendViews(c, s, found, run, r);
    }
  }

  lemma SuspendInOrderClean(c: Catalog, s: Sys, backend: Backend, found: seq<nat>, run: nat, r: nat)
    requires FailingIn(s, run) && Elements(found) == SuspendedBy(c, s.db, backend, run, s.handler.id)
    requires WellFormed(c) && s.db.dagRuns[run].dagId < |c.dags|
    requires HeldAt(c, s, r) && CleanAt(c, s, r) && CountedAt(c, s, r) && InOrder(c, s, r)
    ensures CleanAt(c, DoSuspend(s, found), r)
  {
    OrderedByRows(GraphOf(c, s, r), s.db.taskRuns, r);
    assert WellFormedDag(c, s.db.dagRuns[run].dagId);
    SuspendStepClean(c, s, backend, found, run, r);
  }

  lemma SmallStepClean(c: Catalog, s: Sys, a: Action, r: nat)
    requires Keyed(c, s.db) && HandlerOk(s) && ControllerOk(c, s) && Enabled(c, s, a)
    requires r < |s.db.dagRuns| && HeldAt(c, s, r) && CleanAt(c, s, r)
    requires a.EnqueueOne? || a.Fail? || a.CheckDone? || a.InsertOne?
    ensures CleanAt(c, Next(c, s, a), r)
  {
    var v := ViewOf(c, s, r);
    match a {
      case EnqueueOne =>
        EnqueueViews(c, s, s.handler.run, r);
        EnqueueClean(v, s.handler.todo);
      case Fail(id) =>
        FailViews(c, s, id, s.db.taskRuns[id].runId, r);
        FailClean(v, s.db.taskRuns[id].taskId);
      case CheckDone =>
        CheckViews(c, s, r);
        if s.handler.run == r {
          CheckClean(v);
        }
      case InsertOne =>
        InsertRootViews(c, s, r);
        InsertClean(v, s.controller.task);
    }
  }

  /** The steps that change views. */
  lemma OwnStepClean(c: Catalog, s: Sys, a: Action, r: nat)
    requires WellFormed(c) && StartsInv(c, s) && AllCountRows(s.db) && Enabled(c, s, a) && InOrder(c, s, r)
    requires HeldAt(c, s, r) && CleanAt(c, s, r) && CountedAt(c, s, r) && !EndedTwice(Next(c, s, a).db.taskRuns, r)
    requires a.Succeed? || a.EnqueueOne? || a.Fail? || a.SuspendBelow? || a.CheckDone? || a.InsertOne?
    ensures CleanAt(c, Next(c, s, a), r)
  {
    match a {
      case Succeed(id, k, next) => SucceedStepClean(c, s, id, k, next, r);
      case SuspendBelow(backend, found) => SuspendInOrderClean(c, s, backend, found, s.handler.run, r);
      case _ => SmallStepClean(c, s, a, r);
    }
  }

  lemma OtherStepClean(c: Catalog, s: Sys, a: Action, r: nat)
    requires StartsInv(c, s) && Enabled(c, s, a) && r < |s.db.dagRuns| && CleanupsOk(s)
    requires !(a.Succeed? || a.EnqueueOne? || a.Fail? || a.SuspendBelow? || a.CheckDone? || a.InsertOne?)
    ensures r < |Next(c, s, a).db.dagRuns| && ViewOf(c, Next(c, s, a), r) == ViewOf(c, s, r)
  {
    var t := Next(c, s, a);
    match a {
      case Retry(id) => RetryViews(c, s, id, r);
      case StartRun(name, dagName) =>
        if FindRun(s.db.dagRuns, name).None? {
          NewRunView(c, s, name, s.latest[dagName], t);
        }
      case Publish(_, _) =>
      case ListStarting(_) =>
      case CheckOne =>
      case Crash =>
      case _ => ClaimViews(c, s, a, r);
    }
  }

  ghost predicate CleanIfEndedOnce(c: Catalog, s: Sys, r: nat) {
    r < |s.db.dagRuns| && !EndedTwice(s.db.taskRuns, r) ==> InOrder(c, s, r) && Clean(ViewOf(c, s, r))
  }

  lemma NewRunIsClean(c: Catalog, s: Sys, name: string, dagName: string)
    requires WellFormed(c) && AnyInv(c, s) && Enabled(c, s, StartRun(name, dagName))
             && FindRun(s.db.dagRuns, name).None?
    ensures Clean(ViewOf(c, DoStartRun(s, name, dagName), |s.db.dagRuns|))
  {
    var dagId := s.latest[dagName];
    NewRunView(c, s, name, dagId, DoStartRun(s, name, dagName));
    assert WellFormedDag(c, dagId);
    NewRunClean(DagOf(c, dagId), name, dagId);
  }

  lemma StepKeepsClean(c: Catalog, s: Sys, a: Action, r: nat)
    requires WellFormed(c) && AnyInv(c, s) && Enabled(c, s, a) && CleanIfEndedOnce(c, s, r)
    requires r < |Next(c, s, a).db.dagRuns| && !EndedTwice(Next(c, s, a).db.taskRuns, r)
    ensures Clean(ViewOf(c, Next(c, s, a), r))
  {
    if r == |s.db.dagRuns| {
      NewRunIsClean(c, s, a.name, a.dagName);
    } else {
      StepKeepsEndings(c, s, a);
      RepeatedKept(s.db.taskRuns, Next(c, s, a).db.taskRuns, r, TERMINAL);
      EndedOnceCounted(c, s, r);
      if a.Succeed? || a.EnqueueOne? || a.Fail? || a.SuspendBelow? || a.CheckDone? || a.InsertOne? {
        OwnStepClean(c, s, a, r);
      } else {
        OtherStepClean(c, s, a, r);
      }
    }
  }

  lemma {:induction false} RunKeepsClean(c: Catalog, s: Sys, actions: seq<Action>, t: Sys, r: nat)
    requires WellFormed(c) && Reachable(c, AnyId, s) && AnyInv(c, s) && Runs(c, AnyId, s, actions, t)
             && CleanIfEndedOnce(c, s, r)
    ensures CleanIfEndedOnce(c, t, r)
    decreases |actions|
  {
    if actions != [] {
      var next := Next(c, s, actions[0]);
      OneStep(c, AnyId, s, actions[0]);
      ReachableOn(c, AnyId, s, [actions[0]], next);
      ReachableAny(c, AnyId, next);
      if r < |next.db.dagRuns| && !EndedTwice(next.db.taskRuns, r) {
        StepKeepsClean(c, s, actions[0], r);
        EndedOnceExclusive(next.db.taskRuns, r);
        InOrderIfSucceededOnce(c, next, r);
      }
      RunKeepsClean(c, next, actions[1..], t, r);
    }
  }

  lemma EndedOnceClean(c: Catalog, s: Sys, r: nat)
    requires WellFormed(c) && Reachable(c, AnyId, s) && r < |s.db.dagRuns| && !EndedTwice(s.db.taskRuns, r)
    ensures InOrder(c, s, r) && Held(ViewOf(c, s, r)) && Clean(ViewOf(c, s, r)) && CountedOnce(ViewOf(c, s, r))
  {
    var actions :| Runs(c, AnyId, Initial(), actions, s);
    assert Runs(c, AnyId, Initial(), [], Initial());
    ReachableAny(c, AnyId, Initial());
    ReachableAny(c, AnyId, s);
    RunKeepsClean(c, Initial(), actions, s, r);
    EndedOnceCounted(c, s, r);
  }

  /** Whatever ids are passed: the workspace of a run no task of which has ended twice is removed exactly
      once, by the handler that makes the last task terminal. */
  lemma CleanedExactlyOnceIfEndedOnce(c: Catalog, s: Sys, r: nat)
    requires WellFormed(c) && Reachable(c, AnyId, s) && r < |s.db.dagRuns| && !EndedTwice(s.db.taskRuns, r)
    ensures multiset(s.cleanups)[r] == if AllEnded(c, s, r) && !Busy(s, r) then 1 else 0
  {
    EndedOnceClean(c, s, r);
    CleanedOnceIff(ViewOf(c, s, r));
    AllEndedFinished(c, s, r);
  }

  /** And the two backends suspend the same tasks of it, all descendants of the failed one without a row. */
  lemma BackendsAgreeIfEndedOnce(c: Catalog, s: Sys, r: nat)
    requires WellFormed(c) && Reachable(c, AnyId, s) && FailingIn(s, r) && !EndedTwice(s.db.taskRuns, r)
    ensures SuspendedBy(c, s.db, Sqlite, r, s.handler.id) == SuspendedBy(c, s.db, Postgres, r, s.handler.id)
              == Orphans(GraphOf(c, s, r), TasksIn(s.db.taskRuns, r), FailedTask(s, r))
  {
    EndedOnceClean(c, s, r);
    OrderedByRows(GraphOf(c, s, r), s.db.taskRuns, r);
    CleanSearchesAgree(ViewOf(c, s, r), FailedTask(s, r));
    OneAnswer(c, s.db, r, s.handler.id);
  }

  // ----- When the workspace goes too early -----

  /** A workspace is gone only if all tasks of its run have ended. */
  ghost predicate GoneInTime(c: Catalog, s: Sys, r: nat) {
    r < |s.db.dagRuns| && r in s.cleanups ==> AllEnded(c, s, r)
  }

  /** The one mistake: removing it although a task has ended twice. */
  ghost predicate RemovesInTime(c: Catalog, s: Sys, a: Action, r: nat) {
    a.CheckDone? && r < |s.db.dagRuns| && s.handler == Completing(r) && AllTasksDone(c, s.db, r) ==>
      !EndedTwice(s.db.taskRuns, r)
  }

  lemma EndingsKeptEnded(c: Catalog, s: Sys, t: Sys, r: nat)
    requires EndingsKept(s.db.taskRuns, t.db.taskRuns) && r < |s.db.dagRuns| <= |t.db.dagRuns|
    requires t.db.dagRuns[r].dagId == s.db.dagRuns[r].dagId && AllEnded(c, s, r)
    ensures AllEnded(c, t, r)
  {
    forall x | x in GraphOf(c, t, r).tasks ensures Ended(t.db.taskRuns, r, x) {
      assert Ended(s.db.taskRuns, r, x);
      var i: nat :| i < |s.db.taskRuns| && s.db.taskRuns[i].runId == r && s.db.taskRuns[i].taskId == x
                    && Terminal(s.db.taskRuns[i].status);
      assert SameKey(t.db.taskRuns[i], s.db.taskRuns[i]);
    }
  }

  lemma StepKeepsRun(c: Catalog, s: Sys, a: Action, r: nat)
    requires Keyed(c, s.db) && Enabled(c, s, a) && r < |s.db.dagRuns|
    ensures r < |Next(c, s, a).db.dagRuns| && Next(c, s, a).db.dagRuns[r].dagId == s.db.dagRuns[r].dagId
    ensures a.CheckDone? && s.handler == Completing(r) && AllTasksDone(c, s.db, r) ==> r in Next(c, s, a).cleanups
    ensures r in Next(c, s, a).cleanups ==>
              r in s.cleanups || (a.CheckDone? && s.handler == Completing(r) && AllTasksDone(c, s.db, r))
  {
  }

  lemma CheckChangesNoRow(c: Catalog, s: Sys, r: nat)
    requires Keyed(c, s.db) && Enabled(c, s, CheckDone) && r < |s.db.dagRuns|
    ensures AllEnded(c, Next(c, s, CheckDone), r) <==> AllEnded(c, s, r)
  {
  }

  lemma StepGoneInTimeIff(c: Catalog, s: Sys, a: Action, r: nat)
    requires WellFormed(c) && Reachable(c, AnyId, s) && StartsInv(c, s) && CleanupsOk(s)
    requires Enabled(c, s, a) && GoneInTime(c, s, r)
    ensures GoneInTime(c, Next(c, s, a), r) <==> RemovesInTime(c, s, a, r)
  {
    if r < |s.db.dagRuns| {
      StepKeepsRun(c, s, a, r);
      StepKeepsEndings(c, s, a);
      if AllEnded(c, s, r) {
        EndingsKeptEnded(c, s, Next(c, s, a), r);
      }
      DoneExactlyIff(c, s, r);
      if a.CheckDone? {
        CheckChangesNoRow(c, s, r);
      }
    }
  }

  ghost predicate AlwaysGoneInTime(c: Catalog, s: Sys, actions: seq<Action>, t: Sys, r: nat)
    requires Runs(c, AnyId, s, actions, t)
    decreases |actions|
  {
    GoneInTime(c, s, r) && (actions != [] ==> AlwaysGoneInTime(c, Next(c, s, actions[0]), actions[1..], t, r))
  }

  ghost predicate AlwaysRemovesInTime(c: Catalog, s: Sys, actions: seq<Action>, t: Sys, r: nat)
    requires Runs(c, AnyId, s, actions, t)
    decreases |actions|
  {
    actions != [] ==>
      RemovesInTime(c, s, actions[0], r) && AlwaysRemovesInTime(c, Next(c, s, actions[0]), actions[1..], t, r)
  }

  lemma {:induction false} GoneAlongRun(c: Catalog, s: Sys, actions: seq<Action>, t: Sys, r: nat)
    requires WellFormed(c) && Reachable(c, AnyId, s) && Runs(c, AnyId, s, actions, t) && GoneInTime(c, s, r)
    ensures AlwaysGoneInTime(c, s, actions, t, r) <==> AlwaysRemovesInTime(c, s, actions, t, r)
    decreases |actions|
  {
    if actions != [] {
      var next := Next(c, s, actions[0]);
      ReachableAny(c, AnyId, s);
      StepGoneInTimeIff(c, s, actions[0], r);
      OneStep(c, AnyId, s, actions[0]);
      ReachableOn(c, AnyId, s, [actions[0]], next);
      if GoneInTime(c, next, r) {
        GoneAlongRun(c, next, actions[1..], t, r);
      } else {
        GoneTooEarly(c, next, actions[1..], t, r);
      }
    }
  }

  lemma GoneTooEarly(c: Catalog, s: Sys, actions: seq<Action>, t: Sys, r: nat)
    requires Runs(c, AnyId, s, actions, t) && !GoneInTime(c, s, r)
    ensures !AlwaysGoneInTime(c, s, actions, t, r)
  {
  }

  /** From an empty database, with any ids: a workspace is never gone before all tasks of its run have
      ended, if and only if it is never removed when one of them has ended twice. */
  lemma GoneInTimeIff(c: Catalog, actions: seq<Action>, t: Sys, r: nat)
    requires WellFormed(c) && Runs(c, AnyId, Initial(), actions, t)
    ensures AlwaysGoneInTime(c, Initial(), actions, t, r) <==> AlwaysRemovesInTime(c, Initial(), actions, t, r)
  {
    assert Runs(c, AnyId, Initial(), [], Initial());
    GoneAlongRun(c, Initial(), actions, t, r);
  }
}
