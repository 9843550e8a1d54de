/** Dependency order and rows without duplicates, over runs with any ids: each holds in every state of a
    run exactly if no step of the run makes one certain mistake. */
module EngineOrder {
  import opened Prelude
  import opened Graphs
  import opened Tables
  import opened RunProgress
  import opened RunnableTasks
  import opened Claims
  import opened Store
  import opened Engine
  import opened RowFacts
  import opened EngineSteps
  import opened EngineOutcomes
  import opened EngineStarts
  import opened EngineAnyId

  // ----- Dependency order -----

  ghost predicate RowsInOrder(g: Dag, rows: seq<TaskRun>, r: nat) {
    forall i :: 0 <= i < |rows| && rows[i].runId == r && rows[i].status != Suspended ==>
      DepsOf(g, rows[i].taskId) <= TasksWith(rows, r, Success)
  }

  ghost predicate TodoInOrder(g: Dag, rows: seq<TaskRun>, r: nat, duty: Duty) {
    forall t :: t in Todo(duty) ==> DepsOf(g, t) <= TasksWith(rows, r, Success)
  }

  /** Whatever of run r has a row that is not a suspended one, or is to be enqueued, has succeeded
      dependencies only. */
  ghost predicate InOrder(c: Catalog, s: Sys, r: nat) {
    r < |s.db.dagRuns| ==>
      RowsInOrder(GraphOf(c, s, r), s.db.taskRuns, r) && TodoInOrder(GraphOf(c, s, r), s.db.taskRuns, r, DutyOf(s, r))
  }

  /** Then everything above such a row has succeeded, at any distance. */
  lemma InOrderAbove(c: Catalog, s: Sys, r: nat, i: nat, d: nat)
    requires InOrder(c, s, r) && r < |s.db.dagRuns| && i < |s.db.taskRuns|
    requires s.db.taskRuns[i].runId == r && s.db.taskRuns[i].status != Suspended
    requires Reaches(GraphOf(c, s, r).needs, s.db.taskRuns[i].taskId, d)
    ensures d in TasksWith(s.db.taskRuns, r, Success)
  {
    var g, rows := GraphOf(c, s, r), s.db.taskRuns;
    var walk :| IsWalkBetween(g.needs, walk, rows[i].taskId, d);
    var k: nat, at: nat := 0, i;
    while k < |walk| - 1
      invariant 0 <= k < |walk| && at < |rows|
      invariant rows[at].runId == r && rows[at].taskId == walk[k] && rows[at].status != Suspended
      invariant k > 0 ==> walk[k] in TasksWith(rows, r, Success)
    {
      assert (walk[k], walk[k + 1]) in g.needs;
      assert walk[k + 1] in DepsOf(g, rows[at].taskId);
      k := k + 1;
      at :| at < |rows| && rows[at].runId == r && rows[at].status == Success && rows[at].taskId == walk[k];
    }
  }

  /** Old keys in order and new ones with succeeded dependencies give rows in order. */
  lemma OrderKept(g: Dag, rows: seq<TaskRun>, after: seq<TaskRun>, r: nat, extra: set<nat>)
    requires RowsInOrder(g, rows, r) && TasksWith(rows, r, Success) <= TasksWith(after, r, Success)
    requires forall i :: 0 <= i < |after| && after[i].runId == r && after[i].status != Suspended ==>
               OldTask(rows, after[i]) || after[i].taskId in extra
    requires forall t :: t in extra ==> DepsOf(g, t) <= TasksWith(rows, r, Success)
    ensures RowsInOrder(g, after, r)
  {
    forall i | 0 <= i < |after| && after[i].runId == r && after[i].status != Suspended
      ensures DepsOf(g, after[i].taskId) <= TasksWith(after, r, Success)
    {
      if OldTask(rows, after[i]) {
        var j :| 0 <= j < |rows| && SameKey(rows[j], after[i]) && rows[j].status != Suspended;
      }
    }
  }

  ghost predicate OldTask(rows: seq<TaskRun>, row: TaskRun) {
    exists j :: 0 <= j < |rows| && SameKey(rows[j], row) && rows[j].status != Suspended
  }

  lemma AppendInOrder(g: Dag, rows: seq<TaskRun>, run: nat, task: nat, r: nat)
    requires RowsInOrder(g, rows, r)
    requires run == r ==> OldTask(rows, NewRow(run, task, Pending)) || DepsOf(g, task) <= TasksWith(rows, r, Success)
    ensures RowsInOrder(g, rows + [NewRow(run, task, Pending)], r)
    ensures TasksWith(rows + [NewRow(run, task, Pending)], r, Success) == TasksWith(rows, r, Success)
  {
    var row := NewRow(run, task, Pending);
    var after := rows + [row];
    var extra := if run == r && !OldTask(rows, row) then {task} else {};
    AppendOne(rows, row, r, Success);
    forall i | 0 <= i < |after| && after[i].runId == r && after[i].status != Suspended
      ensures OldTask(rows, after[i]) || after[i].taskId in extra
    {
      if i < |rows| {
        assert SameKey(rows[i], after[i]);
      }
    }
    OrderKept(g, rows, after, r, extra);
  }

  lemma FinishInOrder(g: Dag, rows: seq<TaskRun>, id: nat, status: Status, r: nat)
    requires RowsInOrder(g, rows, r) && id < |rows| && rows[id].status == Running
             && (status == Success || status == Failed)
    ensures RowsInOrder(g, WithStatus(rows, id, status), r)
    ensures TasksWith(rows, r, Success) <= TasksWith(WithStatus(rows, id, status), r, Success)
  {
    var after := WithStatus(rows, id, status);
    Finish(rows, id, status, r);
    forall i | 0 <= i < |after| && after[i].runId == r && after[i].status != Suspended ensures OldTask(rows, after[i]) {
      assert SameKey(rows[i], after[i]) && rows[i].status != Suspended;
    }
    OrderKept(g, rows, after, r, {});
  }

  lemma SuspendInOrder(g: Dag, rows: seq<TaskRun>, run: nat, found: seq<nat>, r: nat)
    requires RowsInOrder(g, rows, r)
    ensures RowsInOrder(g, rows + SuspendedRows(run, found), r)
  {
    var after := rows + SuspendedRows(run, found);
    AppendSuspended(rows, run, found, r);
    assert ProgressOf(after, r).succeeded == ProgressOf(rows, r).succeeded;
    forall i | 0 <= i < |after| && after[i].runId == r && after[i].status != Suspended ensures OldTask(rows, after[i]) {
      if i < |rows| {
        assert SameKey(rows[i], after[i]);
      }
    }
    OrderKept(g, rows, after, r, {});
  }

  lemma StutterInOrder(g: Dag, rows: seq<TaskRun>, after: seq<TaskRun>, r: nat)
    requires RowsInOrder(g, rows, r) && Stutters(rows, after)
    ensures RowsInOrder(g, after, r) && TasksWith(after, r, Success) == TasksWith(rows, r, Success)
  {
    StutterKeepsProgress(rows, after, r);
    assert ProgressOf(after, r).succeeded == ProgressOf(rows, r).succeeded;
    forall i | 0 <= i < |after| && after[i].runId == r && after[i].status != Suspended ensures OldTask(rows, after[i]) {
      assert RowStutters(rows[i], after[i]);
    }
    OrderKept(g, rows, after, r, {});
  }

  /** The one mistake: returning a task one of whose dependencies has two success rows. */
  ghost predicate ReturnsInOrder(c: Catalog, s: Sys, a: Action, r: nat)
    requires Keyed(c, s.db) && Enabled(c, s, a)
  {
    a.Succeed? && s.db.taskRuns[a.id].runId == r ==>
      NoneTooEarly(c, MarkSuccess(c, s.db, a.id).taskRuns, s.db.dagRuns[r].dagId, r, Elements(a.next))
  }

  lemma SucceedOrderIff(c: Catalog, s: Sys, id: nat, k: nat, next: seq<nat>, r: nat)
    requires Keyed(c, s.db) && Enabled(c, s, Succeed(id, k, next)) && r < |s.db.dagRuns| && InOrder(c, s, r)
    ensures InOrder(c, DoSucceed(c, s, id, next), r) <==> ReturnsInOrder(c, s, Succeed(id, k, next), r)
  {
    var t, g := DoSucceed(c, s, id, next), GraphOf(c, s, r);
    FinishInOrder(g, s.db.taskRuns, id, Success, r);
    assert GraphOf(c, t, r) == g;
    if s.db.taskRuns[id].runId == r {
      NextIdsAgainstRows(c, s.db, id, k);
      NoElements(next);
      assert Todo(DutyOf(t, r)) == Elements(next);
    } else {
      assert DutyOf(t, r) == Nothing;
    }
  }

  lemma EnqueueOrder(c: Catalog, s: Sys, r: nat)
    requires s.handler.Enqueueing? && s.handler.todo != [] && r < |s.db.dagRuns| && InOrder(c, s, r)
    ensures InOrder(c, DoEnqueueOne(s), r)
  {
    var todo, t := s.handler.todo, DoEnqueueOne(s);
    assert todo[0] in Elements(todo) && Elements(todo[1..]) <= Elements(todo);
    AppendInOrder(GraphOf(c, s, r), s.db.taskRuns, s.handler.run, todo[0], r);
    assert Todo(DutyOf(t, r)) <= Todo(DutyOf(s, r));
  }

  lemma RetryOrder(c: Catalog, s: Sys, id: nat, r: nat)
    requires s.handler == Idle && Live(s, id) && r < |s.db.dagRuns| && InOrder(c, s, r)
    ensures InOrder(c, DoRetry(s, id), r)
  {
    var row := s.db.taskRuns[id];
    assert SameKey(row, NewRow(row.runId, row.taskId, Pending));
    AppendInOrder(GraphOf(c, s, r), s.db.taskRuns, row.runId, row.taskId, r);
    assert DutyOf(DoRetry(s, id), r) == Nothing;
  }

  lemma InsertOrder(c: Catalog, s: Sys, r: nat)
    requires StartsInv(c, s) && s.controller.Inserting? && r < |s.db.dagRuns| && InOrder(c, s, r)
    ensures InOrder(c, DoInsertOne(s), r)
  {
    AppendInOrder(GraphOf(c, s, r), s.db.taskRuns, s.controller.run, s.controller.task, r);
    assert Todo(DutyOf(DoInsertOne(s), r)) == Todo(DutyOf(s, r));
  }

  lemma SuspendOrder(c: Catalog, s: Sys, found: seq<nat>, r: nat)
    requires s.handler.Failing? && s.handler.run < |s.db.dagRuns| && r < |s.db.dagRuns| && InOrder(c, s, r)
    ensures InOrder(c, DoSuspend(s, found), r)
  {
    SuspendInOrder(GraphOf(c, s, r), s.db.taskRuns, s.handler.run, found, r);
    assert DutyOf(DoSuspend(s, found), r) == Nothing;
  }

  lemma FailOrder(c: Catalog, s: Sys, id: nat, r: nat)
    requires Keyed(c, s.db) && s.handler == Idle && Live(s, id) && r < |s.db.dagRuns| && InOrder(c, s, r)
    ensures InOrder(c, DoFail(c, s, id), r)
  {
    FinishInOrder(GraphOf(c, s, r), s.db.taskRuns, id, Failed, r);
    assert Todo(DutyOf(DoFail(c, s, id), r)) == {};
  }

  lemma ClaimOrder(c: Catalog, s: Sys, a: Action, r: nat)
    requires StartsInv(c, s) && Enabled(c, s, a) && r < |s.db.dagRuns| && InOrder(c, s, r)
    requires a.ClaimTasks? || a.Renew? || a.Recover? || a.Finalise? || a.ClaimRetry?
    ensures InOrder(c, Next(c, s, a), r)
  {
    var t := Next(c, s, a);
    var rows, after := s.db.taskRuns, t.db.taskRuns;
    forall i | 0 <= i < |rows| ensures RowStutters(rows[i], after[i]) {}
    StutterInOrder(GraphOf(c, s, r), rows, after, r);
    assert Todo(DutyOf(t, r)) == Todo(DutyOf(s, r));
  }

  /** A run without rows is in order. */
  lemma StartOrder(c: Catalog, s: Sys, name: string, dagName: string, r: nat)
    requires StartsInv(c, s) && Enabled(c, s, StartRun(name, dagName)) && InOrder(c, s, r)
    ensures InOrder(c, DoStartRun(s, name, dagName), r)
  {
    if r < |s.db.dagRuns| {
      assert DutyOf(DoStartRun(s, name, dagName), r) == DutyOf(s, r);
    } else {
      assert DutyOf(DoStartRun(s, name, dagName), r) == Nothing;
    }
  }

  lemma StepKeepsOrderIff(c: Catalog, s: Sys, a: Action, r: nat)
    requires StartsInv(c, s) && Enabled(c, s, a) && InOrder(c, s, r)
    ensures InOrder(c, Next(c, s, a), r) <==> ReturnsInOrder(c, s, a, r)
  {
    if a.StartRun? {
      StartOrder(c, s, a.name, a.dagName, r);
    } else if r < |s.db.dagRuns| {
      OldRunOrderIff(c, s, a, r);
    }
  }

  lemma OldRunOrderIff(c: Catalog, s: Sys, a: Action, r: nat)
    requires StartsInv(c, s) && Enabled(c, s, a) && r < |s.db.dagRuns| && InOrder(c, s, r) && !a.StartRun?
    ensures InOrder(c, Next(c, s, a), r) <==> ReturnsInOrder(c, s, a, r)
  {
    match a {
      case Succeed(id, k, next) => SucceedOrderIff(c, s, id, k, next, r);
      case EnqueueOne => EnqueueOrder(c, s, r);
      case Fail(id) => FailOrder(c, s, id, r);
      case SuspendBelow(_, found) => SuspendOrder(c, s, found, r);
      case Retry(id) => RetryOrder(c, s, id, r);
      case InsertOne => InsertOrder(c, s, r);
      case CheckDone => SameRowsOrder(c, s, Next(c, s, a), r);
      case Publish(_, _) => SameRowsOrder(c, s, Next(c, s, a), r);
      case ListStarting(_) => SameRowsOrder(c, s, Next(c, s, a), r);
      case CheckOne => SameRowsOrder(c, s, Next(c, s, a), r);
      case Crash => SameRowsOrder(c, s, Next(c, s, a), r);
      case _ => ClaimOrder(c, s, a, r);
    }
  }

  lemma SameRowsOrder(c: Catalog, s: Sys, t: Sys, r: nat)
    requires r < |s.db.dagRuns| && InOrder(c, s, r) && t.db == s.db && (t.handler == s.handler || t.handler == Idle)
    ensures InOrder(c, t, r)
  {
    assert Todo(DutyOf(t, r)) <= Todo(DutyOf(s, r));
  }

  ghost predicate AlwaysInOrder(c: Catalog, ids: Ids, s: Sys, actions: seq<Action>, t: Sys, r: nat)
    requires Runs(c, ids, s, actions, t)
    decreases |actions|
  {
    InOrder(c, s, r) && (actions != [] ==> AlwaysInOrder(c, ids, Next(c, s, actions[0]), actions[1..], t, r))
  }

  ghost predicate AlwaysReturnsInOrder(c: Catalog, ids: Ids, s: Sys, actions: seq<Action>, t: Sys, r: nat)
    requires Runs(c, ids, s, actions, t)
    decreases |actions|
  {
    actions != [] ==>
      && ReturnsInOrder(c, s, actions[0], r)
      && AlwaysReturnsInOrder(c, ids, Next(c, s, actions[0]), actions[1..], t, r)
  }

  lemma {:induction false} OrderAlongRun(c: Catalog, ids: Ids, s: Sys, actions: seq<Action>, t: Sys, r: nat)
    requires StartsInv(c, s) && InOrder(c, s, r) && Runs(c, ids, s, actions, t)
    ensures AlwaysInOrder(c, ids, s, actions, t, r) <==> AlwaysReturnsInOrder(c, ids, s, actions, t, r)
    decreases |actions|
  {
    if actions != [] {
      var next := Next(c, s, actions[0]);
      StepKeepsOrderIff(c, s, actions[0], r);
      StepKeepsStarts(c, s, actions[0]);
      if InOrder(c, next, r) {
        OrderAlongRun(c, ids, next, actions[1..], t, r);
      } else {
        LostOrder(c, ids, next, actions[1..], t, r);
      }
    }
  }

  lemma LostOrder(c: Catalog, ids: Ids, s: Sys, actions: seq<Action>, t: Sys, r: nat)
    requires Runs(c, ids, s, actions, t) && !InOrder(c, s, r)
    ensures !AlwaysInOrder(c, ids, s, actions, t, r)
  {
  }

  /** From an empty database, with any ids: dependency order holds in every state of a run if and only if
      no success in it returns a task one of whose dependencies then has two success rows. */
  lemma DependencyOrderIff(c: Catalog, ids: Ids, actions: seq<Action>, t: Sys, r: nat)
    requires Runs(c, ids, Initial(), actions, t)
    ensures AlwaysInOrder(c, ids, Initial(), actions, t, r) <==> AlwaysReturnsInOrder(c, ids, Initial(), actions, t, r)
  {
    OrderAlongRun(c, ids, Initial(), actions, t, r);
  }

  // ----- No second row for a task -----

  /** The one mistake: enqueueing a task that has a row already. */
  ghost predicate EnqueuesFresh(s: Sys, a: Action) {
    a.EnqueueOne? && s.handler.Enqueueing? && s.handler.todo != [] ==>
      s.handler.todo[0] !in TasksIn(s.db.taskRuns, s.handler.run)
  }

  lemma SecondRow(rows: seq<TaskRun>, retired: set<nat>, run: nat, task: nat)
    requires RowsOk(rows, retired) && task in TasksIn(rows, run)
    ensures !RowsOk(rows + [NewRow(run, task, Pending)], retired)
  {
    var after := rows + [NewRow(run, task, Pending)];
    var i: nat :| i < |rows| && rows[i].runId == run && rows[i].taskId == task;
    var n := NewestRow(rows, i);
    NewestNotReplaced(rows, n);
    assert SameKey(after[n], after[|rows|]);
  }

  lemma NewestNotReplaced(rows: seq<TaskRun>, n: nat)
    requires n < |rows| && forall j :: n < j < |rows| ==> !SameKey(rows[n], rows[j])
    ensures !Replaced(rows, n)
  {
  }

  lemma {:induction false} NewestRow(rows: seq<TaskRun>, i: nat) returns (n: nat)
    requires i < |rows|
    ensures i <= n < |rows| && SameKey(rows[n], rows[i]) && forall j :: n < j < |rows| ==> !SameKey(rows[n], rows[j])
    decreases |rows| - i
  {
    if j :| i < j < |rows| && SameKey(rows[i], rows[j]) {
      n := NewestRow(rows, j);
    } else {
      n := i;
    }
  }

  lemma StepKeepsRowsIff(c: Catalog, s: Sys, a: Action)
    requires StartsInv(c, s) && Enabled(c, s, a) && RowsOk(s.db.taskRuns, s.retired)
    ensures RowsOk(Next(c, s, a).db.taskRuns, Next(c, s, a).retired) <==> EnqueuesFresh(s, a)
  {
    var rows, retired := s.db.taskRuns, s.retired;
    match a {
      case Succeed(id, _, _) => FinishKeepsRows(rows, retired, id, Success);
      case EnqueueOne => EnqueueRowsIff(s);
      case Fail(id) => FinishKeepsRows(rows, retired, id, Failed);
      case SuspendBelow(backend, found) => SuspendKeepsRows(c, s, backend, found);
      case Retry(id) => InsertRetry(rows, retired, id);
      case InsertOne => InsertFresh(rows, retired, s.controller.run, s.controller.task, Pending);
      case CheckDone =>
      case StartRun(_, _) =>
      case Publish(_, _) =>
      case ListStarting(_) =>
      case CheckOne =>
      case Crash =>
      case _ => ClaimsKeepRows(c, s, a);
    }
  }

  lemma EnqueueRowsIff(s: Sys)
    requires RowsOk(s.db.taskRuns, s.retired) && s.handler.Enqueueing? && s.handler.todo != []
    ensures RowsOk(DoEnqueueOne(s).db.taskRuns, s.retired) <==>
            s.handler.todo[0] !in TasksIn(s.db.taskRuns, s.handler.run)
  {
    if s.handler.todo[0] in TasksIn(s.db.taskRuns, s.handler.run) {
      SecondRow(s.db.taskRuns, s.retired, s.handler.run, s.handler.todo[0]);
    } else {
      InsertFresh(s.db.taskRuns, s.retired, s.handler.run, s.handler.todo[0], Pending);
    }
  }

  lemma SuspendKeepsRows(c: Catalog, s: Sys, backend: Backend, found: seq<nat>)
    requires Keyed(c, s.db) && Enabled(c, s, SuspendBelow(backend, found)) && RowsOk(s.db.taskRuns, s.retired)
    ensures RowsOk(DoSuspend(s, found).db.taskRuns, s.retired)
  {
    var r, rows := s.handler.run, s.db.taskRuns;
    RowlessAreOrphans(GraphOf(c, s, r), TasksIn(rows, r), rows[s.handler.id].taskId);
    forall t | t in found ensures t !in TasksIn(rows, r) {
      assert t in Elements(found);
    }
    InsertManyFresh(rows, s.retired, r, found);
  }

  lemma ClaimsKeepRows(c: Catalog, s: Sys, a: Action)
    requires StartsInv(c, s) && Enabled(c, s, a) && RowsOk(s.db.taskRuns, s.retired)
    requires a.ClaimTasks? || a.Renew? || a.Recover? || a.Finalise? || a.ClaimRetry?
    ensures RowsOk(Next(c, s, a).db.taskRuns, s.retired) && Next(c, s, a).retired == s.retired
  {
    var rows, after := s.db.taskRuns, Next(c, s, a).db.taskRuns;
    forall i | 0 <= i < |rows| ensures RowStutters(rows[i], after[i]) {}
    StutterKeepsRows(rows, after, s.retired);
  }

  ghost predicate AlwaysRowsOk(c: Catalog, ids: Ids, s: Sys, actions: seq<Action>, t: Sys)
    requires Runs(c, ids, s, actions, t)
    decreases |actions|
  {
    RowsOk(s.db.taskRuns, s.retired) && (actions != [] ==>
        AlwaysRowsOk(c, ids, Next(c, s, actions[0]), actions[1..], t))
  }

  ghost predicate AlwaysEnqueuesFresh(c: Catalog, ids: Ids, s: Sys, actions: seq<Action>, t: Sys)
    requires Runs(c, ids, s, actions, t)
    decreases |actions|
  {
    actions != [] ==>
      EnqueuesFresh(s, actions[0]) && AlwaysEnqueuesFresh(c, ids, Next(c, s, actions[0]), actions[1..], t)
  }

  lemma {:induction false} RowsAlongRun(c: Catalog, ids: Ids, s: Sys, actions: seq<Action>, t: Sys)
    requires StartsInv(c, s) && RowsOk(s.db.taskRuns, s.retired) && Runs(c, ids, s, actions, t)
    ensures AlwaysRowsOk(c, ids, s, actions, t) <==> AlwaysEnqueuesFresh(c, ids, s, actions, t)
    decreases |actions|
  {
    if actions != [] {
      var next := Next(c, s, actions[0]);
      StepKeepsRowsIff(c, s, actions[0]);
      StepKeepsStarts(c, s, actions[0]);
      if RowsOk(next.db.taskRuns, next.retired) {
        RowsAlongRun(c, ids, next, actions[1..], t);
      } else {
        LostRows(c, ids, next, actions[1..], t);
      }
    }
  }

  lemma LostRows(c: Catalog, ids: Ids, s: Sys, actions: seq<Action>, t: Sys)
    requires Runs(c, ids, s, actions, t) && !RowsOk(s.db.taskRuns, s.retired)
    ensures !AlwaysRowsOk(c, ids, s, actions, t)
  {
  }

  /** From an empty database, with any ids: in every state of a run all rows but the newest of a task are
      replaced ones, if and only if no task that has a row is ever enqueued. */
  lemma RowsOkIff(c: Catalog, ids: Ids, actions: seq<Action>, t: Sys)
    requires Runs(c, ids, Initial(), actions, t)
    ensures AlwaysRowsOk(c, ids, Initial(), actions, t) <==> AlwaysEnqueuesFresh(c, ids, Initial(), actions, t)
  {
    RowsAlongRun(c, ids, Initial(), actions, t);
  }
}
