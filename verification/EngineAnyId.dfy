/** What holds whatever ids successes pass to the last query, those the code passes included: how runs
    are started. */
module EngineAnyId {
  import opened Prelude
  import opened Graphs
  import opened Tables
  import opened RunProgress
  import opened RunnableTasks
  import opened Claims
  import opened Store
  import opened Engine
  import opened RowFacts
  import opened EngineSteps
  import opened EngineOutcomes
  import opened EngineStarts

  ghost predicate ClaimsPending(rows: seq<TaskRun>) {
    forall i :: 0 <= i < |rows| && rows[i].claim.Some? ==> rows[i].status == Pending
  }

  /** The event loop enqueues no starting task. */
  ghost predicate NoRootsTodo(c: Catalog, s: Sys) {
    s.handler.Enqueueing? && s.handler.run < |s.db.dagRuns| ==> Elements(s.handler.todo) !! RootsOf(c, s, s.handler.run)
  }

  ghost predicate StartsInv(c: Catalog, s: Sys) {
    AllStartsOk(c, s) && HandlerOk(s) && ClaimsPending(s.db.taskRuns) && NoRootsTodo(c, s)
  }

  // ----- The searches find no starting task -----

  lemma NextIdsAreNoRoots(c: Catalog, s: Sys, id: nat, k: nat)
    requires Keyed(c, s.db) && id < |s.db.taskRuns|
    ensures NextIds(c, s.db, id, k) !! RootsOf(c, s, s.db.taskRuns[id].runId)
  {
    var r := s.db.taskRuns[id].runId;
    forall t | t in NextIds(c, s.db, id, k) ensures t !in RootsOf(c, s, r) {
      DepCountPositive(c.deps, t);
      DepsAreRows(c, s.db.dagRuns[r].dagId, t);
      var i :| 0 <= i < |c.deps| && c.deps[i].taskId == t;
      assert c.deps[i].dependsOn in DepsOf(GraphOf(c, s, r), t);
    }
  }

  lemma SuspendedAreNoRoots(c: Catalog, s: Sys, backend: Backend, r: nat, id: nat)
    requires r < |s.db.dagRuns| && id < |s.db.taskRuns|
    ensures SuspendedBy(c, s.db, backend, r, id) !! RootsOf(c, s, r)
  {
    var g, rows, failed := GraphOf(c, s, r), TasksIn(s.db.taskRuns, r), s.db.taskRuns[id].taskId;
    OrphansAreNoRoots(g, rows, failed);
    forall t | t in RowlessOrphans(g, rows, failed) ensures t !in Roots(g) {
      var walk :| RowlessWalk(g, rows, walk, t, failed);
      assert (walk[0], walk[0 + 1]) in g.needs;
      assert walk[1] in DepsOf(g, t);
    }
  }

  // ----- Every step keeps it -----

  lemma ClaimStepKeepsStarts(c: Catalog, s: Sys, a: Action)
    requires StartsInv(c, s) && Enabled(c, s, a)
    requires a.ClaimTasks? || a.Renew? || a.Recover? || a.Finalise? || a.ClaimRetry?
    ensures StartsInv(c, Next(c, s, a))
  {
    var t := Next(c, s, a);
    var rows, after := s.db.taskRuns, t.db.taskRuns;
    forall i | 0 <= i < |rows| ensures RowStutters(rows[i], after[i]) {}
    StutterKeepsStarts(c, s, WithRows(s, after));
    if a.ClaimRetry? {
      SameTablesKeepStarts(c, WithRows(s, after), t);
    }
  }

  lemma SucceedStepKeepsStarts(c: Catalog, s: Sys, id: nat, k: nat, next: seq<nat>)
    requires StartsInv(c, s) && Enabled(c, s, Succeed(id, k, next))
    ensures StartsInv(c, DoSucceed(c, s, id, next))
  {
    SucceedKeepsStarts(c, s, id, next);
    NextIdsAreNoRoots(c, s, id, k);
  }

  lemma EnqueueStepKeepsStarts(c: Catalog, s: Sys)
    requires StartsInv(c, s) && Enabled(c, s, EnqueueOne)
    ensures StartsInv(c, DoEnqueueOne(s))
  {
    var todo := s.handler.todo;
    assert todo[0] in Elements(todo);
    InsertKeepsStarts(c, s, DoEnqueueOne(s), s.handler.run, todo[0]);
    assert Elements(todo[1..]) <= Elements(todo);
  }

  lemma SuspendStepKeepsStarts(c: Catalog, s: Sys, backend: Backend, found: seq<nat>)
    requires StartsInv(c, s) && Enabled(c, s, SuspendBelow(backend, found))
    ensures StartsInv(c, DoSuspend(s, found))
  {
    SuspendedAreNoRoots(c, s, backend, s.handler.run, s.handler.id);
    SuspendKeepsStarts(c, s, found, s.handler.run);
  }

  lemma RetryStepKeepsStarts(c: Catalog, s: Sys, id: nat)
    requires StartsInv(c, s) && Enabled(c, s, Retry(id))
    ensures StartsInv(c, DoRetry(s, id))
  {
    MemberIn(s.db.taskRuns, id);
    InsertKeepsStarts(c, s, DoRetry(s, id), s.db.taskRuns[id].runId, s.db.taskRuns[id].taskId);
  }

  lemma StartRunStepKeepsStarts(c: Catalog, s: Sys, name: string, dagName: string)
    requires StartsInv(c, s) && Enabled(c, s, StartRun(name, dagName))
    ensures StartsInv(c, DoStartRun(s, name, dagName))
  {
    if FindRun(s.db.dagRuns, name).Some? {
      ControllerKeepsStarts(c, s, DoStartRun(s, name, dagName));
    } else {
      NewRunStarts(c, s, name, dagName);
    }
  }

  lemma ListingStepKeepsStarts(c: Catalog, s: Sys, a: Action)
    requires StartsInv(c, s) && Enabled(c, s, a)
    requires a.Publish? || a.ListStarting? || a.CheckOne? || a.Crash?
    ensures StartsInv(c, Next(c, s, a))
  {
    if a.CheckOne? {
      var todo := s.controller.todo;
      assert Elements(todo) == {todo[0]} + Elements(todo[1..]);
    }
    ControllerKeepsStarts(c, s, Next(c, s, a));
  }

  lemma StepKeepsStarts(c: Catalog, s: Sys, a: Action)
    requires StartsInv(c, s) && Enabled(c, s, a)
    ensures StartsInv(c, Next(c, s, a))
  {
    match a {
      case Succeed(id, k, next) => SucceedStepKeepsStarts(c, s, id, k, next);
      case EnqueueOne => EnqueueStepKeepsStarts(c, s);
      case Fail(id) => FailKeepsStarts(c, s, id);
      case SuspendBelow(backend, found) => SuspendStepKeepsStarts(c, s, backend, found);
      case Retry(id) => RetryStepKeepsStarts(c, s, id);
      case CheckDone => SameTablesKeepStarts(c, s, DoCheckDone(c, s));
      case StartRun(name, dagName) => StartRunStepKeepsStarts(c, s, name, dagName);
      case InsertOne => InsertRootStarts(c, s);
      case Publish(_, _) => ListingStepKeepsStarts(c, s, a);
      case ListStarting(_) => ListingStepKeepsStarts(c, s, a);
      case CheckOne => ListingStepKeepsStarts(c, s, a);
      case Crash => ListingStepKeepsStarts(c, s, a);
      case _ => ClaimStepKeepsStarts(c, s, a);
    }
  }

  lemma {:induction false} RunKeepsStarts(c: Catalog, ids: Ids, s: Sys, actions: seq<Action>, t: Sys)
    requires StartsInv(c, s) && Runs(c, ids, s, actions, t)
    ensures StartsInv(c, t)
    decreases |actions|
  {
    if actions != [] {
      StepKeepsStarts(c, s, actions[0]);
      RunKeepsStarts(c, ids, Next(c, s, actions[0]), actions[1..], t);
    }
  }

  lemma ReachableStarts(c: Catalog, ids: Ids, s: Sys)
    requires Reachable(c, ids, s)
    ensures StartsInv(c, s)
  {
    var actions :| Runs(c, ids, Initial(), actions, s);
    RunKeepsStarts(c, ids, Initial(), actions, s);
  }

  // ----- Starting a run -----

  /** However often and wherever Reconcile was cut off: one run per name, and at most one row of the
      controller's per starting task, the task's first. */
  lemma StartsAtMostOnce(c: Catalog, s: Sys)
    requires Reachable(c, AnyId, s)
    ensures forall q, r :: 0 <= q < r < |s.db.dagRuns| ==> s.db.dagRuns[q].name != s.db.dagRuns[r].name
    ensures forall i, j :: i in s.fromController && 0 <= j < i ==>
              i < |s.db.taskRuns| && !SameKey(s.db.taskRuns[j], s.db.taskRuns[i])
  {
    ReachableStarts(c, AnyId, s);
    forall i, j | i in s.fromController && 0 <= j < i
      ensures i < |s.db.taskRuns| && !SameKey(s.db.taskRuns[j], s.db.taskRuns[i])
    {
      assert FirstOfRoot(c, s, i);
    }
  }

  /** Of the starting tasks, exactly those have a row that have one of the controller's. */
  lemma RootRowsAreControllerRows(c: Catalog, s: Sys, r: nat, t: nat)
    requires Reachable(c, AnyId, s) && r < |s.db.dagRuns| && t in RootsOf(c, s, r)
    ensures t in TasksIn(s.db.taskRuns, r) <==> ControllerRow(s, r, t)
  {
    ReachableStarts(c, AnyId, s);
  }

  // ----- An attempt on a version that may be outdated -----

  function AttemptOf(controller: Controller): Option<(nat, bool)> {
    match controller
    case Listing(run, full, _) => Some((run, full))
    case Inserting(run, full, _, _) => Some((run, full))
    case _ => None
  }

  /** Rows and runs keep their keys, an attempt stays the same until it is cut off, and one that has
      listed nothing inserts nothing. */
  ghost predicate SameAttempt(s: Sys, t: Sys) {
    && SameKeys(s.db.taskRuns, t.db.taskRuns) && |s.db.dagRuns| <= |t.db.dagRuns|
    && (forall r :: 0 <= r < |s.db.dagRuns| ==> t.db.dagRuns[r].dagId == s.db.dagRuns[r].dagId)
    && (AttemptOf(s.controller).Some? ==> AttemptOf(t.controller) == AttemptOf(s.controller))
    && (s.controller.Listing? && s.controller.todo == [] ==>
        t.controller == s.controller && t.fromController == s.fromController)
  }

  lemma StepSameAttempt(c: Catalog, s: Sys, a: Action)
    requires Keyed(c, s.db) && Enabled(c, s, a) && a != Crash
    ensures SameAttempt(s, Next(c, s, a))
  {
  }

  lemma {:induction false} RunSameAttempt(c: Catalog, s: Sys, actions: seq<Action>, t: Sys)
    requires Runs(c, AnyId, s, actions, t) && Crash !in actions
    ensures SameAttempt(s, t)
    decreases |actions|
  {
    if actions != [] {
      StepSameAttempt(c, s, actions[0]);
      RunSameAttempt(c, Next(c, s, actions[0]), actions[1..], t);
    }
  }

  /** Starting tasks get rows from the controller only. */
  lemma NoNewRootRows(c: Catalog, s: Sys, t: Sys, r: nat, x: nat)
    requires StartsInv(c, s) && StartsInv(c, t) && r < |s.db.dagRuns| <= |t.db.dagRuns| && x in RootsOf(c, s, r)
    requires SameKeys(s.db.taskRuns, t.db.taskRuns) && t.fromController == s.fromController
    requires t.db.dagRuns[r].dagId == s.db.dagRuns[r].dagId
    ensures x in TasksIn(t.db.taskRuns, r) <==> x in TasksIn(s.db.taskRuns, r)
  {
    if x in TasksIn(s.db.taskRuns, r) {
      var i :| 0 <= i < |s.db.taskRuns| && s.db.taskRuns[i].runId == r && s.db.taskRuns[i].taskId == x;
      assert SameKey(s.db.taskRuns[i], t.db.taskRuns[i]);
      MemberIn(t.db.taskRuns, i);
    }
    if x in TasksIn(t.db.taskRuns, r) {
      assert ControllerRow(t, r, x);
      var i :| i in t.fromController && i < |t.db.taskRuns| && t.db.taskRuns[i].runId == r
          && t.db.taskRuns[i].taskId == x;
      assert FirstOfRoot(c, s, i);
      assert SameKey(s.db.taskRuns[i], t.db.taskRuns[i]);
      MemberIn(s.db.taskRuns, i);
    }
  }

  /** The rest of an attempt from its listing on, to the end of its list, with anybody's steps in between:
      every starting task has a row then if and only if the run's version was the latest when the tasks
      were listed, or they all had rows already. */
  lemma AttemptStartsAllIff(c: Catalog, s: Sys, tasks: seq<nat>, actions: seq<Action>, t: Sys, r: nat)
    requires Reachable(c, AnyId, s) && Keyed(c, s.db) && Enabled(c, s, ListStarting(tasks)) && s.controller.run == r
    requires Runs(c, AnyId, Next(c, s, ListStarting(tasks)), actions, t) && Crash !in actions
    requires t.controller.Listing? && t.controller.todo == []
    ensures r < |t.db.dagRuns|
    ensures RootsOf(c, t, r) <= TasksIn(t.db.taskRuns, r) <==>
            OwnVersionListed(s, r, s.controller.dagName) || RootsOf(c, s, r) <= TasksIn(s.db.taskRuns, r)
  {
    var listing := Next(c, s, ListStarting(tasks));
    ReachableStarts(c, AnyId, s);
    StepKeepsStarts(c, s, ListStarting(tasks));
    RunKeepsStarts(c, AnyId, listing, actions, t);
    RunSameAttempt(c, listing, actions, t);
    if OwnVersionListed(s, r, s.controller.dagName) {
      FullAttemptDone(c, t, r);
    } else {
      assert Elements(tasks) == {};
      NoElements(tasks);
      forall x | x in RootsOf(c, s, r) ensures x in TasksIn(t.db.taskRuns, r) <==> x in TasksIn(s.db.taskRuns, r) {
        NoNewRootRows(c, listing, t, r, x);
      }
    }
  }

  lemma NoElements(s: seq<nat>)
    ensures s != [] ==> Elements(s) != {}
  {
    if s != [] {
      assert s[0] in Elements(s);
    }
  }

  lemma FullAttemptDone(c: Catalog, t: Sys, r: nat)
    requires ControllerOk(c, t) && t.controller == Listing(r, true, [])
    ensures r < |t.db.dagRuns| && RootsOf(c, t, r) <= TasksIn(t.db.taskRuns, r)
  {
  }

  // ----- A run nobody will touch again -----

  /** No row of the run is pending or running, but for those that a retry replaced. */
  ghost predicate NothingLeft(s: Sys, r: nat) {
    forall i :: 0 <= i < |s.db.taskRuns| && s.db.taskRuns[i].runId == r ==>
      Terminal(s.db.taskRuns[i].status) || (s.db.taskRuns[i].status == Running && i in s.retired)
  }

  /** Its starting tasks are enqueued, nothing is left of it, and the event loop is not busy with it. */
  ghost predicate Settled(c: Catalog, s: Sys, r: nat) {
    && r < |s.db.dagRuns| && RootsOf(c, s, r) <= TasksIn(s.db.taskRuns, r) && NothingLeft(s, r)
    && (s.handler.Enqueueing? || s.handler.Failing? || s.handler.Completing? ==> s.handler.run != r)
    && (s.handler.Retrying? && s.handler.id < |s.db.taskRuns| ==> s.db.taskRuns[s.handler.id].runId != r)
  }

  /** The rows of run r are the same, and none is new. */
  ghost predicate RowsUntouched(rows: seq<TaskRun>, after: seq<TaskRun>, r: nat) {
    && |rows| <= |after|
    && (forall i :: 0 <= i < |rows| ==>
          after[i].runId == rows[i].runId && (rows[i].runId == r ==> after[i] == rows[i]))
    && forall i :: |rows| <= i < |after| ==> after[i].runId != r
  }

  ghost predicate RunUntouched(s: Sys, t: Sys, r: nat) {
    && r < |s.db.dagRuns| <= |t.db.dagRuns| && t.db.dagRuns[r] == s.db.dagRuns[r]
    && RowsUntouched(s.db.taskRuns, t.db.taskRuns, r)
  }

  lemma ClaimsLeaveSettled(c: Catalog, s: Sys, a: Action, r: nat)
    requires StartsInv(c, s) && Settled(c, s, r) && Enabled(c, s, a)
    requires a.ClaimTasks? || a.Renew? || a.Recover? || a.Finalise? || a.ClaimRetry?
    ensures RunUntouched(s, Next(c, s, a), r)
  {
  }

  lemma SuspendLeavesOthers(rows: seq<TaskRun>, run: nat, found: seq<nat>, r: nat)
    requires run != r
    ensures RowsUntouched(rows, rows + SuspendedRows(run, found), r)
  {
  }

  lemma StepLeavesSettled(c: Catalog, s: Sys, a: Action, r: nat)
    requires StartsInv(c, s) && Settled(c, s, r) && Enabled(c, s, a)
    ensures RunUntouched(s, Next(c, s, a), r)
  {
    if a.ClaimTasks? || a.Renew? || a.Recover? || a.Finalise? || a.ClaimRetry? {
      ClaimsLeaveSettled(c, s, a, r);
    } else if a.SuspendBelow? {
      SuspendLeavesOthers(s.db.taskRuns, s.handler.run, a.found, r);
    }
  }

  lemma StaysSettled(c: Catalog, s: Sys, a: Action, r: nat)
    requires StartsInv(c, s) && Settled(c, s, r) && Enabled(c, s, a)
    ensures Settled(c, Next(c, s, a), r)
  {
    var t := Next(c, s, a);
    StepLeavesSettled(c, s, a, r);
    forall x | x in RootsOf(c, t, r) ensures x in TasksIn(t.db.taskRuns, r) {
      var i :| 0 <= i < |s.db.taskRuns| && s.db.taskRuns[i].runId == r && s.db.taskRuns[i].taskId == x;
      assert t.db.taskRuns[i] == s.db.taskRuns[i];
    }
  }

  /** Whatever anybody does later, with whatever ids: the run's rows, counters and status are final. */
  lemma {:induction false} SettledForGood(c: Catalog, s: Sys, actions: seq<Action>, t: Sys, r: nat)
    requires StartsInv(c, s) && Settled(c, s, r) && Runs(c, AnyId, s, actions, t)
    ensures RunUntouched(s, t, r)
    decreases |actions|
  {
    if actions != [] {
      var next := Next(c, s, actions[0]);
      StepLeavesSettled(c, s, actions[0], r);
      StaysSettled(c, s, actions[0], r);
      StepKeepsStarts(c, s, actions[0]);
      SettledForGood(c, next, actions[1..], t, r);
    }
  }

  lemma AlwaysUntouched(c: Catalog, s: Sys, r: nat)
    requires StartsInv(c, s) && Settled(c, s, r)
    ensures forall actions, t :: Runs(c, AnyId, s, actions, t) ==> RunUntouched(s, t, r)
  {
    forall actions, t | Runs(c, AnyId, s, actions, t) ensures RunUntouched(s, t, r) {
      SettledForGood(c, s, actions, t, r);
    }
  }
}
