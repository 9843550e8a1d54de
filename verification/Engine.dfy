/** The run engine as a state machine: the controller's Reconcile, the worker's event handlers cut at
    every database call, and the claim steps of any number of workers, interleaved freely. */
module Engine {
  import opened Prelude
  import opened Graphs
  import opened Tables
  import opened RunProgress
  import opened RunnableTasks
  import opened Claims
  import opened Store

  /** Where the event loop stands between two database calls. */
  datatype Handler =
    | Idle
    | Enqueueing(run: nat, todo: seq<nat>)    // allocateNextTasks, rows still to insert
    | Failing(run: nat, id: nat)              // marked failed, descendants not yet suspended
    | Retrying(id: nat)                       // retry row inserted, not yet claimed
    | Completing(run: nat)                    // about to ask whether the run is complete

  /** Where Reconcile stands. full: the listed tasks are those of the run's own DAG version. */
  datatype Controller =
    | Waiting
    | Created(run: nat, dagName: string)
    | Listing(run: nat, full: bool, todo: seq<nat>)
    | Inserting(run: nat, full: bool, task: nat, todo: seq<nat>)

  /** retired: rows whose pod has failed and that were replaced by a retry row. cleanups: the runs
      whose workspace was removed, in order. fromController: the rows Reconcile inserted. */
  datatype Sys = Sys(
    db: Db, latest: map<string, nat>, retired: set<nat>, handler: Handler, controller: Controller,
    cleanups: seq<nat>, fromController: set<nat>)

  datatype Action =
    // any worker, at any time
    | ClaimTasks(backend: Backend, ids: set<nat>, worker: string, now: int, lease: int)
    | Renew(id: nat, worker: string, lease: int)
    | Recover(now: int)
    | Finalise(id: nat, worker: string)
    // the event loop; k is the id getRunnableTasks compares run_id with
    | Succeed(id: nat, k: nat, next: seq<nat>)
    | EnqueueOne
    | Fail(id: nat)
    | SuspendBelow(backend: Backend, found: seq<nat>)
    | Retry(id: nat)
    | ClaimRetry(worker: string, now: int, lease: int)
    | CheckDone
    // the controller, and a new DAG version becoming the latest
    | Publish(name: string, dagId: nat)
    | StartRun(name: string, dagName: string)
    | ListStarting(tasks: seq<nat>)
    | CheckOne
    | InsertOne
    | Crash                                   // or return

  function Initial(): Sys {
    Sys(Db([], []), map[], {}, Idle, Waiting, [], {})
  }

  /** A pod runs for the row and its outcome has not been seen. */
  predicate Live(s: Sys, id: nat) {
    id < |s.db.taskRuns| && s.db.taskRuns[id].status == Running && id !in s.retired
  }

  /** GetStartingTasks: the latest version's tasks without dependencies, if the run is of that version. */
  predicate OwnVersionListed(s: Sys, run: nat, dagName: string)
    requires run < |s.db.dagRuns|
  {
    dagName in s.latest && s.latest[dagName] == s.db.dagRuns[run].dagId
  }

  ghost predicate Enabled(c: Catalog, s: Sys, a: Action)
    requires Keyed(c, s.db)
  {
    match a
    case ClaimTasks(backend, ids, _, now, _) =>
      forall i :: i in ids ==> i < |s.db.taskRuns| && Claimable(backend, s.db.taskRuns[i], now)
    case Renew(id, _, _) => id < |s.db.taskRuns|
    case Recover(_) => true
    case Finalise(id, worker) => id < |s.db.taskRuns| && ClaimedBy(s.db.taskRuns[id], worker)
    case Succeed(id, k, next) =>
      s.handler == Idle && Live(s, id) && Distinct(next) && Elements(next) == NextIds(c, s.db, id, k)
    case EnqueueOne => s.handler.Enqueueing? && s.handler.todo != []
    case Fail(id) => s.handler == Idle && Live(s, id)
    case SuspendBelow(backend, found) =>
      && s.handler.Failing? && s.handler.run < |s.db.dagRuns| && s.handler.id < |s.db.taskRuns|
      && Distinct(found) && Elements(found) == SuspendedBy(c, s.db, backend, s.handler.run, s.handler.id)
    case Retry(id) => s.handler == Idle && Live(s, id)
    case ClaimRetry(_, _, _) => s.handler.Retrying? && s.handler.id < |s.db.taskRuns|
    case CheckDone => s.handler.Completing? && s.handler.run < |s.db.dagRuns|
    case Publish(_, dagId) => dagId < |c.dags|
    case StartRun(_, dagName) => s.controller == Waiting && dagName in s.latest && s.latest[dagName] < |c.dags|
    case ListStarting(tasks) =>
      && s.controller.Created? && s.controller.run < |s.db.dagRuns| && Distinct(tasks)
      && Elements(tasks) == if OwnVersionListed(s, s.controller.run, s.controller.dagName)
                            then Roots(DagOf(c, s.db.dagRuns[s.controller.run].dagId)) else {}
    case CheckOne => s.controller.Listing? && s.controller.todo != []
    case InsertOne => s.controller.Inserting? && s.controller.run < |s.db.dagRuns|
    case Crash => true
  }

  ghost function Next(c: Catalog, s: Sys, a: Action): Sys
    requires Keyed(c, s.db) && Enabled(c, s, a)
  {
    match a
    case ClaimTasks(_, ids, worker, _, lease) => WithRows(s, ClaimRows(s.db.taskRuns, ids, worker, lease))
    case Renew(id, worker, lease) => WithRows(s, s.db.taskRuns[id := Renewed(s.db.taskRuns[id], worker, lease)])
    case Recover(now) => WithRows(s, RecoverRows(s.db.taskRuns, now))
    case Finalise(id, worker) => WithRows(s, s.db.taskRuns[id := Finalised(s.db.taskRuns[id], worker)])
    case Succeed(id, _, next) => DoSucceed(c, s, id, next)
    case EnqueueOne => DoEnqueueOne(s)
    case Fail(id) => DoFail(c, s, id)
    case SuspendBelow(_, found) => DoSuspend(s, found)
    case Retry(id) => DoRetry(s, id)
    case ClaimRetry(worker, now, lease) => DoClaimRetry(s, worker, now, lease)
    case CheckDone => DoCheckDone(c, s)
    case Publish(name, dagId) => s.(latest := s.latest[name := dagId])
    case StartRun(name, dagName) => DoStartRun(s, name, dagName)
    case ListStarting(tasks) =>
      var Created(run, dagName) := s.controller;
      s.(controller := Listing(run, OwnVersionListed(s, run, dagName), tasks))
    case CheckOne => DoCheckOne(s)
    case InsertOne => DoInsertOne(s)
    case Crash => s.(controller := Waiting)
  }

  function DoSucceed(c: Catalog, s: Sys, id: nat, next: seq<nat>): Sys
    requires Keyed(c, s.db) && id < |s.db.taskRuns|
  {
    var r := s.db.taskRuns[id].runId;
    s.(db := MarkSuccess(c, s.db, id), handler := if next == [] then Completing(r) else Enqueueing(r, next))
  }

  function DoEnqueueOne(s: Sys): Sys
    requires s.handler.Enqueueing? && s.handler.todo != []
  {
    var Enqueueing(run, todo) := s.handler;
    s.(db := AddPending(s.db, run, todo[0]), handler := if |todo| == 1 then Idle else Enqueueing(run, todo[1..]))
  }

  function DoFail(c: Catalog, s: Sys, id: nat): Sys
    requires Keyed(c, s.db) && id < |s.db.taskRuns|
  {
    s.(db := MarkFailed(c, s.db, id), handler := Failing(s.db.taskRuns[id].runId, id))
  }

  function DoSuspend(s: Sys, found: seq<nat>): Sys
    requires s.handler.Failing? && s.handler.run < |s.db.dagRuns|
  {
    s.(db := Suspend(s.db, s.handler.run, found), handler := Completing(s.handler.run))
  }

  function DoRetry(s: Sys, id: nat): Sys
    requires id < |s.db.taskRuns|
  {
    var row := s.db.taskRuns[id];
    s.(db := AddPending(s.db, row.runId, row.taskId), retired := s.retired + {id}, handler := Retrying(|s.db.taskRuns|))
  }

  /** ClaimTaskByID may find the row claimed by a poller already; the handler moves on either way. */
  function DoClaimRetry(s: Sys, worker: string, now: int, lease: int): Sys
    requires s.handler.Retrying? && s.handler.id < |s.db.taskRuns|
  {
    var id := s.handler.id;
    var row := s.db.taskRuns[id];
    WithRows(s, s.db.taskRuns[id := if ClaimableById(row, now) then WithClaim(row, worker, lease)
        else row]).(handler := Idle)
  }

  function DoCheckDone(c: Catalog, s: Sys): Sys
    requires s.handler.Completing? && s.handler.run < |s.db.dagRuns|
  {
    var run := s.handler.run;
    s.(handler := Idle, cleanups := if AllTasksDone(c, s.db, run) then s.cleanups + [run] else s.cleanups)
  }

  function DoStartRun(s: Sys, name: string, dagName: string): Sys
    requires dagName in s.latest
  {
    var found := FindRun(s.db.dagRuns, name);
    if found.Some? then s.(controller := Created(found.value, dagName))
    else s.(db := AddRun(s.db, name, s.latest[dagName]), controller := Created(|s.db.dagRuns|, dagName))
  }

  function DoCheckOne(s: Sys): Sys
    requires s.controller.Listing? && s.controller.todo != []
  {
    var Listing(run, full, todo) := s.controller;
    s.(controller := if todo[0] in TasksIn(s.db.taskRuns, run) then Listing(run, full, todo[1..])
                     else Inserting(run, full, todo[0], todo[1..]))
  }

  function DoInsertOne(s: Sys): Sys
    requires s.controller.Inserting?
  {
    var Inserting(run, full, task, todo) := s.controller;
    s.(db := AddPending(s.db, run, task), controller := Listing(run, full, todo),
       fromController := s.fromController + {|s.db.taskRuns|})
  }

  function WithRows(s: Sys, rows: seq<TaskRun>): Sys {
    s.(db := s.db.(taskRuns := rows))
  }

  // ----- The invariant -----

  function DutyOf(s: Sys, r: nat): Duty {
    if s.handler.Enqueueing? && s.handler.run == r then MustEnqueue(s.handler.todo)
    else if s.handler.Failing? && s.handler.run == r && s.handler.id < |s.db.taskRuns|
      then MustSuspendBelow(s.db.taskRuns[s.handler.id].taskId)
    else Nothing
  }

  /** The handler will still ask whether run r is complete. */
  predicate Busy(s: Sys, r: nat) {
    (s.handler.Failing? || s.handler.Completing?) && s.handler.run == r
  }

  /** Every row but the newest of its run and task is a retired one: it still says running. */
  ghost predicate RowsOk(rows: seq<TaskRun>, retired: set<nat>) {
    && (forall i :: 0 <= i < |rows| && rows[i].claim.Some? ==> rows[i].status == Pending)
    && (forall i, j :: 0 <= i < j < |rows| && SameKey(rows[i], rows[j]) ==> i in retired)
    && (forall i :: i in retired ==> Replaced(rows, i))
    && forall i, j :: 0 <= i < |rows| && 0 <= j < |rows| && i != j && rows[i].status == Suspended ==>
        !SameKey(rows[i], rows[j])
  }

  ghost predicate Replaced(rows: seq<TaskRun>, i: nat) {
    i < |rows| && rows[i].status == Running && exists j :: i < j < |rows| && SameKey(rows[i], rows[j])
  }

  ghost predicate HandlerOk(s: Sys) {
    match s.handler
    case Idle => true
    case Enqueueing(run, _) => run < |s.db.dagRuns|
    case Failing(run, id) => run < |s.db.dagRuns| && id < |s.db.taskRuns|
    case Retrying(id) => id < |s.db.taskRuns|
    case Completing(run) => run < |s.db.dagRuns|
  }

  function GraphOf(c: Catalog, s: Sys, r: nat): Dag
    requires r < |s.db.dagRuns|
  {
    DagOf(c, s.db.dagRuns[r].dagId)
  }

  function ViewOf(c: Catalog, s: Sys, r: nat): RunView
    requires r < |s.db.dagRuns|
  {
    RunView(GraphOf(c, s, r), ProgressOf(s.db.taskRuns, r), DutyOf(s, r), s.db.dagRuns[r], Busy(s, r),
        multiset(s.cleanups)[r])
  }

  ghost function RootsOf(c: Catalog, s: Sys, r: nat): set<nat>
    requires r < |s.db.dagRuns|
  {
    Roots(GraphOf(c, s, r))
  }

  /** One row per run name; the controller's rows are the first of their tasks, and every starting
      task with a row has one. */
  ghost predicate StartsOk(c: Catalog, s: Sys) {
    && (forall q, r :: 0 <= q < r < |s.db.dagRuns| ==> s.db.dagRuns[q].name != s.db.dagRuns[r].name)
    && (forall i :: i in s.fromController ==> FirstOfRoot(c, s, i))
    && forall r, t :: 0 <= r < |s.db.dagRuns| && t in TasksIn(s.db.taskRuns, r) && t in RootsOf(c, s, r) ==>
         ControllerRow(s, r, t)
  }

  ghost predicate FirstOfRoot(c: Catalog, s: Sys, i: nat) {
    && i < |s.db.taskRuns| && s.db.taskRuns[i].runId < |s.db.dagRuns|
    && s.db.taskRuns[i].taskId in RootsOf(c, s, s.db.taskRuns[i].runId)
    && forall j :: 0 <= j < i ==> !SameKey(s.db.taskRuns[j], s.db.taskRuns[i])
  }

  ghost predicate ControllerRow(s: Sys, r: nat, t: nat) {
    exists i :: i in s.fromController && i < |s.db.taskRuns| && s.db.taskRuns[i].runId == r
        && s.db.taskRuns[i].taskId == t
  }

  ghost predicate ControllerOk(c: Catalog, s: Sys) {
    match s.controller
    case Waiting => true
    case Created(run, _) => run < |s.db.dagRuns|
    case Listing(run, full, todo) =>
      && run < |s.db.dagRuns| && Elements(todo) <= RootsOf(c, s, run)
      && (full ==> RootsOf(c, s, run) <= TasksIn(s.db.taskRuns, run) + Elements(todo))
    case Inserting(run, full, task, todo) =>
      && run < |s.db.dagRuns| && Elements(todo) <= RootsOf(c, s, run)
      && task in RootsOf(c, s, run) && task !in TasksIn(s.db.taskRuns, run)
      && (full ==> RootsOf(c, s, run) <= TasksIn(s.db.taskRuns, run) + {task} + Elements(todo))
  }

  ghost predicate AllRunsOk(c: Catalog, s: Sys) {
    forall r :: 0 <= r < |s.db.dagRuns| ==> Fits(ViewOf(c, s, r))
  }

  ghost predicate AllStartsOk(c: Catalog, s: Sys) {
    Keyed(c, s.db) && StartsOk(c, s) && ControllerOk(c, s)
  }

  ghost predicate Inv(c: Catalog, s: Sys) {
    && RowsOk(s.db.taskRuns, s.retired)
    && HandlerOk(s)
    && AllRunsOk(c, s)
    && (forall r :: r in s.cleanups ==> r < |s.db.dagRuns|)
    && AllStartsOk(c, s)
  }

  /** No candidate that has a row in run r lacks one under k: nothing is returned a second time. */
  ghost predicate SeesRows(g: Dag, rows: seq<TaskRun>, r: nat, k: nat) {
    forall t :: Candidate(g, rows, r, t) && t in TasksIn(rows, r) ==> t in TasksIn(rows, k)
  }

  /** No candidate without a row in run r has one under k: nothing is forgotten. */
  ghost predicate SeesOnlyRows(g: Dag, rows: seq<TaskRun>, r: nat, k: nat) {
    forall t :: Candidate(g, rows, r, t) && t in TasksIn(rows, k) ==> t in TasksIn(rows, r)
  }

  /** The id k tells the candidates that already have a row in run r from those that do not. */
  ghost predicate SafeId(c: Catalog, s: Sys, id: nat, k: nat)
    requires Keyed(c, s.db) && id < |s.db.taskRuns|
  {
    var r := s.db.taskRuns[id].runId;
    var g, rows := GraphOf(c, s, r), MarkSuccess(c, s.db, id).taskRuns;
    SeesRows(g, rows, r, k) && SeesOnlyRows(g, rows, r, k)
  }

  // ----- Runs -----

  /** Which ids successes may pass to the last query: any; one that tells; the run's, as intended;
      the task run's, as the code does. */
  datatype Ids = AnyId | TellingId | RunId | TaskRunId

  ghost predicate Admits(ids: Ids, c: Catalog, s: Sys, a: Action)
    requires Keyed(c, s.db) && Enabled(c, s, a)
  {
    a.Succeed? ==>
      match ids
      case AnyId => true
      case TellingId => SafeId(c, s, a.id, a.k)
      case RunId => a.k == s.db.taskRuns[a.id].runId
      case TaskRunId => a.k == a.id
  }

  /** Any interleaving of enabled steps. */
  ghost predicate Runs(c: Catalog, ids: Ids, s: Sys, actions: seq<Action>, t: Sys)
    decreases |actions|
  {
    if actions == [] then s == t
    else
      && Keyed(c, s.db) && Enabled(c, s, actions[0]) && Admits(ids, c, s, actions[0])
      && Runs(c, ids, Next(c, s, actions[0]), actions[1..], t)
  }

  ghost predicate Reachable(c: Catalog, ids: Ids, s: Sys) {
    exists actions :: Runs(c, ids, Initial(), actions, s)
  }

  lemma {:induction false} RunsAppend(c: Catalog, ids: Ids, s: Sys, first: seq<Action>, m: Sys, second: seq<Action>,
        t: Sys)
    requires Runs(c, ids, s, first, m) && Runs(c, ids, m, second, t)
    ensures Runs(c, ids, s, first + second, t)
    decreases |first|
  {
    if first == [] {
      assert first + second == second;
    } else {
      assert (first + second)[1..] == first[1..] + second;
      RunsAppend(c, ids, Next(c, s, first[0]), first[1..], m, second, t);
    }
  }

  lemma OneStep(c: Catalog, ids: Ids, s: Sys, a: Action)
    requires Keyed(c, s.db) && Enabled(c, s, a) && Admits(ids, c, s, a)
    ensures Runs(c, ids, s, [a], Next(c, s, a))
  {
    assert [a][1..] == [];
  }

  lemma ReachableOn(c: Catalog, ids: Ids, s: Sys, actions: seq<Action>, t: Sys)
    requires Reachable(c, ids, s) && Runs(c, ids, s, actions, t)
    ensures Reachable(c, ids, t)
  {
    var before :| Runs(c, ids, Initial(), before, s);
    RunsAppend(c, ids, Initial(), before, s, actions, t);
  }

  /** The intended ids tell, and every id is some id. */
  lemma {:induction false} MoreIds(c: Catalog, ids: Ids, more: Ids, s: Sys, actions: seq<Action>, t: Sys)
    requires Runs(c, ids, s, actions, t) && (more == AnyId || (ids == RunId && more == TellingId))
    ensures Runs(c, more, s, actions, t)
    decreases |actions|
  {
    if actions != [] {
      MoreIds(c, ids, more, Next(c, s, actions[0]), actions[1..], t);
    }
  }
}
