/** Two ways in which a run can wait for nothing.

    The id that getNextRunnableTasks passes down makes a ready task be skipped if some other run, whose
    id happens to be that of the task run, has a row for it: three runs of a DAG of two tasks are enough
    to leave one of them behind for good. And a version published between two attempts of Reconcile
    keeps the later one from starting the run. */
module StrandedRun {
  import opened Prelude
  import opened Graphs
  import opened Tables
  import opened RunProgress
  import opened RunnableTasks
  import opened Claims
  import opened Store
  import opened Engine
  import opened RowFacts
  import opened EngineRuns
  import opened EngineAnyId
  import opened LiteralId

  // ----- Two tasks: 1 runs after 0 -----

  const TWO: Catalog := Catalog([DagVersion("dag", 2)], [DagTask(0, "a", 1), DagTask(0, "b", 1)], [Dependency(1, 0)])

  const EDGE: Dag := Dag({0, 1}, {(1, 0)})

  lemma TwoGraph()
    ensures DagOf(TWO, 0) == EDGE && WellFormed(TWO) && Roots(EDGE) == {0} && DepsOf(EDGE, 1) == {0}
  {
    assert TWO.deps[0] == Dependency(1, 0);
    assert TasksOf(TWO, 0) == EDGE.tasks;
    assert DagOf(TWO, 0).needs == EDGE.needs;
    assert (1, 0).1 in DepsOf(EDGE, 1);
    var order: seq<nat> := [0, 1];
    forall a ensures !Reaches(EDGE.needs, a, a) {
      OrderMeansAcyclic(EDGE.needs, EDGE.tasks, order, a);
    }
    assert |{0, 1}| == 2;
    assert WellFormedDag(TWO, 0);
  }

  /** What is runnable: task 1, once task 0 has succeeded. */
  lemma OnlyTheSecond(rows: seq<TaskRun>, r: nat, k: nat)
    requires RowsOk(rows, {})
    ensures RunnableIds(TWO, rows, 0, r, k) ==
            if 0 in TasksWith(rows, r, Success) && 1 !in Started(rows, r) && 1 !in TasksIn(rows, k) then {1} else {}
  {
    TwoGraph();
    AtMostOneSuccess(rows, {}, r);
    forall t ensures t in RunnableIds(TWO, rows, 0, r, k) <==>
                       t == 1 && 0 in TasksWith(rows, r, Success) && 1 !in Started(rows, r) && 1 !in TasksIn(rows, k)
    {
      RunnableAreCandidates(TWO, rows, 0, r, k, t);
      assert TasksOf(TWO, 0) == EDGE.tasks;
    }
  }

  // ----- The run -----

  function Fresh(name: string): DagRun {
    DagRun(name, 0, RunRunning, 0, 0, 0)
  }

  function Between(rows: seq<TaskRun>, runs: seq<DagRun>, handler: Handler, from: set<nat>): Sys {
    Sys(Db(rows, runs), map["dag" := 0], {}, handler, Waiting, [], from)
  }

  ghost predicate Reached2(rows: seq<TaskRun>, runs: seq<DagRun>, handler: Handler, from: set<nat>) {
    && LiterallyReachable(TWO, Between(rows, runs, handler, from))
    && (forall i :: 0 <= i < |rows| ==> rows[i].runId < |runs| && rows[i].claim.None?)
    && forall r :: 0 <= r < |runs| ==> runs[r].dagId == 0
  }

  lemma Published()
    ensures Reached2([], [], Idle, {})
  {
    TwoGraph();
    assert Runs(TWO, TaskRunId, Initial(), [], Initial());
    Step(TWO, Initial(), Publish("dag", 0), Between([], [], Idle, {}));
  }

  /** CreateDAGRun and GetStartingTasks. */
  lemma Lists(rows: seq<TaskRun>, runs: seq<DagRun>, from: set<nat>, name: string, more: seq<DagRun>)
    requires Reached2(rows, runs, Idle, from) && FindRun(runs, name).None? && more == runs + [Fresh(name)]
    ensures LiterallyReachable(TWO, Between(rows, more, Idle, from).(controller := Listing(|runs|, true, [0])))
  {
    TwoGraph();
    var created := Between(rows, more, Idle, from).(controller := Created(|runs|, "dag"));
    Step(TWO, Between(rows, runs, Idle, from), StartRun(name, "dag"), created);
    assert Elements([0]) == {0};
    Step(TWO, created, ListStarting([0]), created.(controller := Listing(|runs|, true, [0])));
  }

  /** TaskRunExists. */
  lemma Checks(rows: seq<TaskRun>, runs: seq<DagRun>, from: set<nat>, name: string, more: seq<DagRun>)
    requires Reached2(rows, runs, Idle, from) && FindRun(runs, name).None? && more == runs + [Fresh(name)]
    ensures LiterallyReachable(TWO, Between(rows, more, Idle, from).(controller := Inserting(|runs|, true, 0, [])))
  {
    var s := Between(rows, more, Idle, from);
    Lists(rows, runs, from, name, more);
    assert [0][1..] == [];
    Step(TWO, s.(controller := Listing(|runs|, true, [0])), CheckOne, s.(controller := Inserting(|runs|, true, 0, [])));
  }

  /** A new run with its starting task enqueued. */
  lemma Starts(rows: seq<TaskRun>, runs: seq<DagRun>, from: set<nat>, name: string,
               after: seq<TaskRun>, more: seq<DagRun>, from': set<nat>)
    requires Reached2(rows, runs, Idle, from) && FindRun(runs, name).None?
    requires after == rows + [NewRow(|runs|, 0, Pending)] && more == runs + [Fresh(name)] && from' == from + {|rows|}
    ensures Reached2(after, more, Idle, from')
  {
    var r := |runs|;
    Checks(rows, runs, from, name, more);
    var checked := Between(rows, more, Idle, from).(controller := Inserting(r, true, 0, []));
    var inserted := Between(after, more, Idle, from').(controller := Listing(r, true, []));
    Step(TWO, checked, InsertOne, inserted);
    Step(TWO, inserted, Crash, Between(after, more, Idle, from'));
  }

  lemma PodRuns(rows: seq<TaskRun>, runs: seq<DagRun>, from: set<nat>, id: nat, after: seq<TaskRun>)
    requires Reached2(rows, runs, Idle, from) && id < |rows| && rows[id].status == Pending
    requires after == WithStatus(rows, id, Running)
    ensures Reached2(after, runs, Idle, from)
  {
    var s := Between(rows, runs, Idle, from);
    var claimed := WithRows(s, rows[id := WithClaim(rows[id], "w", 1)]);
    assert ClaimRows(rows, {id}, "w", 1) == claimed.db.taskRuns;
    Step(TWO, s, ClaimTasks(Postgres, {id}, "w", 0, 1), claimed);
    assert claimed.db.taskRuns[id := Finalised(claimed.db.taskRuns[id], "w")] == after;
    Step(TWO, claimed, Action.Finalise(id, "w"), Between(after, runs, Idle, from));
  }

  lemma Succeeds(rows: seq<TaskRun>, runs: seq<DagRun>, from: set<nat>, id: nat, next: seq<nat>,
                 after: seq<TaskRun>, counted: seq<DagRun>)
    requires Reached2(rows, runs, Idle, from) && id < |rows| && rows[id].status == Running
    requires runs[rows[id].runId].successfulCount == 0
    requires after == WithStatus(rows, id, Success)
    requires counted == runs[rows[id].runId := runs[rows[id].runId].(successfulCount := 1)]
    requires Distinct(next) && Elements(next) == RunnableIds(TWO, after, 0, rows[id].runId, id)
    ensures Reached2(after, counted, if next == [] then Completing(rows[id].runId)
            else Enqueueing(rows[id].runId, next), from)
  {
    Step(TWO, Between(rows, runs, Idle, from), Succeed(id, id, next),
         Between(after, counted, if next == [] then Completing(rows[id].runId)
             else Enqueueing(rows[id].runId, next), from));
  }

  lemma Enqueues(rows: seq<TaskRun>, runs: seq<DagRun>, from: set<nat>, r: nat, after: seq<TaskRun>)
    requires Reached2(rows, runs, Enqueueing(r, [1]), from) && r < |runs| && after == rows + [NewRow(r, 1, Pending)]
    ensures Reached2(after, runs, Idle, from)
  {
    Step(TWO, Between(rows, runs, Enqueueing(r, [1]), from), EnqueueOne, Between(after, runs, Idle, from));
  }

  lemma Asks(rows: seq<TaskRun>, runs: seq<DagRun>, from: set<nat>, r: nat)
    requires Reached2(rows, runs, Completing(r), from) && r < |runs|
    requires runs[r].successfulCount + runs[r].failedCount + runs[r].suspendedCount < 2
    ensures Reached2(rows, runs, Idle, from)
  {
    TwoGraph();
    Step(TWO, Between(rows, runs, Completing(r), from), CheckDone, Between(rows, runs, Idle, from));
  }

  function One(name: string): DagRun {
    Fresh(name).(successfulCount := 1)
  }

  /** Run 0 starts, and its pod runs. */
  lemma FirstStart()
    ensures Reached2([NewRow(0, 0, Running)], [Fresh("x")], Idle, {0})
  {
    Published();
    Starts([], [], {}, "x", [NewRow(0, 0, Pending)], [Fresh("x")], {0});
    PodRuns([NewRow(0, 0, Pending)], [Fresh("x")], {0}, 0, [NewRow(0, 0, Running)]);
  }

  lemma FirstReturns()
    ensures RunnableIds(TWO, [NewRow(0, 0, Success)], 0, 0, 0) == Elements([1])
  {
    MemberIn([NewRow(0, 0, Success)], 0);
    OnlyTheSecond([NewRow(0, 0, Success)], 0, 0);
  }

  /** Run 0 has finished task 0; task 1 has row 1. */
  lemma FirstRun()
    ensures Reached2([NewRow(0, 0, Success), NewRow(0, 1, Pending)], [One("x")], Idle, {0})
  {
    FirstStart();
    FirstReturns();
    var after := [NewRow(0, 0, Success)];
    Succeeds([NewRow(0, 0, Running)], [Fresh("x")], {0}, 0, [1], after, [One("x")]);
    Enqueues(after, [One("x")], {0}, 0, [NewRow(0, 0, Success), NewRow(0, 1, Pending)]);
  }

  function Rows(second: Status, third: Status): seq<TaskRun> {
    [NewRow(0, 0, Success), NewRow(0, 1, Pending), NewRow(1, 0, second), NewRow(2, 0, third)]
  }

  lemma TwoMoreStarts()
    ensures Reached2(Rows(Pending, Pending), [One("x"), Fresh("y"), Fresh("z")], Idle, {0, 2, 3})
  {
    FirstRun();
    var rows := [NewRow(0, 0, Success), NewRow(0, 1, Pending)];
    var two := [One("x"), Fresh("y")];
    Starts(rows, [One("x")], {0}, "y", rows + [NewRow(1, 0, Pending)], two, {0, 2});
    assert FindRun(two, "z").None? by {
      assert two[..1] == [One("x")] && two[..1][..0] == [];
    }
    Starts(rows + [NewRow(1, 0, Pending)], two, {0, 2}, "z", Rows(Pending, Pending),
           [One("x"), Fresh("y"), Fresh("z")], {0, 2, 3});
  }

  /** Runs 1 and 2 start with rows 2 and 3, and both pods run. */
  lemma TwoMoreRuns()
    ensures Reached2(Rows(Running, Running), [One("x"), Fresh("y"), Fresh("z")], Idle, {0, 2, 3})
  {
    TwoMoreStarts();
    var three := [One("x"), Fresh("y"), Fresh("z")];
    PodRuns(Rows(Pending, Pending), three, {0, 2, 3}, 2, Rows(Running, Pending));
    PodRuns(Rows(Running, Pending), three, {0, 2, 3}, 3, Rows(Running, Running));
  }

  lemma KeysDiffer(second: Status, third: Status)
    requires second != Suspended && third != Suspended
    ensures RowsOk(Rows(second, third), {})
  {
  }

  lemma ThirdReturns()
    ensures RunnableIds(TWO, Rows(Running, Success), 0, 2, 3) == Elements([1])
  {
    KeysDiffer(Running, Success);
    MemberIn(Rows(Running, Success), 3);
    OnlyTheSecond(Rows(Running, Success), 2, 3);
  }

  /** Row 3 succeeds: run 2 gets a row for task 1. */
  lemma ThirdRunGoesOn()
    ensures Reached2(Rows(Running, Success) + [NewRow(2, 1, Pending)], [One("x"), Fresh("y"), One("z")], Idle,
            {0, 2, 3})
  {
    TwoMoreRuns();
    ThirdReturns();
    var three := [One("x"), Fresh("y"), One("z")];
    Succeeds(Rows(Running, Running), [One("x"), Fresh("y"), Fresh("z")], {0, 2, 3}, 3, [1], Rows(Running, Success),
        three);
    Enqueues(Rows(Running, Success), three, {0, 2, 3}, 2, Rows(Running, Success) + [NewRow(2, 1, Pending)]);
  }

  lemma SecondReturns()
    ensures RunnableIds(TWO, Rows(Success, Success) + [NewRow(2, 1, Pending)], 0, 1, 2) == Elements([])
  {
    MemberIn(Rows(Success, Success) + [NewRow(2, 1, Pending)], 4);
    OnlyTheSecond(Rows(Success, Success) + [NewRow(2, 1, Pending)], 1, 2);
  }

  /** Row 2 succeeds. The query asks for task 1 in run 2, finds it, and run 1 gets nothing. */
  lemma SecondRunStops()
    ensures Reached2(Rows(Success, Success) + [NewRow(2, 1, Pending)], [One("x"), One("y"), One("z")], Idle, {0, 2, 3})
  {
    ThirdRunGoesOn();
    SecondReturns();
    var after := Rows(Success, Success) + [NewRow(2, 1, Pending)];
    var three := [One("x"), One("y"), One("z")];
    Succeeds(Rows(Running, Success) + [NewRow(2, 1, Pending)], [One("x"), Fresh("y"), One("z")], {0, 2, 3}, 2, [],
        after, three);
    Asks(after, three, {0, 2, 3}, 1);
  }

  function Left(): Sys {
    Between(Rows(Success, Success) + [NewRow(2, 1, Pending)], [One("x"), One("y"), One("z")], Idle, {0, 2, 3})
  }

  lemma LeftIsQuiet()
    ensures forall i :: 0 <= i < |Left().db.taskRuns| && Left().db.taskRuns[i].runId == 1 ==>
            Terminal(Left().db.taskRuns[i].status)
    ensures Quiet(Left().db.taskRuns, 1) && TasksIn(Left().db.taskRuns, 1) == {0}
    ensures ProgressOf(Left().db.taskRuns, 1) == Progress({0}, {0}, {}, {})
  {
    var rows := Left().db.taskRuns;
    assert rows[2] == NewRow(1, 0, Success);
    assert forall i :: 0 <= i < |rows| && rows[i].runId == 1 ==> i == 2;
    assert ProgressOf(rows, 1).succeeded == {0} && ProgressOf(rows, 1).failed == {}
           && ProgressOf(rows, 1).suspended == {};
  }

  /** With the task run's id a run can be stranded: everything `NoRunIsStuck` asks for holds, the event
      loop is idle, nothing of the run is pending or running, and still it is neither complete nor has
      it a verdict; one of its tasks is ready and never gets a row, whatever happens later. */
  lemma LiteralIdStrandsARun()
    ensures exists c, s, r: nat, x ::
              && LiterallyReachable(c, s) && r < |s.db.dagRuns| && s.handler == Idle && s.controller == Waiting
              && RootsOf(c, s, r) <= TasksIn(s.db.taskRuns, r) && Quiet(s.db.taskRuns, r)
              && x in Ready(GraphOf(c, s, r), ProgressOf(s.db.taskRuns, r))
              && !AllTasksDone(c, s.db, r) && s.db.dagRuns[r].status == RunRunning
              && forall actions, t :: Runs(c, AnyId, s, actions, t) ==> RunUntouched(s, t, r)
  {
    var s := Left();
    SecondRunStops();
    LeftIsQuiet();
    LeftIsReady();
    LeftStarts();
    LeftIsSettled();
    AlwaysUntouched(TWO, s, 1);
    assert LiterallyReachable(TWO, s);
  }

  lemma LeftIsReady()
    ensures Left().db.dagRuns[1] == One("y") && RootsOf(TWO, Left(), 1) == {0} && !AllTasksDone(TWO, Left().db, 1)
    ensures 1 in Ready(GraphOf(TWO, Left(), 1), ProgressOf(Left().db.taskRuns, 1))
  {
    TwoGraph();
    LeftIsQuiet();
  }

  lemma LeftStarts()
    ensures StartsInv(TWO, Left())
  {
    SecondRunStops();
    ReachableStarts(TWO, TaskRunId, Left());
  }

  lemma LeftIsSettled()
    ensures Settled(TWO, Left(), 1)
  {
    TwoGraph();
    LeftIsQuiet();
    assert RootsOf(TWO, Left(), 1) == {0};
  }

  // ----- A version published between two attempts -----

  const VERSIONS: Catalog := Catalog([DagVersion("dag", 1), DagVersion("dag", 1)],
      [DagTask(0, "a", 1), DagTask(1, "a", 1)], [])

  lemma VersionGraphs()
    ensures WellFormed(VERSIONS) && DagOf(VERSIONS, 0) == Dag({0}, {})
  {
    assert TasksOf(VERSIONS, 0) == {0} && TasksOf(VERSIONS, 1) == {1};
    forall d | 0 <= d < 2 ensures WellFormedDag(VERSIONS, d) {
      assert DagOf(VERSIONS, d).needs == {};
      forall a ensures !Reaches(DagOf(VERSIONS, d).needs, a, a) {
        if Reaches(DagOf(VERSIONS, d).needs, a, a) {
          var b := ReachesFirstStep(DagOf(VERSIONS, d).needs, a, a);
        }
      }
    }
  }

  /** The run exists, and the attempt that made it was cut off; version 1 is the latest now. */
  function Outdated(controller: Controller): Sys {
    Sys(Db([], [Fresh("x")]), map["dag" := 1], {}, Idle, controller, [], {})
  }

  lemma Go(s: Sys, a: Action, t: Sys)
    requires Reachable(VERSIONS, RunId, s) && Keyed(VERSIONS, s.db) && Enabled(VERSIONS, s, a) && !a.Succeed?
    requires t == Next(VERSIONS, s, a)
    ensures Reachable(VERSIONS, RunId, t)
  {
    OneStep(VERSIONS, RunId, s, a);
    ReachableOn(VERSIONS, RunId, s, [a], t);
  }

  function UpToDate(runs: seq<DagRun>, controller: Controller): Sys {
    Sys(Db([], runs), map["dag" := 0], {}, Idle, controller, [], {})
  }

  lemma FirstVersion()
    ensures Reachable(VERSIONS, RunId, UpToDate([], Waiting))
  {
    assert Runs(VERSIONS, RunId, Initial(), [], Initial());
    Go(Initial(), Publish("dag", 0), UpToDate([], Waiting));
  }

  lemma CutOff()
    ensures Reachable(VERSIONS, RunId, UpToDate([Fresh("x")], Waiting))
  {
    FirstVersion();
    var created := UpToDate([Fresh("x")], Created(0, "dag"));
    Go(UpToDate([], Waiting), StartRun("x", "dag"), created);
    Go(created, Crash, UpToDate([Fresh("x")], Waiting));
  }

  lemma CutOffThenOutdated()
    ensures Reachable(VERSIONS, RunId, Outdated(Waiting))
  {
    CutOff();
    Go(UpToDate([Fresh("x")], Waiting), Publish("dag", 1), Outdated(Waiting));
  }

  /** A completed attempt can leave a run without any row: the first attempt was cut off, and the next
      one finds a newer version published, so that it lists nothing. */
  lemma NewVersionKeepsRunFromStarting()
    ensures exists c, s, r: nat ::
              && WellFormed(c) && Reachable(c, RunId, s) && r < |s.db.dagRuns|
              && s.controller == Listing(r, false, []) && RootsOf(c, s, r) != {} && TasksIn(s.db.taskRuns, r) == {}
  {
    VersionGraphs();
    CutOffThenOutdated();
    Go(Outdated(Waiting), StartRun("x", "dag"), Outdated(Created(0, "dag")));
    assert Elements<nat>([]) == {};
    var s := Outdated(Listing(0, false, []));
    Go(Outdated(Created(0, "dag")), ListStarting([]), s);
    assert 0 in RootsOf(VERSIONS, s, 0);
  }
}
