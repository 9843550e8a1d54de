/** getRunnableTasks asks for a row under run_id = k, and its caller passes the id of the task run, not
    of the run. With that id a pending task is enqueued twice, and through the duplicate a task can be
    enqueued before its dependencies have succeeded, a run can be counted out while one of its pods still
    runs, its verdict can change, and the two backends can suspend different tasks. Here are runs that do
    all of it. */
module LiteralId {
  import opened Prelude
  import opened Graphs
  import opened Tables
  import opened RunProgress
  import opened RunnableTasks
  import opened Claims
  import opened Store
  import opened Engine

  ghost predicate LiterallyReachable(c: Catalog, s: Sys) {
    WellFormed(c) && Reachable(c, TaskRunId, s)
  }

  lemma Step(c: Catalog, s: Sys, a: Action, t: Sys)
    requires LiterallyReachable(c, s) && Keyed(c, s.db) && Enabled(c, s, a) && (a.Succeed? ==> a.k == a.id)
    requires t == Next(c, s, a)
    ensures LiterallyReachable(c, t)
  {
    OneStep(c, TaskRunId, s, a);
    ReachableOn(c, TaskRunId, s, [a], t);
  }

  // ----- Five tasks: 0, 1 and 2 start; 3 runs after 0; 4 runs after 3, 2 and 1; and a sixth after 4 -----

  const FIVE: Catalog := Catalog(
    [DagVersion("dag", 5)],
    [DagTask(0, "a", 1), DagTask(0, "b", 1), DagTask(0, "c", 1), DagTask(0, "d", 1), DagTask(0, "e", 1)],
    [Dependency(3, 0), Dependency(4, 3), Dependency(4, 2), Dependency(4, 1)])

  const SIXTH: Catalog := Catalog([DagVersion("dag", 6)], FIVE.tasks + [DagTask(0, "f", 1)],
      FIVE.deps + [Dependency(5, 4)])

  const G: Dag := Dag({0, 1, 2, 3, 4}, {(3, 0), (4, 3), (4, 2), (4, 1)})

  const H: Dag := Dag(G.tasks + {5}, G.needs + {(5, 4)})

  ghost predicate Sample(c: Catalog) {
    c == FIVE || c == SIXTH
  }

  lemma FiveGraph()
    ensures DagOf(FIVE, 0) == G
  {
    assert FIVE.deps[0] == Dependency(3, 0) && FIVE.deps[1] == Dependency(4, 3) && FIVE.deps[2] == Dependency(4, 2)
      && FIVE.deps[3] == Dependency(4, 1);
    assert TasksOf(FIVE, 0) == G.tasks;
    assert DagOf(FIVE, 0).needs == G.needs;
  }

  lemma SixGraph()
    ensures DagOf(SIXTH, 0) == H
  {
    FiveGraph();
    assert forall i :: 0 <= i < 4 ==> SIXTH.deps[i] == FIVE.deps[i];
    assert SIXTH.deps[4] == Dependency(5, 4);
    assert TasksOf(SIXTH, 0) == H.tasks;
    forall e | e in H.needs ensures e in DagOf(SIXTH, 0).needs {
      if e in G.needs {
        var i :| 0 <= i < 4 && FIVE.deps[i].taskId in TasksOf(FIVE, 0)
            && e == (FIVE.deps[i].taskId, FIVE.deps[i].dependsOn);
        assert SIXTH.deps[i] == FIVE.deps[i];
      } else {
        assert e == (SIXTH.deps[4].taskId, SIXTH.deps[4].dependsOn);
      }
    }
    forall e | e in DagOf(SIXTH, 0).needs ensures e in H.needs {
      var i :| 0 <= i < 5 && e == (SIXTH.deps[i].taskId, SIXTH.deps[i].dependsOn);
    }
  }

  lemma FiveRoots()
    ensures Roots(G) == {0, 1, 2} && |G.tasks| == 5
  {
    assert (3, 0).1 in DepsOf(G, 3) && (4, 3).1 in DepsOf(G, 4);
  }

  lemma SixRoots()
    ensures Roots(H) == {0, 1, 2} && |H.tasks| == 6
  {
    assert (3, 0).1 in DepsOf(H, 3) && (4, 3).1 in DepsOf(H, 4) && (5, 4).1 in DepsOf(H, 5);
    DisjointSize(G.tasks, {5});
    FiveRoots();
  }

  lemma SampleRoots(c: Catalog)
    requires Sample(c)
    ensures Roots(DagOf(c, 0)) == {0, 1, 2} && c.dags[0].taskCount == |TasksOf(c, 0)| >= 5
  {
    if c == FIVE {
      FiveGraph();
      FiveRoots();
    } else {
      SixGraph();
      SixRoots();
    }
  }

  /** Edges that only lead to smaller tasks make no cycle. */
  lemma DownhillIsValid(g: Dag)
    requires forall e :: e in g.needs ==> e.1 < e.0 && e.0 in g.tasks && e.1 in g.tasks
    ensures ValidDag(g)
  {
    forall a: nat ensures !Reaches(g.needs, a, a) {
      if Reaches(g.needs, a, a) {
        var walk :| IsWalkBetween(g.needs, walk, a, a);
        var i := 0;
        while i < |walk| - 1
          invariant 0 <= i < |walk| && (if i == 0 then walk[i] == a else walk[i] < a)
        {
          assert (walk[i], walk[i + 1]) in g.needs;
          i := i + 1;
        }
      }
    }
  }

  lemma SampleValid(c: Catalog)
    requires Sample(c)
    ensures ValidDag(DagOf(c, 0))
  {
    if c == FIVE {
      FiveGraph();
    } else {
      SixGraph();
    }
    DownhillIsValid(DagOf(c, 0));
  }

  lemma OneVersion(c: Catalog)
    requires |c.dags| == 1 && ValidDag(DagOf(c, 0)) && 0 in TasksOf(c, 0) && c.dags[0].taskCount == |TasksOf(c, 0)|
    requires forall t :: 0 <= t < |c.tasks| ==> c.tasks[t].dagId == 0
    requires forall i :: 0 <= i < |c.deps| ==> c.deps[i].taskId < |c.tasks|
    ensures WellFormed(c)
  {
    assert WellFormedDag(c, 0);
  }

  lemma SampleWellFormed(c: Catalog)
    requires Sample(c)
    ensures WellFormed(c)
  {
    SampleRoots(c);
    SampleValid(c);
    OneVersion(c);
  }

  // ----- Counting successes as rows change -----

  function Counts(row: TaskRun, d: nat): nat {
    if row.runId == 0 && row.taskId == d && row.status == Success then 1 else 0
  }

  lemma OneMore(rows: seq<TaskRun>, row: TaskRun, d: nat)
    ensures SuccessRows(rows + [row], 0, d) == SuccessRows(rows, 0, d) + Counts(row, d)
  {
    assert (rows + [row])[..|rows|] == rows;
  }

  lemma SuccessesOfThree(x: TaskRun, y: TaskRun, z: TaskRun, d: nat)
    ensures SuccessRows([x, y, z], 0, d) == Counts(x, d) + Counts(y, d) + Counts(z, d)
  {
    assert [x, y, z] == (([] + [x]) + [y]) + [z];
    OneMore([], x, d);
    OneMore([] + [x], y, d);
    OneMore(([] + [x]) + [y], z, d);
  }

  /** The success rows of what task 4 depends on. */
  function Behind(rows: seq<TaskRun>): nat {
    SuccessRows(rows, 0, 3) + SuccessRows(rows, 0, 2) + SuccessRows(rows, 0, 1)
  }

  lemma FiveCounts(rows: seq<TaskRun>, t: nat)
    ensures DepCount(FIVE.deps, t) == if t == 3 then 1 else if t == 4 then 3 else 0
    ensures MetCount(FIVE.deps, rows, 0, t) ==
            if t == 3 then SuccessRows(rows, 0, 0)
            else if t == 4 then Behind(rows) else 0
  {
    var deps := FIVE.deps;
    var three, two, one: seq<Dependency> := deps[..3], deps[..2], [Dependency(3, 0)];
    assert three[..2] == two && two[..1] == one && one[..0] == [];
    assert DepCount(one, t) == if t == 3 then 1 else 0;
    assert MetCount(one, rows, 0, t) == if t == 3 then SuccessRows(rows, 0, 0) else 0;
    assert DepCount(two, t) == DepCount(one, t) + if t == 4 then 1 else 0;
    assert MetCount(two, rows, 0, t) == MetCount(one, rows, 0, t) + if t == 4 then SuccessRows(rows, 0, 3) else 0;
    assert DepCount(three, t) == DepCount(two, t) + if t == 4 then 1 else 0;
    assert MetCount(three, rows, 0, t) == MetCount(two, rows, 0, t) + if t == 4 then SuccessRows(rows, 0, 2) else 0;
  }

  lemma SampleCounts(c: Catalog, rows: seq<TaskRun>, t: nat)
    requires Sample(c)
    ensures DepCount(c.deps, t) == if t == 3 then 1 else if t == 4 then 3 else if t == 5 && c == SIXTH then 1 else 0
    ensures MetCount(c.deps, rows, 0, t) ==
            if t == 3 then SuccessRows(rows, 0, 0)
            else if t == 4 then Behind(rows) else if t == 5 && c == SIXTH then SuccessRows(rows, 0, 4) else 0
  {
    FiveCounts(rows, t);
    if c == SIXTH {
      assert c.deps[..4] == FIVE.deps;
      assert c.deps[4] == Dependency(5, 4);
    }
  }

  /** What is runnable among the tasks as long as task 4 has not succeeded. */
  lemma Runnable(c: Catalog, rows: seq<TaskRun>, k: nat, t: nat)
    requires Sample(c) && SuccessRows(rows, 0, 4) == 0
    ensures t in RunnableIds(c, rows, 0, 0, k) <==>
              && t !in TasksIn(rows, k) && t !in Started(rows, 0)
              && ((t == 3 && SuccessRows(rows, 0, 0) == 1) || (t == 4 && Behind(rows) == 3))
  {
    FiveGraph();
    SixGraph();
    SampleCounts(c, rows, t);
    assert t in G.tasks ==> t in TasksOf(c, 0);
  }

  // ----- The run -----

  function Row(task: nat, status: Status): TaskRun {
    NewRow(0, task, status)
  }

  /** The one run with these rows and this many successes. */
  function At(rows: seq<TaskRun>, successes: nat, handler: Handler, todo: seq<nat>, from: set<nat>): Sys {
    Sys(Db(rows, [DagRun("run", 0, RunRunning, successes, 0, 0)]), map["dag" := 0], {}, handler,
        Listing(0, true, todo), [], from)
  }

  ghost predicate Reached(c: Catalog, rows: seq<TaskRun>, successes: nat, handler: Handler, todo: seq<nat>,
        from: set<nat>) {
    && Sample(c) && LiterallyReachable(c, At(rows, successes, handler, todo, from))
    && forall i :: 0 <= i < |rows| ==> rows[i].runId == 0 && rows[i].claim.None?
  }

  function CreatedOnly(): Sys {
    At([], 0, Idle, [], {}).(controller := Created(0, "dag"))
  }

  lemma Creates(c: Catalog)
    requires Sample(c)
    ensures LiterallyReachable(c, CreatedOnly())
  {
    var s := Initial();
    SampleWellFormed(c);
    assert Runs(c, TaskRunId, s, [], s);
    var published := s.(latest := map["dag" := 0]);
    Step(c, s, Publish("dag", 0), published);
    Step(c, published, StartRun("run", "dag"), CreatedOnly());
  }

  lemma Begins(c: Catalog)
    requires Sample(c)
    ensures Reached(c, [], 0, Idle, [0, 1, 2], {})
  {
    Creates(c);
    SampleRoots(c);
    assert Elements([0, 1, 2]) == {0, 1, 2};
    Step(c, CreatedOnly(), ListStarting([0, 1, 2]), At([], 0, Idle, [0, 1, 2], {}));
  }

  const FROM: set<nat> := {0, 1, 2}

  lemma InsertNext(c: Catalog, rows: seq<TaskRun>, todo: seq<nat>, from: set<nat>, after: seq<TaskRun>,
        rest: seq<nat>, from': set<nat>)
    requires Reached(c, rows, 0, Idle, todo, from) && todo != [] && todo[0] !in TasksIn(rows, 0)
    requires after == rows + [Row(todo[0], Pending)] && rest == todo[1..] && from' == from + {|rows|}
    ensures Reached(c, after, 0, Idle, rest, from')
  {
    var s := At(rows, 0, Idle, todo, from);
    var checked := s.(controller := Inserting(0, true, todo[0], rest));
    Step(c, s, CheckOne, checked);
    Step(c, checked, InsertOne, At(after, 0, Idle, rest, from'));
  }

  lemma RunRow(c: Catalog, rows: seq<TaskRun>, successes: nat, id: nat, after: seq<TaskRun>)
    requires Reached(c, rows, successes, Idle, [], FROM) && id < |rows| && rows[id].status == Pending
    requires after == WithStatus(rows, id, Running)
    ensures Reached(c, after, successes, Idle, [], FROM)
  {
    var s := At(rows, successes, Idle, [], FROM);
    var claimed := WithRows(s, rows[id := WithClaim(rows[id], "w", 1)]);
    assert ClaimRows(rows, {id}, "w", 1) == claimed.db.taskRuns;
    Step(c, s, ClaimTasks(Sqlite, {id}, "w", 0, 1), claimed);
    assert claimed.db.taskRuns[id := Finalised(claimed.db.taskRuns[id], "w")] == after;
    Step(c, claimed, Action.Finalise(id, "w"), At(after, successes, Idle, [], FROM));
  }

  lemma SucceedRow(c: Catalog, rows: seq<TaskRun>, successes: nat, id: nat, after: seq<TaskRun>, next: seq<nat>)
    requires Reached(c, rows, successes, Idle, [], FROM) && id < |rows| && rows[id].status == Running && successes < 4
    requires after == WithStatus(rows, id, Success)
    requires Distinct(next) && Elements(next) == RunnableIds(c, after, 0, 0, id)
    ensures Reached(c, after, successes + 1, if next == [] then Completing(0) else Enqueueing(0, next), [], FROM)
  {
    Step(c, At(rows, successes, Idle, [], FROM), Succeed(id, id, next),
         At(after, successes + 1, if next == [] then Completing(0) else Enqueueing(0, next), [], FROM));
  }

  lemma EnqueueRow(c: Catalog, rows: seq<TaskRun>, successes: nat, t: nat, after: seq<TaskRun>)
    requires Reached(c, rows, successes, Enqueueing(0, [t]), [], FROM) && after == rows + [Row(t, Pending)]
    ensures Reached(c, after, successes, Idle, [], FROM)
  {
    Step(c, At(rows, successes, Enqueueing(0, [t]), [], FROM), EnqueueOne, At(after, successes, Idle, [], FROM));
  }

  lemma AskDone(c: Catalog, rows: seq<TaskRun>, successes: nat)
    requires Reached(c, rows, successes, Completing(0), [], FROM) && successes < 5
    ensures Reached(c, rows, successes, Idle, [], FROM)
  {
    SampleRoots(c);
    Step(c, At(rows, successes, Completing(0), [], FROM), CheckDone, At(rows, successes, Idle, [], FROM));
  }

  function Three(x: Status, y: Status, z: Status): seq<TaskRun> {
    [Row(0, x), Row(1, y), Row(2, z)]
  }

  lemma RootsEnqueued(c: Catalog)
    requires Sample(c)
    ensures Reached(c, Three(Pending, Pending, Pending), 0, Idle, [], FROM)
  {
    Begins(c);
    InsertNext(c, [], [0, 1, 2], {}, [Row(0, Pending)], [1, 2], {0});
    InsertNext(c, [Row(0, Pending)], [1, 2], {0}, [Row(0, Pending), Row(1, Pending)], [2], {0, 1});
    InsertNext(c, [Row(0, Pending), Row(1, Pending)], [2], {0, 1}, Three(Pending, Pending, Pending), [], FROM);
  }

  lemma RunnableAre(c: Catalog, rows: seq<TaskRun>, k: nat, next: seq<nat>)
    requires Sample(c) && SuccessRows(rows, 0, 4) == 0
    requires forall t :: t in next <==>
               && t !in TasksIn(rows, k) && t !in Started(rows, 0)
               && ((t == 3 && SuccessRows(rows, 0, 0) == 1) || (t == 4 && Behind(rows) == 3))
    ensures Elements(next) == RunnableIds(c, rows, 0, 0, k)
  {
    forall t ensures t in next <==> t in RunnableIds(c, rows, 0, 0, k) {
      Runnable(c, rows, k, t);
    }
  }

  /** Successes among the first three rows and those of task 3 and 4 after them. */
  lemma Successes(x: Status, y: Status, more: seq<TaskRun>, d: nat)
    requires |more| <= 2
    ensures SuccessRows(Three(x, y, Pending) + more, 0, d) ==
            (if d == 0 && x == Success then 1 else 0) + (if d == 1 && y == Success then 1 else 0)
            + (if |more| > 0 then Counts(more[0], d) else 0) + (if |more| > 1 then Counts(more[1], d) else 0)
  {
    var three := Three(x, y, Pending);
    SuccessesOfThree(Row(0, x), Row(1, y), Row(2, Pending), d);
    if |more| == 0 {
      assert three + more == three;
    } else {
      OneMore(three, more[0], d);
      if |more| == 1 {
        assert three + more == three + [more[0]];
      } else {
        OneMore(three + [more[0]], more[1], d);
        assert three + more == (three + [more[0]]) + [more[1]];
      }
    }
  }

  lemma TwoRun(c: Catalog)
    requires Sample(c)
    ensures Reached(c, Three(Running, Running, Pending), 0, Idle, [], FROM)
  {
    RootsEnqueued(c);
    RunRow(c, Three(Pending, Pending, Pending), 0, 0, Three(Running, Pending, Pending));
    RunRow(c, Three(Running, Pending, Pending), 0, 1, Three(Running, Running, Pending));
  }

  /** Task 0 succeeds and task 3 is enqueued. */
  lemma FirstSuccess(c: Catalog)
    requires Sample(c)
    ensures Reached(c, Three(Success, Running, Pending) + [Row(3, Pending)], 1, Idle, [], FROM)
  {
    var after := Three(Success, Running, Pending);
    forall d: nat ensures SuccessRows(after, 0, d) == if d == 0 then 1 else 0 {
      Successes(Success, Running, [], d);
      assert after + [] == after;
    }
    RunnableAre(c, after, 0, [3]);
    TwoRun(c);
    SucceedRow(c, Three(Running, Running, Pending), 0, 0, after, [3]);
    EnqueueRow(c, after, 1, 3, after + [Row(3, Pending)]);
  }

  /** Task 1 succeeds and task 3, still pending, is returned again. */
  lemma ReturnedTwice(c: Catalog)
    requires Sample(c)
    ensures Reached(c, Three(Success, Success, Pending) + [Row(3, Pending)], 2, Enqueueing(0, [3]), [], FROM)
  {
    var after := Three(Success, Success, Pending) + [Row(3, Pending)];
    FirstSuccess(c);
    forall d: nat ensures SuccessRows(after, 0, d) == if d <= 1 then 1 else 0 {
      Successes(Success, Success, [Row(3, Pending)], d);
    }
    RunnableAre(c, after, 1, [3]);
    SucceedRow(c, Three(Success, Running, Pending) + [Row(3, Pending)], 1, 1, after, [3]);
  }

  function Five(x: Status, y: Status): seq<TaskRun> {
    Three(Success, Success, Pending) + [Row(3, x), Row(3, y)]
  }

  lemma BothRun(c: Catalog)
    requires Sample(c)
    ensures Reached(c, Five(Running, Running), 2, Idle, [], FROM)
  {
    ReturnedTwice(c);
    EnqueueRow(c, Three(Success, Success, Pending) + [Row(3, Pending)], 2, 3, Five(Pending, Pending));
    RunRow(c, Five(Pending, Pending), 2, 3, Five(Running, Pending));
    RunRow(c, Five(Running, Pending), 2, 4, Five(Running, Running));
  }

  lemma SuccessesOfFive(x: Status, y: Status, d: nat)
    ensures SuccessRows(Five(x, y), 0, d) ==
            (if d <= 1 then 1 else 0) + (if d == 3 && x == Success then 1 else 0)
                + (if d == 3 && y == Success then 1 else 0)
  {
    Successes(Success, Success, [Row(3, x), Row(3, y)], d);
  }

  /** The first of the two rows succeeds: task 4 is one success row short. */
  lemma OneOfTwo(c: Catalog)
    requires Sample(c)
    ensures Reached(c, Five(Success, Running), 3, Idle, [], FROM)
  {
    BothRun(c);
    forall d: nat { SuccessesOfFive(Success, Running, d); }
    assert Five(Success, Running)[4] == Row(3, Running);
    assert 3 in Started(Five(Success, Running), 0);
    RunnableAre(c, Five(Success, Running), 3, []);
    SucceedRow(c, Five(Running, Running), 2, 3, Five(Success, Running), []);
    AskDone(c, Five(Success, Running), 3);
  }

  lemma FourReturned(c: Catalog)
    requires Sample(c)
    ensures Elements([4]) == RunnableIds(c, Five(Success, Success), 0, 0, 4)
  {
    forall d: nat { SuccessesOfFive(Success, Success, d); }
    assert Five(Success, Success)[4] == Row(3, Success);
    assert 3 in Started(Five(Success, Success), 0);
    RunnableAre(c, Five(Success, Success), 4, [4]);
  }

  /** The second succeeds as well, and the two stand in for the success of task 2. */
  lemma BothOfTwo(c: Catalog)
    requires Sample(c)
    ensures Reached(c, Five(Success, Success) + [Row(4, Pending)], 4, Idle, [], FROM)
  {
    OneOfTwo(c);
    FourReturned(c);
    SucceedRow(c, Five(Success, Running), 3, 4, Five(Success, Success), [4]);
    EnqueueRow(c, Five(Success, Success), 4, 4, Five(Success, Success) + [Row(4, Pending)]);
  }

  /** With the task run's id a task that is pending is returned for enqueueing a second time. */
  lemma LiteralIdEnqueuesTwice()
    ensures exists c, s, i: nat ::
              && LiterallyReachable(c, s) && s.handler.Enqueueing? && i < |s.db.taskRuns|
              && s.db.taskRuns[i].runId == s.handler.run && s.db.taskRuns[i].status == Pending
              && s.db.taskRuns[i].taskId in s.handler.todo
  {
    ReturnedTwice(FIVE);
    var s := At(Three(Success, Success, Pending) + [Row(3, Pending)], 2, Enqueueing(0, [3]), [], FROM);
    assert s.db.taskRuns[3] == Row(3, Pending);
    assert LiterallyReachable(FIVE, s) && s.db.taskRuns[3].taskId in s.handler.todo;
  }

  /** And a task can be enqueued although one of its dependencies has not succeeded. */
  lemma LiteralIdBreaksDependencyOrder()
    ensures exists c, s, i: nat, d ::
              && LiterallyReachable(c, s) && i < |s.db.taskRuns| && s.db.taskRuns[i].status == Pending
              && s.db.taskRuns[i].runId < |s.db.dagRuns|
              && d in DepsOf(GraphOf(c, s, s.db.taskRuns[i].runId), s.db.taskRuns[i].taskId)
              && d !in TasksWith(s.db.taskRuns, s.db.taskRuns[i].runId, Success)
  {
    BothOfTwo(FIVE);
    FiveGraph();
    var rows := Five(Success, Success) + [Row(4, Pending)];
    var s := At(rows, 4, Idle, [], FROM);
    assert rows[5] == Row(4, Pending);
    assert (4, 2).1 in DepsOf(G, 4);
    assert 2 !in TasksWith(rows, 0, Success);
    assert LiterallyReachable(FIVE, s) && 2 in DepsOf(GraphOf(FIVE, s, s.db.taskRuns[5].runId),
           s.db.taskRuns[5].taskId);
  }

  /** The counter then exceeds the number of tasks that have succeeded, because one has two rows. */
  lemma LiteralIdMiscounts()
    ensures exists c, s, i: nat, j: nat ::
              && LiterallyReachable(c, s) && i < j < |s.db.taskRuns| && SameKey(s.db.taskRuns[i], s.db.taskRuns[j])
              && s.db.taskRuns[i].status == Success && s.db.taskRuns[j].status == Success
              && s.db.taskRuns[i].runId < |s.db.dagRuns|
              && s.db.dagRuns[s.db.taskRuns[i].runId].successfulCount >
                 |TasksWith(s.db.taskRuns, s.db.taskRuns[i].runId, Success)|
  {
    BothOfTwo(FIVE);
    var rows := Five(Success, Success) + [Row(4, Pending)];
    var s := At(rows, 4, Idle, [], FROM);
    assert rows[3] == Row(3, Success) && rows[4] == Row(3, Success);
    assert TasksWith(rows, 0, Success) == {0, 1, 3} by {
      assert rows[0] == Row(0, Success) && rows[1] == Row(1, Success);
    }
    assert |{0, 1, 3}| == 3;
    assert LiterallyReachable(FIVE, s) && SameKey(s.db.taskRuns[3], s.db.taskRuns[4]);
  }

  // ----- The run goes on: a success count of five, with four tasks done -----

  function Six(x: Status, y: Status): seq<TaskRun> {
    [Row(0, Success), Row(1, Success), Row(2, x), Row(3, Success), Row(3, Success), Row(4, y)]
  }

  lemma LastRoot(c: Catalog)
    requires Sample(c)
    ensures Reached(c, Six(Running, Pending), 4, Idle, [], FROM)
  {
    BothOfTwo(c);
    assert Five(Success, Success) + [Row(4, Pending)] == Six(Pending, Pending);
    RunRow(c, Six(Pending, Pending), 4, 2, Six(Running, Pending));
  }

  lemma LastTwoRun(c: Catalog)
    requires Sample(c)
    ensures Reached(c, Six(Running, Running), 4, Idle, [], FROM)
  {
    LastRoot(c);
    RunRow(c, Six(Running, Pending), 4, 5, Six(Running, Running));
  }

  function Ending(rows: seq<TaskRun>, status: RunStatus, failed: nat, handler: Handler, cleanups: seq<nat>): Sys {
    Sys(Db(rows, [DagRun("run", 0, status, 5, failed, 0)]), map["dag" := 0], {}, handler, Listing(0, true, []),
        cleanups, FROM)
  }

  /** Task 2 succeeds: by the counter all five have. */
  lemma FiveCounted()
    ensures LiterallyReachable(FIVE, Ending(Six(Success, Running), RunSuccess, 0, Completing(0), []))
  {
    LastTwoRun(FIVE);
    assert WithStatus(Six(Running, Running), 2, Success) == Six(Success, Running);
    Step(FIVE, At(Six(Running, Running), 4, Idle, [], FROM), Succeed(2, 2, []),
         Ending(Six(Success, Running), RunSuccess, 0, Completing(0), []));
  }

  /** And the workspace goes. */
  lemma CountedOut()
    ensures LiterallyReachable(FIVE, Ending(Six(Success, Running), RunSuccess, 0, Idle, [0]))
  {
    FiveCounted();
    FiveGraph();
    Step(FIVE, Ending(Six(Success, Running), RunSuccess, 0, Completing(0), []), CheckDone,
         Ending(Six(Success, Running), RunSuccess, 0, Idle, [0]));
  }

  /** A workspace is removed while a pod of the run still runs, and the run counts as a success. */
  lemma LiteralIdCleansUnderARunningTask()
    ensures exists c, s, r: nat, i: nat ::
              && LiterallyReachable(c, s) && r in s.cleanups && i < |s.db.taskRuns| && s.db.taskRuns[i].runId == r
              && Live(s, i)
              && r < |s.db.dagRuns| && s.db.dagRuns[r].status == RunSuccess
  {
    CountedOut();
    var s := Ending(Six(Success, Running), RunSuccess, 0, Idle, [0]);
    assert s.db.taskRuns[5] == Row(4, Running);
    assert LiterallyReachable(FIVE, s) && Live(s, 5) && 0 in s.cleanups;
  }

  /** That pod then fails, and the success is taken back. */
  lemma LiteralIdTakesVerdictBack()
    ensures exists c, s, actions, t, r: nat ::
              && LiterallyReachable(c, s) && Runs(c, TaskRunId, s, actions, t) && r < |s.db.dagRuns|
              && r < |t.db.dagRuns|
              && s.db.dagRuns[r].status == RunSuccess && t.db.dagRuns[r].status == RunFailed
  {
    CountedOut();
    var s := Ending(Six(Success, Running), RunSuccess, 0, Idle, [0]);
    assert s.db.taskRuns[5] == Row(4, Running);
    OneStep(FIVE, TaskRunId, s, Fail(5));
    assert LiterallyReachable(FIVE, s) && Next(FIVE, s, Fail(5)).db.dagRuns[0].status == RunFailed;
  }

  // ----- The two backends part -----

  function FailedThere(): Sys {
    Sys(Db(Six(Failed, Pending), [DagRun("run", 0, RunFailed, 4, 1, 0)]), map["dag" := 0], {}, Failing(0, 2),
        Listing(0, true, []), [], FROM)
  }

  lemma TaskTwoFails()
    ensures LiterallyReachable(SIXTH, FailedThere())
  {
    LastRoot(SIXTH);
    assert WithStatus(Six(Running, Pending), 2, Failed) == Six(Failed, Pending);
    Step(SIXTH, At(Six(Running, Pending), 4, Idle, [], FROM), Fail(2), FailedThere());
  }

  lemma FifthIsBehindARow(rows: set<nat>)
    requires rows == {0, 1, 2, 3, 4}
    ensures RowlessOrphans(H, rows, 2) == {} && Orphans(H, rows, 2) == {5}
  {
    assert IsWalkBetween(H.needs, [5, 4, 2], 5, 2);
    ClosedHoldsOrphans(H, rows, {}, 2);
  }

  /** With the task run's id the two backends can suspend different tasks: here SQLite's search stops at a
      task that was enqueued too early, and PostgreSQL's query does not. */
  lemma LiteralIdSplitsBackends()
    ensures exists c, s ::
              && LiterallyReachable(c, s) && s.handler.Failing? && s.handler.run < |s.db.dagRuns|
              && s.handler.id < |s.db.taskRuns|
              && SuspendedBy(c, s.db, Sqlite, s.handler.run, s.handler.id) == {}
              && SuspendedBy(c, s.db, Postgres, s.handler.run, s.handler.id) != {}
  {
    TaskTwoFails();
    SixGraph();
    var s := FailedThere();
    var rows := s.db.taskRuns;
    assert rows[0].taskId == 0 && rows[1].taskId == 1 && rows[2].taskId == 2 && rows[3].taskId == 3
           && rows[5].taskId == 4;
    assert TasksIn(rows, 0) == {0, 1, 2, 3, 4};
    FifthIsBehindARow(TasksIn(rows, 0));
    assert LiterallyReachable(SIXTH, s);
  }
}
