/** Which tasks may run next, decided by comparing two SQL counts
    (getDependencyCounts, getMetDependencies, getRunnableTasks). */
module RunnableTasks {
  import opened Prelude
  import opened Graphs
  import opened Tables
  import opened RunProgress

  // ----- The queries -----

  /** The number of Dependencies rows of task t. */
  function DepCount(deps: seq<Dependency>, t: nat): nat {
    if deps == [] then 0 else
    var last := deps[|deps| - 1];
    DepCount(deps[..|deps| - 1], t) + if last.taskId == t then 1 else 0
  }

  /** The number of success rows of task d in run r. */
  function SuccessRows(rows: seq<TaskRun>, r: nat, d: nat): nat {
    if rows == [] then 0 else
    var last := rows[|rows| - 1];
    SuccessRows(rows[..|rows| - 1], r, d)
    + if last.runId == r && last.taskId == d && last.status == Success then 1 else 0
  }

  /** The number of rows in the join of t's Dependencies rows with the success rows of run r. */
  function MetCount(deps: seq<Dependency>, rows: seq<TaskRun>, r: nat, t: nat): nat {
    if deps == [] then 0 else
    var last := deps[|deps| - 1];
    MetCount(deps[..|deps| - 1], rows, r, t) + if last.taskId == t then SuccessRows(rows, r, last.dependsOn) else 0
  }

  /** The tasks getMetDependencies leaves out: a running, success or failed row in the run. */
  function Started(rows: seq<TaskRun>, r: nat): set<nat> {
    TasksWith(rows, r, Running) + TasksWith(rows, r, Success) + TasksWith(rows, r, Failed)
  }

  function DependencyCounts(c: Catalog, dagId: nat): map<nat, nat> {
    map t | t in TasksOf(c, dagId) && DepCount(c.deps, t) > 0 :: DepCount(c.deps, t)
  }

  function MetDependencies(c: Catalog, rows: seq<TaskRun>, dagId: nat, r: nat): map<nat, nat> {
    map t | t in TasksOf(c, dagId) && t !in Started(rows, r) && MetCount(c.deps, rows, r, t) > 0 ::
      MetCount(c.deps, rows, r, t)
  }

  /** The tasks whose two counts agree. */
  function LetThrough(c: Catalog, rows: seq<TaskRun>, dagId: nat, r: nat): set<nat> {
    var counts, met := DependencyCounts(c, dagId), MetDependencies(c, rows, dagId, r);
    set t | t in counts && counts[t] == if t in met then met[t] else 0
  }

  /** The answer of getNextRunnableTasks, where k is the id that the last query compares run_id with. */
  function RunnableIds(c: Catalog, rows: seq<TaskRun>, dagId: nat, r: nat, k: nat): set<nat> {
    LetThrough(c, rows, dagId, r) - TasksIn(rows, k)
  }

  /** What the two counts are meant to let through: dependencies, all succeeded, and no running, success
      or failed row in the run. */
  ghost predicate Candidate(g: Dag, rows: seq<TaskRun>, r: nat, t: nat) {
    t in g.tasks && DepsOf(g, t) != {} && DepsOf(g, t) <= TasksWith(rows, r, Success) && t !in Started(rows, r)
  }

  /** The loop of getRunnableTasks over a Go map, in whatever order it yields its keys. */
  method GetRunnableTasks(counts: map<nat, nat>, met: map<nat, nat>, rows: seq<TaskRun>, k: nat) returns (ids: seq<nat>)
    ensures Distinct(ids)
    ensures Elements(ids) == set t | t in counts && counts[t] == (if t in met then met[t] else 0)
            && t !in TasksIn(rows, k)
  {
    ids := [];
    var left := counts.Keys;
    while left != {}
      invariant left <= counts.Keys && Distinct(ids)
      invariant Elements(ids) ==
                set t | t in counts.Keys - left && counts[t] == (if t in met then met[t] else 0)
                    && t !in TasksIn(rows, k)
      decreases left
    {
      var taskId :| taskId in left;
      left := left - {taskId};
      assert taskId !in Elements(ids);
      var metDeps := if taskId in met then met[taskId] else 0;
      if counts[taskId] == metDeps && taskId !in TasksIn(rows, k) {
        ElementsAppend(ids, taskId);
        ids := ids + [taskId];
      }
    }
  }

  // ----- What the counts mean -----

  lemma {:induction false} DepCountPositive(deps: seq<Dependency>, t: nat)
    ensures DepCount(deps, t) > 0 <==> exists i :: 0 <= i < |deps| && deps[i].taskId == t
  {
    if deps != [] {
      DepCountPositive(deps[..|deps| - 1], t);
      assert forall i :: 0 <= i < |deps| - 1 ==> deps[..|deps| - 1][i] == deps[i];
    }
  }

  lemma {:induction false} SuccessRowsPositive(rows: seq<TaskRun>, r: nat, d: nat)
    ensures SuccessRows(rows, r, d) > 0 <==> d in TasksWith(rows, r, Success)
  {
    if rows != [] {
      var init := rows[..|rows| - 1];
      SuccessRowsPositive(init, r, d);
      assert rows == init + [rows[|rows| - 1]];
      if d in TasksWith(init, r, Success) {
        var i :| 0 <= i < |init| && init[i].runId == r && init[i].status == Success && init[i].taskId == d;
        assert rows[i].taskId == d;
      }
      if SuccessRows(rows, r, d) > SuccessRows(init, r, d) {
        assert rows[|rows| - 1].taskId == d;
      }
    }
  }

  /** With at most one success row per dependency the join counts a dependency row once if its
      dependency has succeeded and not at all otherwise, repeated rows included. */
  lemma {:induction false} CountsMeet(deps: seq<Dependency>, rows: seq<TaskRun>, r: nat, t: nat)
    requires forall i :: 0 <= i < |deps| && deps[i].taskId == t ==> SuccessRows(rows, r, deps[i].dependsOn) <= 1
    ensures MetCount(deps, rows, r, t) <= DepCount(deps, t)
    ensures MetCount(deps, rows, r, t) == DepCount(deps, t) <==>
              forall i :: 0 <= i < |deps| && deps[i].taskId == t ==> deps[i].dependsOn in TasksWith(rows, r, Success)
  {
    if deps != [] {
      var last, init := deps[|deps| - 1], deps[..|deps| - 1];
      CountsMeet(init, rows, r, t);
      SuccessRowsPositive(rows, r, last.dependsOn);
      assert deps == init + [last];
    }
  }

  /** Once every dependency has succeeded the join counts each dependency row, and more than once if the
      dependency has several success rows. */
  lemma {:induction false} CountsExceed(deps: seq<Dependency>, rows: seq<TaskRun>, r: nat, t: nat)
    requires forall i :: 0 <= i < |deps| && deps[i].taskId == t ==> deps[i].dependsOn in TasksWith(rows, r, Success)
    ensures MetCount(deps, rows, r, t) >= DepCount(deps, t)
    ensures MetCount(deps, rows, r, t) == DepCount(deps, t) <==>
              forall i :: 0 <= i < |deps| && deps[i].taskId == t ==> SuccessRows(rows, r, deps[i].dependsOn) <= 1
  {
    if deps != [] {
      var last, init := deps[|deps| - 1], deps[..|deps| - 1];
      CountsExceed(init, rows, r, t);
      SuccessRowsPositive(rows, r, last.dependsOn);
      assert deps == init + [last];
    }
  }

  lemma DepsAreRows(c: Catalog, dagId: nat, t: nat)
    requires t in TasksOf(c, dagId)
    ensures forall d :: d in DepsOf(DagOf(c, dagId), t) <==>
              exists i :: 0 <= i < |c.deps| && c.deps[i].taskId == t && c.deps[i].dependsOn == d
  {
    var g := DagOf(c, dagId);
    forall i | 0 <= i < |c.deps| && c.deps[i].taskId == t ensures c.deps[i].dependsOn in DepsOf(g, t) {
      assert (c.deps[i].taskId, c.deps[i].dependsOn) in g.needs;
    }
  }

  ghost predicate SingleSuccesses(rows: seq<TaskRun>, r: nat, tasks: set<nat>) {
    forall d :: d in tasks ==> SuccessRows(rows, r, d) <= 1
  }

  lemma LetThroughByCounts(c: Catalog, rows: seq<TaskRun>, dagId: nat, r: nat, t: nat)
    ensures t in LetThrough(c, rows, dagId, r) <==>
              && t in TasksOf(c, dagId) && DepsOf(DagOf(c, dagId), t) != {} && t !in Started(rows, r)
              && MetCount(c.deps, rows, r, t) == DepCount(c.deps, t)
  {
    if t in TasksOf(c, dagId) {
      DepsAreRows(c, dagId, t);
      DepCountPositive(c.deps, t);
      if DepCount(c.deps, t) > 0 {
        var i :| 0 <= i < |c.deps| && c.deps[i].taskId == t;
        assert c.deps[i].dependsOn in DepsOf(DagOf(c, dagId), t);
      }
    }
  }

  /** The count comparison is exact for a task none of whose dependencies has two success rows. */
  lemma LetThroughExactly(c: Catalog, rows: seq<TaskRun>, dagId: nat, r: nat, t: nat)
    requires SingleSuccesses(rows, r, DepsOf(DagOf(c, dagId), t))
    ensures t in LetThrough(c, rows, dagId, r) <==> Candidate(DagOf(c, dagId), rows, r, t)
  {
    LetThroughByCounts(c, rows, dagId, r, t);
    if t in TasksOf(c, dagId) {
      DepsAreRows(c, dagId, t);
      CountsMeet(c.deps, rows, r, t);
    }
  }

  lemma RunnableAreCandidates(c: Catalog, rows: seq<TaskRun>, dagId: nat, r: nat, k: nat, t: nat)
    requires SingleSuccesses(rows, r, DepsOf(DagOf(c, dagId), t))
    ensures t in RunnableIds(c, rows, dagId, r, k) <==>
              Candidate(DagOf(c, dagId), rows, r, t) && t !in TasksIn(rows, k)
  {
    LetThroughExactly(c, rows, dagId, r, t);
  }

  // ----- The same, row by row -----

  lemma {:induction false} SuccessRowsCount(rows: seq<TaskRun>, r: nat, d: nat)
    ensures SuccessRows(rows, r, d) ==
            |set i | 0 <= i < |rows| && rows[i].runId == r && rows[i].taskId == d && rows[i].status == Success|
  {
    var all := set i | 0 <= i < |rows| && rows[i].runId == r && rows[i].taskId == d && rows[i].status == Success;
    if rows == [] {
      assert all == {};
    } else {
      var last, init := |rows| - 1, rows[..|rows| - 1];
      var before := set i | 0 <= i < |init| && init[i].runId == r && init[i].taskId == d && init[i].status == Success;
      SuccessRowsCount(init, r, d);
      if rows[last].runId == r && rows[last].taskId == d && rows[last].status == Success {
        assert all == before + {last};
      } else {
        assert all == before;
      }
    }
  }

  lemma StartedMeans(rows: seq<TaskRun>, r: nat, t: nat)
    ensures t !in Started(rows, r) <==>
            forall i :: 0 <= i < |rows| && rows[i].runId == r && rows[i].taskId == t ==>
              rows[i].status == Pending || rows[i].status == Suspended
  {
    if t in Started(rows, r) {
      var i :| 0 <= i < |rows| && rows[i].runId == r && rows[i].taskId == t
               && rows[i].status != Pending && rows[i].status != Suspended;
    }
    forall i | 0 <= i < |rows| && rows[i].runId == r && rows[i].taskId == t
               && rows[i].status != Pending && rows[i].status != Suspended
      ensures t in Started(rows, r)
    {
      assert t in TasksWith(rows, r, rows[i].status);
    }
  }

  /** On any table: no returned task has a running, success or failed row in the run, or any row under k. */
  lemma ReturnedNotStarted(c: Catalog, rows: seq<TaskRun>, dagId: nat, r: nat, k: nat, t: nat)
    requires t in RunnableIds(c, rows, dagId, r, k)
    ensures forall i :: 0 <= i < |rows| && rows[i].runId == r && rows[i].taskId == t ==>
              rows[i].status == Pending || rows[i].status == Suspended
    ensures forall i :: 0 <= i < |rows| && rows[i].runId == k ==> rows[i].taskId != t
  {
    LetThroughByCounts(c, rows, dagId, r, t);
    StartedMeans(rows, r, t);
    NoRowMeans(rows, k, t);
  }

  lemma NoRowMeans(rows: seq<TaskRun>, k: nat, t: nat)
    ensures t !in TasksIn(rows, k) <==> forall i :: 0 <= i < |rows| && rows[i].runId == k ==> rows[i].taskId != t
  {
    forall i | 0 <= i < |rows| && rows[i].runId == k && rows[i].taskId == t ensures t in TasksIn(rows, k) {}
  }

  /** Task d has a success row in run r. */
  ghost predicate HasSucceeded(rows: seq<TaskRun>, r: nat, d: nat) {
    exists i :: 0 <= i < |rows| && rows[i].runId == r && rows[i].taskId == d && rows[i].status == Success
  }

  lemma CandidateByRows(c: Catalog, rows: seq<TaskRun>, dagId: nat, r: nat, t: nat)
    ensures Candidate(DagOf(c, dagId), rows, r, t) <==>
              && t < |c.tasks| && c.tasks[t].dagId == dagId
              && (exists i :: 0 <= i < |c.deps| && c.deps[i].taskId == t)
              && (forall i :: 0 <= i < |c.deps| && c.deps[i].taskId == t ==> HasSucceeded(rows, r, c.deps[i].dependsOn))
              && forall i :: 0 <= i < |rows| && rows[i].runId == r && rows[i].taskId == t ==>
                   rows[i].status == Pending || rows[i].status == Suspended
  {
    StartedMeans(rows, r, t);
    if t in TasksOf(c, dagId) {
      var deps := DepsOf(DagOf(c, dagId), t);
      DepsAreRows(c, dagId, t);
      if i :| 0 <= i < |c.deps| && c.deps[i].taskId == t {
        assert c.deps[i].dependsOn in deps;
      }
      assert deps <= TasksWith(rows, r, Success) <==>
        forall i :: 0 <= i < |c.deps| && c.deps[i].taskId == t ==> c.deps[i].dependsOn in TasksWith(rows, r, Success);
      forall d ensures d in TasksWith(rows, r, Success) <==> HasSucceeded(rows, r, d) {}
    }
  }

  lemma RunnableExactly(c: Catalog, rows: seq<TaskRun>, dagId: nat, r: nat, k: nat, t: nat)
    requires SingleSuccesses(rows, r, DepsOf(DagOf(c, dagId), t))
    ensures t in RunnableIds(c, rows, dagId, r, k) <==>
              && t < |c.tasks| && c.tasks[t].dagId == dagId
              && (exists i :: 0 <= i < |c.deps| && c.deps[i].taskId == t)
              && (forall i :: 0 <= i < |c.deps| && c.deps[i].taskId == t ==> HasSucceeded(rows, r, c.deps[i].dependsOn))
              && (forall i :: 0 <= i < |rows| && rows[i].runId == r && rows[i].taskId == t ==>
                    rows[i].status == Pending || rows[i].status == Suspended)
              && forall i :: 0 <= i < |rows| && rows[i].runId == k ==> rows[i].taskId != t
  {
    RunnableAreCandidates(c, rows, dagId, r, k, t);
    CandidateByRows(c, rows, dagId, r, t);
    NoRowMeans(rows, k, t);
  }

  /** On any table: a task that is let through has only succeeded dependencies, exactly if none of them
      has two success rows. */
  lemma LetThroughInOrderIff(c: Catalog, rows: seq<TaskRun>, dagId: nat, r: nat, t: nat)
    requires t in LetThrough(c, rows, dagId, r)
    ensures DepsOf(DagOf(c, dagId), t) <= TasksWith(rows, r, Success) <==>
            SingleSuccesses(rows, r, DepsOf(DagOf(c, dagId), t))
  {
    var deps := DepsOf(DagOf(c, dagId), t);
    LetThroughByCounts(c, rows, dagId, r, t);
    DepsAreRows(c, dagId, t);
    if deps <= TasksWith(rows, r, Success) {
      CountsExceed(c.deps, rows, r, t);
    } else if SingleSuccesses(rows, r, deps) {
      CountsMeet(c.deps, rows, r, t);
    }
  }

  /** And the mirror image: a task that should be let through is, exactly under the same condition. */
  lemma CandidateLetThroughIff(c: Catalog, rows: seq<TaskRun>, dagId: nat, r: nat, t: nat)
    requires Candidate(DagOf(c, dagId), rows, r, t)
    ensures t in LetThrough(c, rows, dagId, r) <==> SingleSuccesses(rows, r, DepsOf(DagOf(c, dagId), t))
  {
    LetThroughByCounts(c, rows, dagId, r, t);
    DepsAreRows(c, dagId, t);
    CountsExceed(c.deps, rows, r, t);
  }

  /** The two, for the answer: order is kept, and a task that waits for nothing is returned, exactly if
      none of its dependencies has two success rows. */
  lemma RunnableInOrderIff(c: Catalog, rows: seq<TaskRun>, dagId: nat, r: nat, k: nat, t: nat)
    ensures t in RunnableIds(c, rows, dagId, r, k) ==>
              (DepsOf(DagOf(c, dagId), t) <= TasksWith(rows, r, Success) <==>
               SingleSuccesses(rows, r, DepsOf(DagOf(c, dagId), t)))
    ensures Candidate(DagOf(c, dagId), rows, r, t) && t !in TasksIn(rows, k) ==>
              (t in RunnableIds(c, rows, dagId, r, k) <==> SingleSuccesses(rows, r, DepsOf(DagOf(c, dagId), t)))
  {
    if t in LetThrough(c, rows, dagId, r) {
      LetThroughInOrderIff(c, rows, dagId, r, t);
    }
    if Candidate(DagOf(c, dagId), rows, r, t) {
      CandidateLetThroughIff(c, rows, dagId, r, t);
    }
  }

  // ----- What is returned against what is ready, on any table -----

  /** Whatever is let through and has a row in run r has one under k: nothing is returned twice. */
  ghost predicate FindsRows(c: Catalog, rows: seq<TaskRun>, dagId: nat, r: nat, k: nat) {
    forall t :: t in LetThrough(c, rows, dagId, r) && t in TasksIn(rows, r) ==> t in TasksIn(rows, k)
  }

  /** Nothing that is ready has a row under k or a dependency with two success rows: nothing is forgotten. */
  ghost predicate ForgetsNone(c: Catalog, rows: seq<TaskRun>, dagId: nat, r: nat, k: nat) {
    var g := DagOf(c, dagId);
    forall t :: t in Ready(g, ProgressOf(rows, r)) ==> t !in TasksIn(rows, k) && SingleSuccesses(rows, r, DepsOf(g, t))
  }

  /** Nothing that is returned has a dependency with two success rows: nothing comes too early. */
  ghost predicate NoneTooEarly(c: Catalog, rows: seq<TaskRun>, dagId: nat, r: nat, found: set<nat>) {
    forall t :: t in found ==> SingleSuccesses(rows, r, DepsOf(DagOf(c, dagId), t))
  }

  lemma StartedHaveRows(rows: seq<TaskRun>, r: nat)
    ensures Started(rows, r) <= TasksIn(rows, r)
  {
    forall t | t in Started(rows, r) ensures t in TasksIn(rows, r) {
      var status :| t in TasksWith(rows, r, status);
    }
  }

  lemma ReadyAreCandidates(g: Dag, rows: seq<TaskRun>, r: nat)
    ensures forall t :: t in Ready(g, ProgressOf(rows, r)) <==> Candidate(g, rows, r, t) && t !in TasksIn(rows, r)
  {
    StartedHaveRows(rows, r);
  }

  /** The filter's three possible mistakes, each with its exact condition. */
  lemma RunnableAgainstRows(c: Catalog, rows: seq<TaskRun>, dagId: nat, r: nat, k: nat)
    ensures var found, ready := RunnableIds(c, rows, dagId, r, k), Ready(DagOf(c, dagId), ProgressOf(rows, r));
            && (found !! TasksIn(rows, r) <==> FindsRows(c, rows, dagId, r, k))
            && (ready <= found <==> ForgetsNone(c, rows, dagId, r, k))
            && ((forall t :: t in found ==> DepsOf(DagOf(c, dagId), t) <= TasksWith(rows, r, Success)) <==>
                NoneTooEarly(c, rows, dagId, r, found))
  {
    var found, ready := RunnableIds(c, rows, dagId, r, k), Ready(DagOf(c, dagId), ProgressOf(rows, r));
    ReadyAreCandidates(DagOf(c, dagId), rows, r);
    if found !! TasksIn(rows, r) {
      forall t | t in LetThrough(c, rows, dagId, r) && t in TasksIn(rows, r) ensures t in TasksIn(rows, k) {
        assert t !in found;
      }
    }
    forall t | t in ready
      ensures t in found <==> t !in TasksIn(rows, k) && SingleSuccesses(rows, r, DepsOf(DagOf(c, dagId), t))
    {
      CandidateLetThroughIff(c, rows, dagId, r, t);
    }
    forall t | t in found
      ensures DepsOf(DagOf(c, dagId), t) <= TasksWith(rows, r, Success) <==>
              SingleSuccesses(rows, r, DepsOf(DagOf(c, dagId), t))
    {
      LetThroughInOrderIff(c, rows, dagId, r, t);
    }
  }

  /** The answer is what is ready exactly if none of the three is made. */
  lemma RunnableIsReadyIff(c: Catalog, rows: seq<TaskRun>, dagId: nat, r: nat, k: nat)
    ensures var found := RunnableIds(c, rows, dagId, r, k);
            found == Ready(DagOf(c, dagId), ProgressOf(rows, r)) <==>
              FindsRows(c, rows, dagId, r, k) && ForgetsNone(c, rows, dagId, r, k)
                  && NoneTooEarly(c, rows, dagId, r, found)
  {
    var found, ready := RunnableIds(c, rows, dagId, r, k), Ready(DagOf(c, dagId), ProgressOf(rows, r));
    RunnableAgainstRows(c, rows, dagId, r, k);
    assert ready !! TasksIn(rows, r);
    if FindsRows(c, rows, dagId, r, k) && NoneTooEarly(c, rows, dagId, r, found) {
      forall t | t in found ensures t in ready {
        LetThroughByCounts(c, rows, dagId, r, t);
      }
    }
  }

  /** Two success rows of one dependency stand in for the missing one of another. */
  lemma DuplicateSuccessFoolsTheCount()
    ensures exists c, rows, t ::
            && t in RunnableIds(c, rows, 0, 0, 0)
            && !(DepsOf(DagOf(c, 0), t) <= TasksWith(rows, 0, Success))
  {
    var task := DagTask(0, "", 1);
    var c := Catalog([DagVersion("", 3)], [task, task, task], [Dependency(2, 0), Dependency(2, 1)]);
    var done := TaskRun(0, 0, Success, None);
    var rows := [done, done];
    assert c.deps[..1] == [Dependency(2, 0)] && c.deps[..1][..0] == [];
    assert rows[..1] == [done] && rows[..1][..0] == [];
    assert DepCount(c.deps, 2) == 2;
    assert SuccessRows(rows[..0], 0, 0) == 0 && SuccessRows(rows[..0], 0, 1) == 0;
    assert SuccessRows(rows[..1], 0, 0) == 1 && SuccessRows(rows[..1], 0, 1) == 0;
    assert SuccessRows(rows, 0, 0) == 2 && SuccessRows(rows, 0, 1) == 0;
    assert MetCount(c.deps[..1], rows, 0, 2) == 2;
    assert MetCount(c.deps, rows, 0, 2) == 2;
    assert c.tasks[2].dagId == 0;
    assert 2 in TasksOf(c, 0);
    assert 2 !in Started(rows, 0);
    assert 2 in RunnableIds(c, rows, 0, 0, 0);
    DepsAreRows(c, 0, 2);
    assert c.deps[1].dependsOn == 1;
    assert 1 in DepsOf(DagOf(c, 0), 2) && 1 !in TasksWith(rows, 0, Success);
  }
}
