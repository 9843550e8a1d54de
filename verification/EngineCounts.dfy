/** What the counters of a run count whatever ids successes pass: rows. They count tasks exactly as long
    as no task has two rows with the same outcome. */
module EngineCounts {
  import opened Prelude
  import opened Graphs
  import opened Tables
  import opened RunProgress
  import opened Claims
  import opened Store
  import opened Engine
  import opened RowFacts
  import opened EngineAnyId

  /** The rows of run r with one of these statuses. */
  function RowsWith(rows: seq<TaskRun>, r: nat, among: set<Status>): set<nat> {
    set i | 0 <= i < |rows| && rows[i].runId == r && rows[i].status in among
  }

  function RowCount(rows: seq<TaskRun>, r: nat, status: Status): nat {
    |RowsWith(rows, r, {status})|
  }

  lemma CountAppended(rows: seq<TaskRun>, row: TaskRun, r: nat, status: Status)
    ensures RowCount(rows + [row], r, status) ==
            RowCount(rows, r, status) + if row.runId == r && row.status == status then 1 else 0
  {
    var more := if row.runId == r && row.status == status then {|rows|} else {};
    assert RowsWith(rows + [row], r, {status}) == RowsWith(rows, r, {status}) + more;
    DisjointSize(RowsWith(rows, r, {status}), more);
  }

  lemma {:induction false} CountSuspended(rows: seq<TaskRun>, run: nat, ids: seq<nat>, r: nat, status: Status)
    ensures RowCount(rows + SuspendedRows(run, ids), r, status) ==
            RowCount(rows, r, status) + if r == run && status == Suspended then |ids| else 0
  {
    if ids == [] {
      assert rows + SuspendedRows(run, ids) == rows;
    } else {
      var init, last := ids[..|ids| - 1], NewRow(run, ids[|ids| - 1], Suspended);
      CountSuspended(rows, run, init, r, status);
      CountAppended(rows + SuspendedRows(run, init), last, r, status);
      assert rows + SuspendedRows(run, ids) == (rows + SuspendedRows(run, init)) + [last];
    }
  }

  lemma CountFinished(rows: seq<TaskRun>, id: nat, outcome: Status, r: nat, status: Status)
    requires id < |rows| && rows[id].status == Running && Terminal(status)
    ensures RowCount(WithStatus(rows, id, outcome), r, status) ==
            RowCount(rows, r, status) + if rows[id].runId == r && outcome == status then 1 else 0
  {
    var after, at := WithStatus(rows, id, outcome), RowsWith(rows, r, {status});
    assert id !in at;
    forall i | 0 <= i < |rows| && i != id ensures i in RowsWith(after, r, {status}) <==> i in at {
      assert after[i] == rows[i];
    }
    if rows[id].runId == r && outcome == status {
      assert RowsWith(after, r, {status}) == at + {id};
    } else {
      assert RowsWith(after, r, {status}) == at;
    }
  }

  lemma CountStuttered(rows: seq<TaskRun>, after: seq<TaskRun>, r: nat, status: Status)
    requires Stutters(rows, after) && Terminal(status)
    ensures RowCount(after, r, status) == RowCount(rows, r, status)
  {
    forall i | 0 <= i < |rows| ensures i in RowsWith(after, r, {status}) <==> i in RowsWith(rows, r, {status}) {
      assert RowStutters(rows[i], after[i]);
    }
    assert RowsWith(after, r, {status}) == RowsWith(rows, r, {status});
  }

  lemma CountNone(rows: seq<TaskRun>, r: nat, status: Status)
    requires forall i :: 0 <= i < |rows| ==> rows[i].runId != r
    ensures RowCount(rows, r, status) == 0
  {
    assert RowsWith(rows, r, {status}) == {};
  }

  // ----- Every step keeps the counters at the numbers of rows -----

  ghost predicate CountsRows(run: DagRun, rows: seq<TaskRun>, r: nat) {
    && run.successfulCount == RowCount(rows, r, Success)
    && run.failedCount == RowCount(rows, r, Failed)
    && run.suspendedCount == RowCount(rows, r, Suspended)
  }

  ghost predicate AllCountRows(db: Db) {
    forall r :: 0 <= r < |db.dagRuns| ==> CountsRows(db.dagRuns[r], db.taskRuns, r)
  }

  lemma PendingUncounted(run: DagRun, rows: seq<TaskRun>, row: TaskRun, r: nat)
    requires CountsRows(run, rows, r) && row.status == Pending
    ensures CountsRows(run, rows + [row], r)
  {
    CountAppended(rows, row, r, Success);
    CountAppended(rows, row, r, Failed);
    CountAppended(rows, row, r, Suspended);
  }

  lemma InsertKeepsCounts(db: Db, run: nat, task: nat)
    requires AllCountRows(db)
    ensures AllCountRows(AddPending(db, run, task))
  {
    forall r | 0 <= r < |db.dagRuns| ensures CountsRows(db.dagRuns[r], db.taskRuns + [NewRow(run, task, Pending)], r) {
      PendingUncounted(db.dagRuns[r], db.taskRuns, NewRow(run, task, Pending), r);
    }
  }

  lemma OutcomeKeepsCounts(c: Catalog, db: Db, id: nat, success: bool)
    requires AllCountRows(db) && Keyed(c, db) && id < |db.taskRuns| && db.taskRuns[id].status == Running
    ensures AllCountRows(if success then MarkSuccess(c, db, id) else MarkFailed(c, db, id))
  {
    var after := if success then MarkSuccess(c, db, id) else MarkFailed(c, db, id);
    forall r | 0 <= r < |db.dagRuns| ensures CountsRows(after.dagRuns[r], after.taskRuns, r) {
      assert CountsRows(db.dagRuns[r], db.taskRuns, r);
      CountFinished(db.taskRuns, id, if success then Success else Failed, r, Success);
      CountFinished(db.taskRuns, id, if success then Success else Failed, r, Failed);
      CountFinished(db.taskRuns, id, if success then Success else Failed, r, Suspended);
    }
  }

  lemma SuspendKeepsCounts(db: Db, run: nat, found: seq<nat>)
    requires AllCountRows(db) && run < |db.dagRuns|
    ensures AllCountRows(Suspend(db, run, found))
  {
    var after := Suspend(db, run, found);
    forall r | 0 <= r < |db.dagRuns| ensures CountsRows(after.dagRuns[r], after.taskRuns, r) {
      assert CountsRows(db.dagRuns[r], db.taskRuns, r);
      CountSuspended(db.taskRuns, run, found, r, Success);
      CountSuspended(db.taskRuns, run, found, r, Failed);
      CountSuspended(db.taskRuns, run, found, r, Suspended);
    }
  }

  lemma NewRunKeepsCounts(c: Catalog, db: Db, name: string, dagId: nat)
    requires AllCountRows(db) && Keyed(c, db)
    ensures AllCountRows(AddRun(db, name, dagId))
  {
    var after := AddRun(db, name, dagId);
    forall r | 0 <= r < |after.dagRuns| ensures CountsRows(after.dagRuns[r], after.taskRuns, r) {
      if r == |db.dagRuns| {
        CountNone(db.taskRuns, r, Success);
        CountNone(db.taskRuns, r, Failed);
        CountNone(db.taskRuns, r, Suspended);
      } else {
        assert CountsRows(db.dagRuns[r], db.taskRuns, r);
      }
    }
  }

  lemma ClaimsKeepCounts(c: Catalog, s: Sys, a: Action)
    requires AllCountRows(s.db) && StartsInv(c, s) && Enabled(c, s, a)
    requires a.ClaimTasks? || a.Renew? || a.Recover? || a.Finalise? || a.ClaimRetry?
    ensures AllCountRows(Next(c, s, a).db)
  {
    var rows, after := s.db.taskRuns, Next(c, s, a).db.taskRuns;
    forall i | 0 <= i < |rows| ensures RowStutters(rows[i], after[i]) {}
    forall r | 0 <= r < |s.db.dagRuns| ensures CountsRows(s.db.dagRuns[r], after, r) {
      assert CountsRows(s.db.dagRuns[r], rows, r);
      CountStuttered(rows, after, r, Success);
      CountStuttered(rows, after, r, Failed);
      CountStuttered(rows, after, r, Suspended);
    }
  }

  lemma StepKeepsCounts(c: Catalog, s: Sys, a: Action)
    requires AllCountRows(s.db) && StartsInv(c, s) && Enabled(c, s, a)
    ensures AllCountRows(Next(c, s, a).db)
  {
    match a {
      case Succeed(id, _, _) => OutcomeKeepsCounts(c, s.db, id, true);
      case EnqueueOne => InsertKeepsCounts(s.db, s.handler.run, s.handler.todo[0]);
      case Fail(id) => OutcomeKeepsCounts(c, s.db, id, false);
      case SuspendBelow(_, found) => SuspendKeepsCounts(s.db, s.handler.run, found);
      case Retry(id) => InsertKeepsCounts(s.db, s.db.taskRuns[id].runId, s.db.taskRuns[id].taskId);
      case CheckDone =>
      case StartRun(name, dagName) => NewRunKeepsCounts(c, s.db, name, s.latest[dagName]);
      case InsertOne => InsertKeepsCounts(s.db, s.controller.run, s.controller.task);
      case Publish(_, _) =>
      case ListStarting(_) =>
      case CheckOne =>
      case Crash =>
      case _ => ClaimsKeepCounts(c, s, a);
    }
  }

  lemma {:induction false} RunKeepsCounts(c: Catalog, ids: Ids, s: Sys, actions: seq<Action>, t: Sys)
    requires AllCountRows(s.db) && StartsInv(c, s) && Runs(c, ids, s, actions, t)
    ensures AllCountRows(t.db)
    decreases |actions|
  {
    if actions != [] {
      StepKeepsCounts(c, s, actions[0]);
      StepKeepsStarts(c, s, actions[0]);
      RunKeepsCounts(c, ids, Next(c, s, actions[0]), actions[1..], t);
    }
  }

  // ----- Rows against tasks -----

  function TasksAt(rows: seq<TaskRun>, at: set<nat>): set<nat> {
    set i | i in at && i < |rows| :: rows[i].taskId
  }

  lemma {:induction false} RowsAgainstTasks(rows: seq<TaskRun>, at: set<nat>)
    requires forall i :: i in at ==> i < |rows|
    ensures |TasksAt(rows, at)| <= |at|
    ensures |TasksAt(rows, at)| == |at| <==>
              forall i, j :: i in at && j in at && i < j ==> rows[i].taskId != rows[j].taskId
    decreases |at|
  {
    if at == {} {
      assert TasksAt(rows, at) == {};
    } else {
      var i :| i in at;
      var rest := at - {i};
      RowsAgainstTasks(rows, rest);
      assert TasksAt(rows, at) == TasksAt(rows, rest) + {rows[i].taskId};
      if rows[i].taskId in TasksAt(rows, rest) {
        var j :| j in rest && rows[j].taskId == rows[i].taskId;
        assert TasksAt(rows, at) == TasksAt(rows, rest);
      }
    }
  }

  /** Two rows of one task in run r with a status among these. */
  ghost predicate Repeated(rows: seq<TaskRun>, r: nat, among: set<Status>) {
    exists i, j :: 0 <= i < j < |rows| && SameKey(rows[i], rows[j]) && i in RowsWith(rows, r, among)
        && j in RowsWith(rows, r, among)
  }

  lemma RepeatedIff(rows: seq<TaskRun>, r: nat, among: set<Status>)
    ensures var at := RowsWith(rows, r, among); |TasksAt(rows, at)| <= |at|
    ensures var at := RowsWith(rows, r, among); |TasksAt(rows, at)| == |at| <==> !Repeated(rows, r, among)
  {
    var at := RowsWith(rows, r, among);
    RowsAgainstTasks(rows, at);
    if i, j :| i in at && j in at && i < j && rows[i].taskId == rows[j].taskId {
      assert SameKey(rows[i], rows[j]);
    }
  }

  lemma TasksAtAre(rows: seq<TaskRun>, r: nat, status: Status)
    ensures TasksAt(rows, RowsWith(rows, r, {status})) == TasksWith(rows, r, status)
  {
    forall t | t in TasksWith(rows, r, status) ensures t in TasksAt(rows, RowsWith(rows, r, {status})) {
      var i: nat :| i < |rows| && rows[i].runId == r && rows[i].status == status && rows[i].taskId == t;
      assert i in RowsWith(rows, r, {status});
    }
  }

  lemma CountedExactlyIff(rows: seq<TaskRun>, r: nat, status: Status)
    ensures |TasksWith(rows, r, status)| <= RowCount(rows, r, status)
    ensures |TasksWith(rows, r, status)| == RowCount(rows, r, status) <==> !Repeated(rows, r, {status})
  {
    RepeatedIff(rows, r, {status});
    TasksAtAre(rows, r, status);
  }

  lemma ReachableCounts(c: Catalog, s: Sys, r: nat)
    requires Reachable(c, AnyId, s) && r < |s.db.dagRuns|
    ensures CountsRows(s.db.dagRuns[r], s.db.taskRuns, r)
  {
    var actions :| Runs(c, AnyId, Initial(), actions, s);
    RunKeepsCounts(c, AnyId, Initial(), actions, s);
  }

  /** Over every run, whatever ids are passed: each counter is the number of its tasks if and only if no
      task has two rows with that outcome, and it is larger otherwise. */
  lemma CountersExactIff(c: Catalog, s: Sys, r: nat)
    requires Reachable(c, AnyId, s) && r < |s.db.dagRuns|
    ensures var run, rows := s.db.dagRuns[r], s.db.taskRuns;
            && run.successfulCount >= |TasksWith(rows, r, Success)|
            && run.failedCount >= |TasksWith(rows, r, Failed)|
            && run.suspendedCount >= |TasksWith(rows, r, Suspended)|
            && (run.successfulCount == |TasksWith(rows, r, Success)| <==> !Repeated(rows, r, {Success}))
            && (run.failedCount == |TasksWith(rows, r, Failed)| <==> !Repeated(rows, r, {Failed}))
            && (run.suspendedCount == |TasksWith(rows, r, Suspended)| <==> !Repeated(rows, r, {Suspended}))
  {
    ReachableCounts(c, s, r);
    CountedExactlyIff(s.db.taskRuns, r, Success);
    CountedExactlyIff(s.db.taskRuns, r, Failed);
    CountedExactlyIff(s.db.taskRuns, r, Suspended);
  }

  // ----- All three outcomes together -----

  const TERMINAL: set<Status> := {Success, Failed, Suspended}

  /** Some task of run r has ended twice. */
  ghost predicate EndedTwice(rows: seq<TaskRun>, r: nat) {
    Repeated(rows, r, TERMINAL)
  }

  lemma EndedRows(rows: seq<TaskRun>, r: nat)
    ensures |RowsWith(rows, r, TERMINAL)| ==
            RowCount(rows, r, Success) + RowCount(rows, r, Failed) + RowCount(rows, r, Suspended)
    ensures TasksAt(rows, RowsWith(rows, r, TERMINAL)) == ProgressOf(rows, r).Finished()
  {
    var success, failed, suspended := RowsWith(rows, r, {Success}), RowsWith(rows, r, {Failed}),
        RowsWith(rows, r, {Suspended});
    DisjointSize(success, failed);
    DisjointSize(success + failed, suspended);
    assert RowsWith(rows, r, TERMINAL) == success + failed + suspended;
    TasksAtAre(rows, r, Success);
    TasksAtAre(rows, r, Failed);
    TasksAtAre(rows, r, Suspended);
    assert TasksAt(rows, success + failed + suspended) ==
           TasksAt(rows, success) + TasksAt(rows, failed) + TasksAt(rows, suspended);
  }

  /** The sum of the counters that decides completion is the number of ended tasks exactly if none has
      ended twice. */
  lemma SumExactIff(run: DagRun, rows: seq<TaskRun>, r: nat)
    requires CountsRows(run, rows, r)
    ensures var sum, ended := run.successfulCount + run.failedCount + run.suspendedCount,
            ProgressOf(rows, r).Finished();
            |ended| <= sum && (|ended| == sum <==> !EndedTwice(rows, r))
  {
    EndedRows(rows, r);
    RepeatedIff(rows, r, TERMINAL);
  }
}
