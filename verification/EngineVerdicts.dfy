/** What the counters, the status and the removal of the workspace say about the tasks of a run, whatever
    ids successes pass: each with the exact condition under which it is right. */
module EngineVerdicts {
  import opened Prelude
  import opened Graphs
  import opened Tables
  import opened RunProgress
  import opened LooseProgress
  import opened RunnableTasks
  import opened Claims
  import opened Store
  import opened Engine
  import opened RowFacts
  import opened EngineSteps
  import opened EngineOutcomes
  import opened EngineStarts
  import opened EngineRuns
  import opened EngineAnyId
  import opened EngineCounts
  import opened EngineOrder
  import opened EngineAnyRuns

  ghost predicate AllEnded(c: Catalog, s: Sys, r: nat)
    requires r < |s.db.dagRuns|
  {
    forall t :: t in GraphOf(c, s, r).tasks ==> Ended(s.db.taskRuns, r, t)
  }

  /** A count that is at least the size of a set of the tasks, and exactly its size if `once`. */
  lemma TwoOfThree(done: set<nat>, tasks: set<nat>, count: nat, once: bool)
    requires done <= tasks && |done| <= count && (|done| == count <==> once)
    ensures count == |tasks| ==> (done == tasks <==> once)
    ensures done == tasks ==> (count == |tasks| <==> once)
    ensures once ==> (count == |tasks| <==> done == tasks)
  {
    SubsetSize(done, tasks);
  }

  lemma AllEndedFinished(c: Catalog, s: Sys, r: nat)
    requires r < |s.db.dagRuns| && ProgressOf(s.db.taskRuns, r).Finished() <= GraphOf(c, s, r).tasks
    ensures AllEnded(c, s, r) <==> ProgressOf(s.db.taskRuns, r).Finished() == GraphOf(c, s, r).tasks
  {
    forall t { EndedFinished(s.db.taskRuns, r, t); }
  }

  // ----- Completion -----

  /** The completion check against the tasks: of `the check says so`, `every task has ended` and `no task
      has ended twice` any two give the third. In particular, once the check says so, every task has ended
      if and only if none has ended twice. */
  lemma DoneExactlyIff(c: Catalog, s: Sys, r: nat)
    requires WellFormed(c) && Reachable(c, AnyId, s) && r < |s.db.dagRuns|
    ensures AllTasksDone(c, s.db, r) ==> (AllEnded(c, s, r) <==> !EndedTwice(s.db.taskRuns, r))
    ensures AllEnded(c, s, r) ==> (AllTasksDone(c, s.db, r) <==> !EndedTwice(s.db.taskRuns, r))
    ensures !EndedTwice(s.db.taskRuns, r) ==> (AllTasksDone(c, s.db, r) <==> AllEnded(c, s, r))
  {
    ReachableAny(c, AnyId, s);
    var v := ViewOf(c, s, r);
    assert Held(v) && CountsRows(s.db.dagRuns[r], s.db.taskRuns, r);
    SumExactIff(s.db.dagRuns[r], s.db.taskRuns, r);
    AllEndedFinished(c, s, r);
    TwoOfThree(v.p.Finished(), v.g.tasks, Outcomes(v.run), !EndedTwice(s.db.taskRuns, r));
  }

  /** The success counter against the tasks, likewise. */
  lemma SuccessExactlyIff(c: Catalog, s: Sys, r: nat)
    requires WellFormed(c) && Reachable(c, AnyId, s) && r < |s.db.dagRuns|
    ensures var all := TasksWith(s.db.taskRuns, r, Success) == GraphOf(c, s, r).tasks;
            var once := !Repeated(s.db.taskRuns, r, {Success});
            var counted := s.db.dagRuns[r].successfulCount == |GraphOf(c, s, r).tasks|;
            (counted ==> (all <==> once)) && (all ==> (counted <==> once)) && (once ==> (counted <==> all))
  {
    ReachableAny(c, AnyId, s);
    var v := ViewOf(c, s, r);
    assert Held(v);
    CountersExactIff(c, s, r);
    TwoOfThree(v.p.succeeded, v.g.tasks, v.run.successfulCount, !Repeated(s.db.taskRuns, r, {Success}));
  }

  lemma MarkedIsNext(c: Catalog, s: Sys, id: nat, k: nat, next: seq<nat>)
    requires WellFormed(c) && Keyed(c, s.db) && Enabled(c, s, Succeed(id, k, next))
    ensures var r, t := s.db.taskRuns[id].runId, DoSucceed(c, s, id, next);
            && r < |t.db.dagRuns| && GraphOf(c, t, r) == GraphOf(c, s, r)
            && (TurnsSuccess(c, s.db.dagRuns[r]) <==> t.db.dagRuns[r].successfulCount == |GraphOf(c, t, r).tasks|)
  {
    TaskCount(c, s, s.db.taskRuns[id].runId);
  }

  /** The second update of DAG_Runs against the tasks, likewise, in the state after the success. */
  lemma EveryTaskSucceededIff(c: Catalog, s: Sys, id: nat, k: nat, next: seq<nat>)
    requires WellFormed(c) && Reachable(c, AnyId, s) && Keyed(c, s.db) && Enabled(c, s, Succeed(id, k, next))
    ensures var r, after := s.db.taskRuns[id].runId, MarkSuccess(c, s.db, id).taskRuns;
            var all := TasksWith(after, r, Success) == GraphOf(c, s, r).tasks;
            var once, hit := !Repeated(after, r, {Success}), TurnsSuccess(c, s.db.dagRuns[r]);
            (hit ==> (all <==> once)) && (all ==> (hit <==> once)) && (once ==> (hit <==> all))
  {
    var t := DoSucceed(c, s, id, next);
    OneStep(c, AnyId, s, Succeed(id, k, next));
    ReachableOn(c, AnyId, s, [Succeed(id, k, next)], t);
    MarkedIsNext(c, s, id, k, next);
    SuccessExactlyIff(c, t, s.db.taskRuns[id].runId);
  }

  // ----- The status -----

  /** The status says what the tasks say. */
  ghost predicate StatusRight(v: RunView) {
    && (v.run.status == RunSuccess <==> v.p.succeeded == v.g.tasks)
    && (v.run.status == RunFailed <==> v.p.failed != {})
  }

  lemma StatusRightIff(v: RunView)
    requires Held(v) && |v.p.succeeded| <= v.run.successfulCount && (v.run.failedCount > 0 <==> v.p.failed != {})
    ensures StatusRight(v) <==>
            || v.run.successfulCount < |v.g.tasks|
            || (v.p.failed == {} && v.p.succeeded == v.g.tasks)
            || (v.run.status == RunFailed && v.p.succeeded != v.g.tasks)
  {
    if v.p.succeeded == v.g.tasks {
      assert |v.g.tasks| <= v.run.successfulCount;
    }
  }

  lemma FailedCounted(c: Catalog, s: Sys, r: nat)
    requires Reachable(c, AnyId, s) && r < |s.db.dagRuns|
    ensures s.db.dagRuns[r].failedCount > 0 <==> TasksWith(s.db.taskRuns, r, Failed) != {}
  {
    ReachableCounts(c, s, r);
    var at := RowsWith(s.db.taskRuns, r, {Failed});
    TasksAtAre(s.db.taskRuns, r, Failed);
    if at != {} {
      var i :| i in at;
      assert s.db.taskRuns[i].taskId in TasksAt(s.db.taskRuns, at);
    }
  }

  /** Whatever ids are passed: as long as the success counter is short of the number of tasks the status
      is right; after that it is right exactly if all tasks have succeeded and none failed, or the status
      is failed and some task has not succeeded. */
  lemma StatusExactlyIff(c: Catalog, s: Sys, r: nat)
    requires WellFormed(c) && Reachable(c, AnyId, s) && r < |s.db.dagRuns|
    ensures var v := ViewOf(c, s, r);
            StatusRight(v) <==>
              || v.run.successfulCount < |v.g.tasks|
              || (v.p.failed == {} && v.p.succeeded == v.g.tasks)
              || (v.run.status == RunFailed && v.p.succeeded != v.g.tasks)
  {
    ReachableAny(c, AnyId, s);
    assert Held(ViewOf(c, s, r));
    CountersExactIff(c, s, r);
    FailedCounted(c, s, r);
    StatusRightIff(ViewOf(c, s, r));
  }

  lemma AllEndedDecided(v: RunView)
    requires Held(v) && |v.p.succeeded| <= v.run.successfulCount && (v.run.failedCount > 0 <==> v.p.failed != {})
    requires v.p.Finished() == v.g.tasks
    ensures v.run.status != RunRunning
  {
    if v.p.failed == {} {
      assert v.p.succeeded == v.g.tasks;
    }
  }

  /** Whatever ids are passed: a run all of whose tasks have ended has a verdict. */
  lemma AllEndedHasVerdict(c: Catalog, s: Sys, r: nat)
    requires WellFormed(c) && Reachable(c, AnyId, s) && r < |s.db.dagRuns| && AllEnded(c, s, r)
    ensures s.db.dagRuns[r].status != RunRunning
  {
    ReachableAny(c, AnyId, s);
    assert Held(ViewOf(c, s, r));
    CountersExactIff(c, s, r);
    FailedCounted(c, s, r);
    AllEndedFinished(c, s, r);
    AllEndedDecided(ViewOf(c, s, r));
  }

  lemma EndedOnceExclusive(rows: seq<TaskRun>, r: nat)
    requires !EndedTwice(rows, r)
    ensures Exclusive(ProgressOf(rows, r))
    ensures !Repeated(rows, r, {Success}) && !Repeated(rows, r, {Failed}) && !Repeated(rows, r, {Suspended})
  {
    FinishedHaveRows(rows, r);
    forall one, other | one in TERMINAL && other in TERMINAL && one != other
      ensures TasksWith(rows, r, one) !! TasksWith(rows, r, other)
    {
      OnlyOneOutcome(rows, r, one, other);
    }
    forall one | one in TERMINAL ensures !Repeated(rows, r, {one}) {
      FewerRepeated(rows, r, one);
    }
  }

  lemma FewerRepeated(rows: seq<TaskRun>, r: nat, one: Status)
    requires one in TERMINAL
    ensures Repeated(rows, r, {one}) ==> EndedTwice(rows, r)
  {
    assert RowsWith(rows, r, {one}) <= RowsWith(rows, r, TERMINAL);
  }

  lemma OnlyOneOutcome(rows: seq<TaskRun>, r: nat, one: Status, other: Status)
    requires one in TERMINAL && other in TERMINAL && one != other && !EndedTwice(rows, r)
    ensures TasksWith(rows, r, one) !! TasksWith(rows, r, other)
  {
    forall t | t in TasksWith(rows, r, one) ensures t !in TasksWith(rows, r, other) {
      if t in TasksWith(rows, r, other) {
        var i: nat :| i < |rows| && rows[i].runId == r && rows[i].status == one && rows[i].taskId == t;
        var j: nat :| j < |rows| && rows[j].runId == r && rows[j].status == other && rows[j].taskId == t;
        TwoEndings(rows, r, i, j);
        assert false;
      }
    }
  }

  lemma TwoEndings(rows: seq<TaskRun>, r: nat, i: nat, j: nat)
    requires i < |rows| && j < |rows| && i != j && SameKey(rows[i], rows[j]) && rows[i].runId == r
    requires Terminal(rows[i].status) && Terminal(rows[j].status)
    ensures EndedTwice(rows, r)
  {
    assert i in RowsWith(rows, r, TERMINAL) && j in RowsWith(rows, r, TERMINAL);
  }

  /** So it is right whenever no task has ended twice. */
  lemma StatusRightIfEndedOnce(c: Catalog, s: Sys, r: nat)
    requires WellFormed(c) && Reachable(c, AnyId, s) && r < |s.db.dagRuns| && !EndedTwice(s.db.taskRuns, r)
    ensures StatusRight(ViewOf(c, s, r))
  {
    var v := ViewOf(c, s, r);
    ReachableAny(c, AnyId, s);
    assert Held(v);
    EndedOnceExclusive(s.db.taskRuns, r);
    CountersExactIff(c, s, r);
    StatusExactlyIff(c, s, r);
    if v.run.successfulCount >= |v.g.tasks| {
      SubsetSize(v.p.succeeded, v.g.tasks);
    }
  }

  // ----- How long a verdict stays -----

  ghost predicate VerdictStays(c: Catalog, s: Sys, actions: seq<Action>, t: Sys, r: nat, status: RunStatus)
    requires Runs(c, AnyId, s, actions, t) && r < |s.db.dagRuns|
    decreases |actions|
  {
    && s.db.dagRuns[r].status == status
    && (actions != [] ==>
          var next := Next(c, s, actions[0]);
          r < |next.db.dagRuns| && VerdictStays(c, next, actions[1..], t, r, status))
  }

  /** What a step may do to a run's counters and status. */
  lemma VerdictStep(c: Catalog, s: Sys, a: Action, r: nat)
    requires WellFormed(c) && Keyed(c, s.db) && Enabled(c, s, a) && r < |s.db.dagRuns|
    ensures var t, n := Next(c, s, a), |GraphOf(c, s, r).tasks|;
            && r < |t.db.dagRuns| && t.db.dagRuns[r].dagId == s.db.dagRuns[r].dagId
            && var run, after := s.db.dagRuns[r], t.db.dagRuns[r];
               || (after.status == run.status && after.successfulCount == run.successfulCount
                   && after.failedCount == run.failedCount)
               || (after.status == RunFailed && after.successfulCount == run.successfulCount
                   && after.failedCount == run.failedCount + 1)
               || (after.status == (if run.successfulCount + 1 == n then RunSuccess else run.status)
                   && after.successfulCount == run.successfulCount + 1 && after.failedCount == run.failedCount)
  {
    TaskCount(c, s, r);
  }

  lemma {:induction false} VerdictAlongRun(c: Catalog, s: Sys, actions: seq<Action>, t: Sys, r: nat)
    requires WellFormed(c) && AnyInv(c, s) && Runs(c, AnyId, s, actions, t)
    requires r < |s.db.dagRuns| && s.db.dagRuns[r].status != RunRunning
    ensures r < |t.db.dagRuns|
    ensures var before, after, n := s.db.dagRuns[r], t.db.dagRuns[r], |GraphOf(c, s, r).tasks|;
            VerdictStays(c, s, actions, t, r, before.status) <==>
              if before.status == RunSuccess then after.failedCount == before.failedCount
              else before.successfulCount >= n || after.successfulCount < n
    decreases |actions|
  {
    assert Held(ViewOf(c, s, r));
    CountsOnlyGrow(c, s, actions, t);
    if actions != [] {
      var next := Next(c, s, actions[0]);
      VerdictStep(c, s, actions[0], r);
      OneStep(c, AnyId, s, actions[0]);
      RunKeepsAny(c, AnyId, s, [actions[0]], next);
      CountsOnlyGrow(c, next, actions[1..], t);
      if next.db.dagRuns[r].status == s.db.dagRuns[r].status {
        VerdictAlongRun(c, next, actions[1..], t, r);
      }
    }
  }

  /** Whatever ids are passed: a success stays the verdict throughout a run exactly if no row of the run
      fails in it; a failure stays the verdict exactly if the success counter had reached the number of
      tasks before, or does not reach it. */
  lemma VerdictStaysIff(c: Catalog, s: Sys, actions: seq<Action>, t: Sys, r: nat)
    requires WellFormed(c) && Reachable(c, AnyId, s) && Runs(c, AnyId, s, actions, t)
    requires r < |s.db.dagRuns| && s.db.dagRuns[r].status != RunRunning
    ensures r < |t.db.dagRuns|
    ensures var before, after, n := s.db.dagRuns[r], t.db.dagRuns[r], |GraphOf(c, s, r).tasks|;
            VerdictStays(c, s, actions, t, r, before.status) <==>
              if before.status == RunSuccess then after.failedCount == before.failedCount
              else before.successfulCount >= n || after.successfulCount < n
  {
    ReachableAny(c, AnyId, s);
    VerdictAlongRun(c, s, actions, t, r);
  }

  ghost predicate StaysSuccess(c: Catalog, ids: Ids, s: Sys, r: nat) {
    forall actions, t :: Runs(c, ids, s, actions, t) ==> r < |t.db.dagRuns| && t.db.dagRuns[r].status == RunSuccess
  }

  /** A live row can fail. */
  lemma LiveCanFail(c: Catalog, ids: Ids, s: Sys, r: nat, i: nat) returns (actions: seq<Action>, t: Sys)
    requires Keyed(c, s.db) && s.handler == Idle && LiveIn(s, i, r)
    ensures Runs(c, ids, s, actions, t) && r < |t.db.dagRuns| && t.db.dagRuns[r].status == RunFailed
  {
    actions, t := [Fail(i)], Next(c, s, Fail(i));
    OneStep(c, ids, s, Fail(i));
  }

  /** A pending row can be claimed, run and fail. */
  lemma PendingCanFail(c: Catalog, ids: Ids, s: Sys, r: nat, i: nat) returns (actions: seq<Action>, t: Sys)
    requires Keyed(c, s.db) && s.handler == Idle && i < |s.db.taskRuns| && i !in s.retired
    requires s.db.taskRuns[i].runId == r && s.db.taskRuns[i].status == Pending
    ensures Runs(c, ids, s, actions, t) && r < |t.db.dagRuns| && t.db.dagRuns[r].status == RunFailed
  {
    var claim, finalise := ClaimTasks(Sqlite, {i}, "w", 0, 1), Action.Finalise(i, "w");
    var claimed := Next(c, s, claim);
    OneStep(c, ids, s, claim);
    assert claimed.db.taskRuns[i] == WithClaim(s.db.taskRuns[i], "w", 1);
    var running := Next(c, claimed, finalise);
    OneStep(c, ids, claimed, finalise);
    RunsAppend(c, ids, s, [claim], claimed, [finalise], running);
    var rest;
    rest, t := LiveCanFail(c, ids, running, r, i);
    actions := [claim] + [finalise] + rest;
    RunsAppend(c, ids, s, [claim] + [finalise], running, rest, t);
  }

  lemma LeftoverCanFail(c: Catalog, ids: Ids, s: Sys, r: nat)
    requires Keyed(c, s.db) && RetiredRun(s) && s.handler == Idle && !NothingLeft(s, r)
    ensures !StaysSuccess(c, ids, s, r)
  {
    var i: nat :| i < |s.db.taskRuns| && s.db.taskRuns[i].runId == r && !Terminal(s.db.taskRuns[i].status)
                  && !(s.db.taskRuns[i].status == Running && i in s.retired);
    if s.db.taskRuns[i].status == Running {
      var actions, t := LiveCanFail(c, ids, s, r, i);
    } else {
      var actions, t := PendingCanFail(c, ids, s, r, i);
    }
  }

  /** Between two events, with the starting tasks enqueued: a success is final, whatever anybody does later
      and whatever ids are passed, if and only if no row of the run is left pending or running. */
  lemma SuccessIsFinalIff(c: Catalog, ids: Ids, s: Sys, r: nat)
    requires WellFormed(c) && Reachable(c, AnyId, s) && s.handler == Idle
    requires r < |s.db.dagRuns| && s.db.dagRuns[r].status == RunSuccess && RootsOf(c, s, r) <= TasksIn(s.db.taskRuns, r)
    ensures StaysSuccess(c, ids, s, r) <==> NothingLeft(s, r)
  {
    ReachableAny(c, AnyId, s);
    if NothingLeft(s, r) {
      AlwaysUntouched(c, s, r);
      forall actions, t | Runs(c, ids, s, actions, t) ensures RunUntouched(s, t, r) {
        MoreIds(c, ids, AnyId, s, actions, t);
      }
    } else {
      LeftoverCanFail(c, ids, s, r);
    }
  }

  // ----- The workspace -----

  /** Whatever ids are passed, the workspace is removed at most once, and not before as many outcomes were
      counted as there are tasks. */
  lemma CleanedAtMostOnce(c: Catalog, s: Sys, r: nat)
    requires WellFormed(c) && Reachable(c, AnyId, s) && r < |s.db.dagRuns|
    ensures multiset(s.cleanups)[r] <= 1
    ensures r in s.cleanups ==> Outcomes(s.db.dagRuns[r]) >= |GraphOf(c, s, r).tasks|
  {
    ReachableAny(c, AnyId, s);
    assert Held(ViewOf(c, s, r));
  }

  /** The rows of run r that no retry has replaced. */
  ghost function Standing(s: Sys, r: nat): set<nat> {
    set i | 0 <= i < |s.db.taskRuns| && s.db.taskRuns[i].runId == r && i !in s.retired
  }

  ghost predicate StandingTwice(s: Sys, r: nat) {
    exists i, j :: i in Standing(s, r) && j in Standing(s, r) && i < j && SameKey(s.db.taskRuns[i], s.db.taskRuns[j])
  }

  lemma StandingAgainstTasks(s: Sys, r: nat, tasks: set<nat>)
    requires RetiredRun(s) && TasksIn(s.db.taskRuns, r) <= tasks
    requires |RowsWith(s.db.taskRuns, r, TERMINAL)| >= |tasks|
    ensures !StandingTwice(s, r) <==>
              && |RowsWith(s.db.taskRuns, r, TERMINAL)| == |tasks|
              && RowsWith(s.db.taskRuns, r, TERMINAL) == Standing(s, r)
              && TasksAt(s.db.taskRuns, RowsWith(s.db.taskRuns, r, TERMINAL)) == tasks
  {
    var rows, standing, ended := s.db.taskRuns, Standing(s, r), RowsWith(s.db.taskRuns, r, TERMINAL);
    assert ended <= standing;
    forall t | t in TasksAt(rows, standing) ensures t in tasks {
      var i :| i in standing && rows[i].taskId == t;
      MemberIn(rows, i);
    }
    RowsAgainstTasks(rows, standing);
    SubsetSize(ended, standing);
    SubsetSize(TasksAt(rows, standing), tasks);
    StandingTwiceIff(s, r);
  }

  lemma StandingTwiceIff(s: Sys, r: nat)
    ensures StandingTwice(s, r) <==>
            !forall i, j :: i in Standing(s, r) && j in Standing(s, r) && i < j ==>
                s.db.taskRuns[i].taskId != s.db.taskRuns[j].taskId
  {
    var rows := s.db.taskRuns;
    if i, j :| i in Standing(s, r) && j in Standing(s, r) && i < j && rows[i].taskId == rows[j].taskId {
      assert SameKey(s.db.taskRuns[i], s.db.taskRuns[j]);
    }
  }

  /** Rows of the given tasks, as many of them terminal as there are tasks, or more. */
  lemma StandingQuietIff(s: Sys, r: nat, tasks: set<nat>, count: nat)
    requires RetiredRun(s) && TasksIn(s.db.taskRuns, r) <= tasks
    requires count == |RowsWith(s.db.taskRuns, r, TERMINAL)| >= |tasks|
    ensures count == |tasks| && ProgressOf(s.db.taskRuns, r).Finished() == tasks && NothingLeft(s, r) <==>
            !StandingTwice(s, r)
  {
    EndedRows(s.db.taskRuns, r);
    StandingAgainstTasks(s, r, tasks);
    NothingLeftIff(s, r);
  }

  lemma OutcomesAreRows(c: Catalog, s: Sys, r: nat)
    requires Reachable(c, AnyId, s) && r < |s.db.dagRuns|
    ensures Outcomes(s.db.dagRuns[r]) == |RowsWith(s.db.taskRuns, r, TERMINAL)|
  {
    ReachableCounts(c, s, r);
    EndedRows(s.db.taskRuns, r);
  }

  lemma RowsOfOwnTasks(c: Catalog, s: Sys, r: nat)
    requires WellFormed(c) && Reachable(c, AnyId, s) && r < |s.db.dagRuns|
    ensures RetiredRun(s)
    ensures ProgressOf(s.db.taskRuns, r).Finished() <= TasksIn(s.db.taskRuns, r) <= GraphOf(c, s, r).tasks
  {
    ReachableAny(c, AnyId, s);
    assert Held(ViewOf(c, s, r));
  }

  /** Whatever ids are passed: once its workspace is gone a run is over, every task ended, counted right
      and nothing left pending or running, if and only if no task has two rows that no retry replaced. */
  lemma CleanedMeansQuietIff(c: Catalog, s: Sys, r: nat)
    requires WellFormed(c) && Reachable(c, AnyId, s) && r in s.cleanups && r < |s.db.dagRuns|
    ensures AllTasksDone(c, s.db, r) && AllEnded(c, s, r) && NothingLeft(s, r) <==> !StandingTwice(s, r)
  {
    CleanedAtMostOnce(c, s, r);
    OutcomesAreRows(c, s, r);
    RowsOfOwnTasks(c, s, r);
    AllEndedFinished(c, s, r);
    StandingQuietIff(s, r, GraphOf(c, s, r).tasks, Outcomes(s.db.dagRuns[r]));
  }

  lemma NothingLeftIff(s: Sys, r: nat)
    requires RetiredRun(s)
    ensures NothingLeft(s, r) <==> RowsWith(s.db.taskRuns, r, TERMINAL) == Standing(s, r)
  {
    if RowsWith(s.db.taskRuns, r, TERMINAL) == Standing(s, r) {
      forall i | 0 <= i < |s.db.taskRuns| && s.db.taskRuns[i].runId == r
        ensures Terminal(s.db.taskRuns[i].status) || (s.db.taskRuns[i].status == Running && i in s.retired)
      {
        assert i in Standing(s, r) || i in s.retired;
      }
    }
  }
}
