/** The handlers and Reconcile as a whole: running one to its end is a run of the engine's steps, so
    what holds of every run holds of them. */
module EngineHandlers {
  import opened Prelude
  import opened Graphs
  import opened Tables
  import opened RunProgress
  import opened RunnableTasks
  import opened Claims
  import opened Store
  import opened Engine
  import opened RowFacts

  // ----- handleSuccessfulTaskRun -----

  function SuccessHandled(c: Catalog, s: Sys, id: nat, next: seq<nat>): Sys
    requires Keyed(c, s.db) && id < |s.db.taskRuns|
  {
    var marked := DoSucceed(c, s, id, next);
    if next == [] then DoCheckDone(c, marked)
    else marked.(db := EnqueueAll(marked.db, s.db.taskRuns[id].runId, next), handler := Idle)
  }

  lemma {:induction false} EnqueueingSteps(c: Catalog, s: Sys) returns (actions: seq<Action>)
    requires Keyed(c, s.db) && s.handler.Enqueueing? && s.handler.todo != [] && s.handler.run < |s.db.dagRuns|
    ensures Runs(c, AnyId, s, actions, s.(db := EnqueueAll(s.db, s.handler.run, s.handler.todo), handler := Idle))
    decreases s.handler.todo
  {
    var Enqueueing(run, todo) := s.handler;
    var t := DoEnqueueOne(s);
    var row := NewRow(run, todo[0], Pending);
    OneStep(c, AnyId, s, EnqueueOne);
    if |todo| == 1 {
      actions := [EnqueueOne];
      assert EnqueueAll(s.db, run, todo).taskRuns == s.db.taskRuns + [row];
    } else {
      var rest := EnqueueingSteps(c, t);
      actions := [EnqueueOne] + rest;
      assert EnqueueAll(s.db, run, todo).taskRuns == EnqueueAll(t.db, run, todo[1..]).taskRuns;
    }
  }

  /** What that is in the tables: one row says success, its run counts it, what was returned is pending;
      and if nothing was, the workspace goes when the outcomes have reached the number of tasks. */
  lemma SuccessHandledIs(c: Catalog, s: Sys, id: nat, next: seq<nat>)
    requires Keyed(c, s.db) && id < |s.db.taskRuns| && s.handler == Idle
    ensures var r := s.db.taskRuns[id].runId;
            var run := s.db.dagRuns[r];
            var hit := c.dags[run.dagId].taskCount == run.successfulCount + 1;
            var over := |TasksOf(c, run.dagId)| == run.successfulCount + 1 + run.failedCount + run.suspendedCount;
            SuccessHandled(c, s, id, next) == s.(
              db := Db(s.db.taskRuns[id := s.db.taskRuns[id].(status := Success)]
                       + seq(|next|, i requires 0 <= i < |next| => TaskRun(r, next[i], Pending, None)),
                       s.db.dagRuns[r := run.(successfulCount := run.successfulCount + 1,
                                              status := if hit then RunSuccess else run.status)]),
              cleanups := if next == [] && over then s.cleanups + [r] else s.cleanups)
  {
    var r := s.db.taskRuns[id].runId;
    var marked := s.db.taskRuns[id := s.db.taskRuns[id].(status := Success)];
    var added := seq(|next|, i requires 0 <= i < |next| => TaskRun(r, next[i], Pending, None));
    if next == [] {
      assert marked + added == marked;
    } else {
      assert EnqueueAll(MarkSuccess(c, s.db, id), r, next).taskRuns == marked + added;
    }
  }

  /** For a pod that runs, and whatever was returned. */
  lemma SuccessIsSteps(c: Catalog, s: Sys, id: nat, k: nat, next: seq<nat>) returns (actions: seq<Action>)
    requires Keyed(c, s.db) && s.handler == Idle && id < |s.db.taskRuns| && s.db.taskRuns[id].status == Running
    requires id !in s.retired && Distinct(next) && Elements(next) == NextIds(c, s.db, id, k)
    ensures Runs(c, AnyId, s, actions, SuccessHandled(c, s, id, next))
  {
    var first, marked := Succeed(id, k, next), DoSucceed(c, s, id, next);
    OneStep(c, AnyId, s, first);
    if next == [] {
      OneStep(c, AnyId, marked, CheckDone);
      RunsAppend(c, AnyId, s, [first], marked, [CheckDone], DoCheckDone(c, marked));
      actions := [first] + [CheckDone];
    } else {
      var rest := EnqueueingSteps(c, marked);
      RunsAppend(c, AnyId, s, [first], marked, rest, SuccessHandled(c, s, id, next));
      actions := [first] + rest;
    }
  }

  // ----- handleFailedTaskRun -----

  function FailureHandled(c: Catalog, s: Sys, id: nat, found: seq<nat>): Sys
    requires Keyed(c, s.db) && id < |s.db.taskRuns|
  {
    DoCheckDone(c, DoSuspend(DoFail(c, s, id), found))
  }

  /** What that is in the tables: one row says failed, what was found is suspended, its run counts both and
      has failed, and the workspace goes when the outcomes have reached the number of tasks. */
  lemma FailureHandledIs(c: Catalog, s: Sys, id: nat, found: seq<nat>)
    requires Keyed(c, s.db) && id < |s.db.taskRuns| && s.handler == Idle
    ensures var r := s.db.taskRuns[id].runId;
            var run := s.db.dagRuns[r];
            var counted := run.(failedCount := run.failedCount + 1, status := RunFailed,
                                suspendedCount := run.suspendedCount + |found|);
            var over := |TasksOf(c, run.dagId)| ==
                        run.successfulCount + run.failedCount + 1 + run.suspendedCount + |found|;
            FailureHandled(c, s, id, found) == s.(
              db := Db(s.db.taskRuns[id := s.db.taskRuns[id].(status := Failed)]
                       + seq(|found|, i requires 0 <= i < |found| => TaskRun(r, found[i], Suspended, None)),
                       s.db.dagRuns[r := counted]),
              cleanups := if over then s.cleanups + [r] else s.cleanups)
  {
    var r := s.db.taskRuns[id].runId;
    assert SuspendedRows(r, found) ==
           seq(|found|, i requires 0 <= i < |found| => TaskRun(r, found[i], Suspended, None));
  }

  lemma FailureIsSteps(c: Catalog, s: Sys, id: nat, backend: Backend, found: seq<nat>)
    requires Keyed(c, s.db) && s.handler == Idle && id < |s.db.taskRuns| && s.db.taskRuns[id].status == Running
    requires id !in s.retired && Distinct(found)
    requires Elements(found) == SuspendedBy(c, MarkFailed(c, s.db, id), backend, s.db.taskRuns[id].runId, id)
    ensures Runs(c, AnyId, s, [Fail(id)] + [SuspendBelow(backend, found)] + [CheckDone],
            FailureHandled(c, s, id, found))
  {
    var failed := DoFail(c, s, id);
    var suspended := DoSuspend(failed, found);
    OneStep(c, AnyId, s, Fail(id));
    OneStep(c, AnyId, failed, SuspendBelow(backend, found));
    RunsAppend(c, AnyId, s, [Fail(id)], failed, [SuspendBelow(backend, found)], suspended);
    assert Keyed(c, suspended.db) by {
      forall i | 0 <= i < |suspended.db.taskRuns| ensures suspended.db.taskRuns[i].runId < |s.db.dagRuns| {
        if i >= |s.db.taskRuns| {
          assert suspended.db.taskRuns[i] == SuspendedRows(failed.handler.run, found)[i - |s.db.taskRuns|];
        }
      }
    }
    OneStep(c, AnyId, suspended, CheckDone);
    RunsAppend(c, AnyId, s, [Fail(id)] + [SuspendBelow(backend, found)], suspended, [CheckDone],
        FailureHandled(c, s, id, found));
  }

  function RetryHandled(s: Sys, id: nat, worker: string, now: int, lease: int): Sys
    requires id < |s.db.taskRuns|
  {
    DoClaimRetry(DoRetry(s, id), worker, now, lease)
  }

  /** What that is in the tables: one new row of the task, claimed by the worker; the row whose pod failed
      stays as it is, replaced. */
  lemma RetryHandledIs(s: Sys, id: nat, worker: string, now: int, lease: int)
    requires id < |s.db.taskRuns| && s.handler == Idle
    ensures var row := s.db.taskRuns[id];
            RetryHandled(s, id, worker, now, lease) == s.(
              db := Db(s.db.taskRuns + [TaskRun(row.runId, row.taskId, Pending, Some(Claim(worker, lease)))],
                       s.db.dagRuns),
              retired := s.retired + {id})
  {
    var row := s.db.taskRuns[id];
    var pending, claimed := TaskRun(row.runId, row.taskId, Pending, None),
        TaskRun(row.runId, row.taskId, Pending, Some(Claim(worker, lease)));
    assert (s.db.taskRuns + [pending])[|s.db.taskRuns| := claimed] == s.db.taskRuns + [claimed];
  }

  lemma RetryIsSteps(c: Catalog, s: Sys, id: nat, worker: string, now: int, lease: int)
    requires Keyed(c, s.db) && s.handler == Idle && id < |s.db.taskRuns| && s.db.taskRuns[id].status == Running
    requires id !in s.retired
    ensures var row := s.db.taskRuns[id];
            Runs(c, AnyId, s, [Retry(id)] + [ClaimRetry(worker, now, lease)], s.(
              db := Db(s.db.taskRuns + [TaskRun(row.runId, row.taskId, Pending, Some(Claim(worker, lease)))],
                       s.db.dagRuns),
              retired := s.retired + {id}))
  {
    var again := DoRetry(s, id);
    OneStep(c, AnyId, s, Retry(id));
    OneStep(c, AnyId, again, ClaimRetry(worker, now, lease));
    RunsAppend(c, AnyId, s, [Retry(id)], again, [ClaimRetry(worker, now, lease)],
        RetryHandled(s, id, worker, now, lease));
    RetryHandledIs(s, id, worker, now, lease);
  }

  // ----- Reconcile -----

  /** The loop over the starting tasks, from its current place to its end. */
  lemma {:induction false} ListingSteps(c: Catalog, s: Sys) returns (actions: seq<Action>, t: Sys)
    requires Keyed(c, s.db) && s.controller.Listing? && s.controller.run < |s.db.dagRuns|
    ensures Runs(c, AnyId, s, actions, t)
    ensures t.controller == Listing(s.controller.run, s.controller.full, [])
    ensures t.db == StartMissing(s.db, s.controller.run, s.controller.todo) && Keyed(c, t.db)
    decreases |s.controller.todo|
  {
    var Listing(run, full, todo) := s.controller;
    if todo == [] {
      actions, t := [], s;
    } else {
      var checked := DoCheckOne(s);
      OneStep(c, AnyId, s, CheckOne);
      var rest;
      if checked.controller.Listing? {
        rest, t := ListingSteps(c, checked);
        RunsAppend(c, AnyId, s, [CheckOne], checked, rest, t);
        actions := [CheckOne] + rest;
      } else {
        var inserted := DoInsertOne(checked);
        OneStep(c, AnyId, checked, InsertOne);
        RunsAppend(c, AnyId, s, [CheckOne], checked, [InsertOne], inserted);
        rest, t := ListingSteps(c, inserted);
        RunsAppend(c, AnyId, s, [CheckOne] + [InsertOne], inserted, rest, t);
        actions := [CheckOne] + [InsertOne] + rest;
      }
    }
  }

  /** The attempt leaves every listed task with a row, and adds no row for others. */
  lemma {:induction false} StartMissingStarts(db: Db, run: nat, tasks: seq<nat>, r: nat)
    ensures var after := StartMissing(db, run, tasks);
            && TasksIn(after.taskRuns, r) == TasksIn(db.taskRuns, r) + (if r == run then Elements(tasks) else {})
            && |after.taskRuns| >= |db.taskRuns| && after.taskRuns[..|db.taskRuns|] == db.taskRuns
            && after.dagRuns == db.dagRuns
    decreases |tasks|
  {
    if tasks == [] {
      assert db.taskRuns[..|db.taskRuns|] == db.taskRuns;
    } else {
      assert tasks == [tasks[0]] + tasks[1..];
      if tasks[0] in TasksIn(db.taskRuns, run) {
        StartMissingStarts(db, run, tasks[1..], r);
      } else {
        var one := AddPending(db, run, tasks[0]);
        StartMissingStarts(one, run, tasks[1..], r);
        AppendOne(db.taskRuns, NewRow(run, tasks[0], Pending), r, Pending);
        assert one.taskRuns[..|db.taskRuns|] == db.taskRuns;
      }
    }
  }

  lemma ListingIsSteps(c: Catalog, s: Sys, name: string, dagName: string, tasks: seq<nat>)
    requires Keyed(c, s.db) && Enabled(c, s, StartRun(name, dagName))
    requires Enabled(c, DoStartRun(s, name, dagName), ListStarting(tasks))
    ensures Runs(c, AnyId, s, [StartRun(name, dagName)] + [ListStarting(tasks)],
                 Next(c, DoStartRun(s, name, dagName), ListStarting(tasks)))
  {
    var made := DoStartRun(s, name, dagName);
    OneStep(c, AnyId, s, StartRun(name, dagName));
    OneStep(c, AnyId, made, ListStarting(tasks));
    RunsAppend(c, AnyId, s, [StartRun(name, dagName)], made, [ListStarting(tasks)], Next(c, made, ListStarting(tasks)));
  }

  lemma LoopIsSteps(c: Catalog, s: Sys) returns (actions: seq<Action>, t: Sys)
    requires Keyed(c, s.db) && s.controller.Listing? && s.controller.run < |s.db.dagRuns|
    ensures Runs(c, AnyId, s, actions, t) && t.controller == Waiting
    ensures t.db == StartMissing(s.db, s.controller.run, s.controller.todo)
  {
    var rest, done := ListingSteps(c, s);
    t := done.(controller := Waiting);
    OneStep(c, AnyId, done, Crash);
    RunsAppend(c, AnyId, s, rest, done, [Crash], t);
    actions := rest + [Crash];
  }

  /** An attempt as a whole, with the latest version of the DAG: the run is found or made, and the loop runs
      over its starting tasks if it is of that version, and over nothing otherwise. */
  lemma AttemptIsSteps(c: Catalog, s: Sys, name: string, dagName: string, tasks: seq<nat>, run: nat, created: Db)
    returns (actions: seq<Action>, t: Sys)
    requires Keyed(c, s.db) && s.controller == Waiting && dagName in s.latest && s.latest[dagName] < |c.dags|
    requires if FindRun(s.db.dagRuns, name).Some? then run == FindRun(s.db.dagRuns, name).value && created == s.db
             else run == |s.db.dagRuns| && created == Db(s.db.taskRuns,
                    s.db.dagRuns + [DagRun(name, s.latest[dagName], RunRunning, 0, 0, 0)])
    requires Distinct(tasks)
    requires Elements(tasks) == if s.latest[dagName] == created.dagRuns[run].dagId
                                then Roots(DagOf(c, created.dagRuns[run].dagId)) else {}
    ensures Runs(c, AnyId, s, actions, t) && t.controller == Waiting && t.db == StartMissing(created, run, tasks)
  {
    var made := DoStartRun(s, name, dagName);
    assert made.db == created && made.controller == Created(run, dagName);
    ListingIsSteps(c, s, name, dagName, tasks);
    var listed := Next(c, made, ListStarting(tasks));
    var rest;
    rest, t := LoopIsSteps(c, listed);
    actions := [StartRun(name, dagName)] + [ListStarting(tasks)] + rest;
    RunsAppend(c, AnyId, s, [StartRun(name, dagName)] + [ListStarting(tasks)], listed, rest, t);
  }

  /** Its new rows are pending rows of listed tasks that had none. */
  lemma {:induction false} StartMissingRows(db: Db, run: nat, tasks: seq<nat>)
    ensures var after := StartMissing(db, run, tasks).taskRuns;
            && |after| >= |db.taskRuns|
            && forall i :: |db.taskRuns| <= i < |after| ==>
                 && after[i] == TaskRun(run, after[i].taskId, Pending, None) && after[i].taskId in tasks
                 && forall k :: 0 <= k < |db.taskRuns| && db.taskRuns[k].runId == run ==>
                      db.taskRuns[k].taskId != after[i].taskId
    decreases |tasks|
  {
    StartMissingStarts(db, run, tasks, run);
    if tasks != [] {
      assert tasks == [tasks[0]] + tasks[1..];
      if tasks[0] in TasksIn(db.taskRuns, run) {
        StartMissingRows(db, run, tasks[1..]);
      } else {
        var one := AddPending(db, run, tasks[0]);
        var after := StartMissing(one, run, tasks[1..]).taskRuns;
        StartMissingRows(one, run, tasks[1..]);
        StartMissingStarts(one, run, tasks[1..], run);
        assert after[..|one.taskRuns|][|db.taskRuns|] == one.taskRuns[|db.taskRuns|];
        forall i | |db.taskRuns| < i < |after|
          ensures forall k :: 0 <= k < |db.taskRuns| && db.taskRuns[k].runId == run ==>
                    db.taskRuns[k].taskId != after[i].taskId
        {
          assert forall k :: 0 <= k < |db.taskRuns| ==> one.taskRuns[k] == db.taskRuns[k];
        }
        NoRowMeans(db.taskRuns, run, tasks[0]);
      }
    }
  }

  /** An attempt after a completed one changes nothing. */
  lemma {:induction false} NothingMissing(db: Db, run: nat, tasks: seq<nat>)
    requires Elements(tasks) <= TasksIn(db.taskRuns, run)
    ensures StartMissing(db, run, tasks) == db
    decreases |tasks|
  {
    if tasks != [] {
      assert tasks[0] in Elements(tasks);
      assert Elements(tasks[1..]) <= Elements(tasks);
      NothingMissing(db, run, tasks[1..]);
    }
  }

  lemma {:induction false} StartMissingCount(db: Db, run: nat, tasks: seq<nat>)
    ensures |StartMissing(db, run, tasks).taskRuns| == |db.taskRuns| + |Elements(tasks) - TasksIn(db.taskRuns, run)|
    decreases |tasks|
  {
    if tasks == [] {
      assert Elements(tasks) - TasksIn(db.taskRuns, run) == {};
    } else {
      var first, rest, known := tasks[0], tasks[1..], TasksIn(db.taskRuns, run);
      assert Elements(tasks) == {first} + Elements(rest);
      if first in known {
        StartMissingCount(db, run, rest);
        assert Elements(tasks) - known == Elements(rest) - known;
      } else {
        var one := AddPending(db, run, first);
        StartMissingCount(one, run, rest);
        AppendOne(db.taskRuns, NewRow(run, first, Pending), run, Pending);
        DisjointSize({first}, Elements(rest) - (known + {first}));
        assert Elements(tasks) - known == {first} + (Elements(rest) - (known + {first}));
      }
    }
  }

  /** A first attempt, cut off after n tasks, and a second one that lists the tasks anew, which may be
      others or none: the tasks with rows are those that had one and those either attempt came to, and
      each of the new ones has exactly one. */
  lemma RelistedAttempt(db: Db, run: nat, tasks: seq<nat>, n: nat, again: seq<nat>)
    requires n <= |tasks|
    ensures var after := StartMissing(StartMissing(db, run, tasks[..n]), run, again);
            var listed := Elements(tasks[..n]) + Elements(again);
            && TasksIn(after.taskRuns, run) == TasksIn(db.taskRuns, run) + listed
            && |after.taskRuns| == |db.taskRuns| + |listed - TasksIn(db.taskRuns, run)|
  {
    var cut := StartMissing(db, run, tasks[..n]);
    StartMissingStarts(db, run, tasks[..n], run);
    StartMissingStarts(cut, run, again, run);
    StartMissingCount(db, run, tasks[..n]);
    StartMissingCount(cut, run, again);
    AddedInTwo(TasksIn(db.taskRuns, run), Elements(tasks[..n]), Elements(again));
  }

  lemma AddedInTwo(known: set<nat>, first: set<nat>, second: set<nat>)
    ensures |first - known| + |second - (known + first)| == |(first + second) - known|
  {
    DisjointSize(first - known, second - (known + first));
    assert (first + second) - known == (first - known) + (second - (known + first));
  }

  /** If it lists the same tasks, it ends with exactly the rows that a single attempt would have left. */
  lemma {:induction false} CutOffAttemptIsMadeUp(db: Db, run: nat, tasks: seq<nat>, n: nat)
    requires n <= |tasks|
    ensures StartMissing(StartMissing(db, run, tasks[..n]), run, tasks) == StartMissing(db, run, tasks)
    decreases |tasks|
  {
    if n == 0 {
      assert tasks[..0] == [];
    } else {
      var first, rest := tasks[0], tasks[1..];
      assert tasks[..n][0] == first && tasks[..n][1..] == rest[..n - 1];
      var db1 := if first in TasksIn(db.taskRuns, run) then db else AddPending(db, run, first);
      AppendOne(db.taskRuns, NewRow(run, first, Pending), run, Pending);
      assert first in TasksIn(db1.taskRuns, run);
      var cut := StartMissing(db1, run, rest[..n - 1]);
      StartMissingStarts(db1, run, rest[..n - 1], run);
      assert first in TasksIn(cut.taskRuns, run);
      CutOffAttemptIsMadeUp(db1, run, rest, n - 1);
    }
  }

  // ----- Claims -----

  /** Claiming rows that are pending and, on PostgreSQL, not under somebody's lease, is a step. */
  lemma ClaimsAreAStep(c: Catalog, s: Sys, backend: Backend, ids: set<nat>, worker: string, now: int, lease: int)
    requires Keyed(c, s.db)
    requires forall i :: i in ids ==>
               && i < |s.db.taskRuns| && s.db.taskRuns[i].status == Pending
               && (backend == Postgres ==>
                     s.db.taskRuns[i].claim.None? || s.db.taskRuns[i].claim.value.leaseExpiresAt <= now)
    ensures var rows := s.db.taskRuns;
            var claimed := seq(|rows|, i requires 0 <= i < |rows| =>
              if i in ids then rows[i].(claim := Some(Claim(worker, lease))) else rows[i]);
            Runs(c, AnyId, s, [ClaimTasks(backend, ids, worker, now, lease)], s.(db := Db(claimed, s.db.dagRuns)))
  {
    var a := ClaimTasks(backend, ids, worker, now, lease);
    OneStep(c, AnyId, s, a);
    var rows := s.db.taskRuns;
    assert Next(c, s, a).db.taskRuns == seq(|rows|, i requires 0 <= i < |rows| =>
      if i in ids then rows[i].(claim := Some(Claim(worker, lease))) else rows[i]);
  }

  /** So are a renewal and a finalisation by the worker that holds the claim. */
  lemma HolderActsInAStep(c: Catalog, s: Sys, id: nat, worker: string, lease: int)
    requires Keyed(c, s.db) && id < |s.db.taskRuns| && s.db.taskRuns[id].claim.Some?
    requires s.db.taskRuns[id].claim.value.worker == worker
    ensures var rows := s.db.taskRuns;
            && Runs(c, AnyId, s, [Renew(id, worker, lease)],
                    s.(db := Db(rows[id := rows[id].(claim := Some(Claim(worker, lease)))], s.db.dagRuns)))
            && Runs(c, AnyId, s, [Action.Finalise(id, worker)],
                    s.(db := Db(rows[id := TaskRun(rows[id].runId, rows[id].taskId, Running, None)], s.db.dagRuns)))
  {
    OneStep(c, AnyId, s, Renew(id, worker, lease));
    OneStep(c, AnyId, s, Action.Finalise(id, worker));
  }

  /** And so is clearing the expired claims of pending rows. */
  lemma RecoveryIsAStep(c: Catalog, s: Sys, now: int)
    requires Keyed(c, s.db)
    ensures var rows := s.db.taskRuns;
            var after := seq(|rows|, i requires 0 <= i < |rows| =>
              if rows[i].status == Pending && rows[i].claim.Some? && rows[i].claim.value.leaseExpiresAt <= now
              then TaskRun(rows[i].runId, rows[i].taskId, Pending, None) else rows[i]);
            Runs(c, AnyId, s, [Action.Recover(now)], s.(db := Db(after, s.db.dagRuns)))
  {
    OneStep(c, AnyId, s, Action.Recover(now));
    var rows := s.db.taskRuns;
    assert Next(c, s, Action.Recover(now)).db.taskRuns == seq(|rows|, i requires 0 <= i < |rows| =>
      if rows[i].status == Pending && rows[i].claim.Some? && rows[i].claim.value.leaseExpiresAt <= now
      then TaskRun(rows[i].runId, rows[i].taskId, Pending, None) else rows[i]);
  }
}
