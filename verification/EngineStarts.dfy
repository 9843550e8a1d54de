/** Reconcile's steps keep the invariant: creating the run, listing its starting tasks, and enqueueing
    those that have no row yet; and so does a new DAG version. */
module EngineStarts {
  import opened Prelude
  import opened Graphs
  import opened Tables
  import opened RunProgress
  import opened Store
  import opened Engine
  import opened RowFacts
  import opened EngineSteps

  /** A step that touches neither the tables nor the handler. */
  lemma ControllerKeepsStarts(c: Catalog, s: Sys, t: Sys)
    requires AllStartsOk(c, s) && t == s.(controller := t.controller, latest := t.latest) && ControllerOk(c, t)
    ensures AllStartsOk(c, t)
  {
    forall i | i in t.fromController ensures FirstOfRoot(c, t, i) {
      assert FirstOfRoot(c, s, i);
    }
    forall r, x | 0 <= r < |t.db.dagRuns| && x in TasksIn(t.db.taskRuns, r) && x in RootsOf(c, t, r)
      ensures ControllerRow(t, r, x)
    {
      assert ControllerRow(s, r, x);
    }
  }

  lemma ControllerKeeps(c: Catalog, s: Sys, t: Sys)
    requires Inv(c, s) && t == s.(controller := t.controller, latest := t.latest) && ControllerOk(c, t)
    ensures Inv(c, t)
  {
    assert forall r :: 0 <= r < |s.db.dagRuns| ==> ViewOf(c, t, r) == ViewOf(c, s, r);
    SameViewsKeep(c, s, t);
    ControllerKeepsStarts(c, s, t);
  }

  // ----- CreateDAGRun -----

  lemma NewRunView(c: Catalog, s: Sys, name: string, dagId: nat, t: Sys)
    requires Keyed(c, s.db) && HandlerOk(s) && forall r :: r in s.cleanups ==> r < |s.db.dagRuns|
    requires t == s.(db := AddRun(s.db, name, dagId), controller := t.controller)
    ensures ViewOf(c, t, |s.db.dagRuns|) == NewRun(DagOf(c, dagId), name, dagId)
    ensures forall q :: 0 <= q < |s.db.dagRuns| ==> ViewOf(c, t, q) == ViewOf(c, s, q)
    ensures TasksIn(t.db.taskRuns, |s.db.dagRuns|) == {}
  {
    var n := |s.db.dagRuns|;
    assert ProgressOf(t.db.taskRuns, n) == Progress({}, {}, {}, {});
    assert n !in s.cleanups && multiset(s.cleanups)[n] == 0;
  }

  lemma NewRunStarts(c: Catalog, s: Sys, name: string, dagName: string)
    requires AllStartsOk(c, s) && dagName in s.latest && s.latest[dagName] < |c.dags|
    requires FindRun(s.db.dagRuns, name).None? && TasksIn(s.db.taskRuns, |s.db.dagRuns|) == {}
    ensures AllStartsOk(c, DoStartRun(s, name, dagName))
  {
    var t := DoStartRun(s, name, dagName);
    assert forall r :: 0 <= r < |s.db.dagRuns| ==> t.db.dagRuns[r] == s.db.dagRuns[r];
    forall i | i in t.fromController ensures FirstOfRoot(c, t, i) {
      assert FirstOfRoot(c, s, i);
    }
    forall r, x | 0 <= r < |t.db.dagRuns| && x in TasksIn(t.db.taskRuns, r) && x in RootsOf(c, t, r)
      ensures ControllerRow(t, r, x)
    {
      assert r < |s.db.dagRuns|;
      assert ControllerRow(s, r, x);
    }
  }

  lemma StartRunKeeps(c: Catalog, s: Sys, name: string, dagName: string)
    requires WellFormed(c) && Inv(c, s) && dagName in s.latest && s.latest[dagName] < |c.dags|
    ensures Inv(c, DoStartRun(s, name, dagName))
  {
    var t := DoStartRun(s, name, dagName);
    if FindRun(s.db.dagRuns, name).Some? {
      ControllerKeeps(c, s, t);
    } else {
      var dagId := s.latest[dagName];
      NewRunView(c, s, name, dagId, t);
      NewRunStarts(c, s, name, dagName);
      assert WellFormedDag(c, dagId);
      NewRunFits(DagOf(c, dagId), name, dagId);
      forall q | 0 <= q < |t.db.dagRuns| ensures Fits(ViewOf(c, t, q)) {
        if q < |s.db.dagRuns| {
          assert Fits(ViewOf(c, s, q));
        }
      }
    }
  }

  // ----- GetStartingTasks, TaskRunExists -----

  lemma ListStartingKeeps(c: Catalog, s: Sys, tasks: seq<nat>)
    requires Inv(c, s) && Enabled(c, s, ListStarting(tasks))
    ensures Inv(c, Next(c, s, ListStarting(tasks)))
  {
    ControllerKeeps(c, s, Next(c, s, ListStarting(tasks)));
  }

  lemma CheckOneKeeps(c: Catalog, s: Sys)
    requires Inv(c, s) && s.controller.Listing? && s.controller.todo != []
    ensures Inv(c, DoCheckOne(s))
  {
    var todo := s.controller.todo;
    assert todo == [todo[0]] + todo[1..];
    assert Elements(todo) == {todo[0]} + Elements(todo[1..]);
    ControllerKeeps(c, s, DoCheckOne(s));
  }

  // ----- AddPendingTaskRun -----

  lemma InsertRootStarts(c: Catalog, s: Sys)
    requires AllStartsOk(c, s) && s.controller.Inserting?
    ensures AllStartsOk(c, DoInsertOne(s))
  {
    var t, r, task := DoInsertOne(s), s.controller.run, s.controller.task;
    var rows, after := s.db.taskRuns, t.db.taskRuns;
    assert forall i :: 0 <= i < |rows| ==> after[i] == rows[i];
    assert SameKey(after[|rows|], NewRow(r, task, Pending));
    forall i | i in t.fromController ensures FirstOfRoot(c, t, i) {
      if i in s.fromController {
        assert FirstOfRoot(c, s, i);
      } else {
        forall j | 0 <= j < i ensures !SameKey(after[j], after[i]) {
          MemberIn(rows, j);
        }
      }
    }
    forall q, x | 0 <= q < |t.db.dagRuns| && x in TasksIn(after, q) && x in RootsOf(c, t, q)
      ensures ControllerRow(t, q, x)
    {
      AppendOne(rows, NewRow(r, task, Pending), q, Pending);
      if q == r && x == task {
        assert |rows| in t.fromController && after[|rows|].taskId == x;
      } else {
        assert ControllerRow(s, q, x);
        var i :| i in s.fromController && i < |rows| && rows[i].runId == q && rows[i].taskId == x;
        assert after[i] == rows[i];
      }
    }
    AppendOne(rows, NewRow(r, task, Pending), r, Pending);
  }

  lemma InsertRootViews(c: Catalog, s: Sys, q: nat)
    requires s.controller.Inserting? && HandlerOk(s) && s.controller.run < |s.db.dagRuns| && q < |s.db.dagRuns|
    ensures ViewOf(c, DoInsertOne(s), q) ==
            if q == s.controller.run then AfterInsert(ViewOf(c, s, q), s.controller.task) else ViewOf(c, s, q)
  {
    InsertProgress(s.db.taskRuns, s.controller.run, s.controller.task, q);
  }

  lemma InsertOneKeeps(c: Catalog, s: Sys)
    requires Inv(c, s) && s.controller.Inserting?
    ensures Inv(c, DoInsertOne(s))
  {
    var t, r, task := DoInsertOne(s), s.controller.run, s.controller.task;
    forall q | 0 <= q < |s.db.dagRuns| && q != r ensures ViewOf(c, t, q) == ViewOf(c, s, q) {
      InsertRootViews(c, s, q);
    }
    RootFits(ViewOf(c, s, r), task);
    InsertRootViews(c, s, r);
    OtherViewsKeep(c, s, t, r);
    InsertFresh(s.db.taskRuns, s.retired, r, task, Pending);
    InsertRootStarts(c, s);
  }
}
