/** How inserting and updating Task_Runs rows changes what they say about a run's tasks. */
module RowFacts {
  import opened Prelude
  import opened Graphs
  import opened Tables
  import opened RunProgress
  import opened RunnableTasks
  import opened Store
  import opened Engine

  predicate Terminal(status: Status) {
    status == Success || status == Failed || status == Suspended
  }

  lemma MemberIn(rows: seq<TaskRun>, i: nat)
    requires i < |rows|
    ensures rows[i].taskId in TasksIn(rows, rows[i].runId)
    ensures rows[i].taskId in TasksWith(rows, rows[i].runId, rows[i].status)
  {
  }

  lemma AppendOne(rows: seq<TaskRun>, row: TaskRun, r: nat, status: Status)
    ensures TasksIn(rows + [row], r) == TasksIn(rows, r) + (if row.runId == r then {row.taskId} else {})
    ensures TasksWith(rows + [row], r, status) ==
            TasksWith(rows, r, status) + (if row.runId == r && row.status == status then {row.taskId} else {})
  {
    var longer := rows + [row];
    assert longer[|rows|] == row;
    assert forall i :: 0 <= i < |rows| ==> longer[i] == rows[i];
    forall t | t in TasksIn(rows, r) ensures t in TasksIn(longer, r) {
      var i :| 0 <= i < |rows| && rows[i].runId == r && rows[i].taskId == t;
      assert longer[i] == rows[i];
    }
    forall t | t in TasksWith(rows, r, status) ensures t in TasksWith(longer, r, status) {
      var i :| 0 <= i < |rows| && rows[i].runId == r && rows[i].status == status && rows[i].taskId == t;
      assert longer[i] == rows[i];
    }
  }

  lemma AppendSuspended(rows: seq<TaskRun>, run: nat, ids: seq<nat>, r: nat)
    ensures var p, q := ProgressOf(rows, r), ProgressOf(rows + SuspendedRows(run, ids), r);
            q == if r == run then p.(rows := p.rows + Elements(ids), suspended := p.suspended + Elements(ids)) else p
  {
    if ids == [] {
      assert rows + SuspendedRows(run, ids) == rows;
      assert Elements(ids) == {};
    } else {
      var init, last := ids[..|ids| - 1], ids[|ids| - 1];
      AppendSuspended(rows, run, init, r);
      assert rows + SuspendedRows(run, ids) == (rows + SuspendedRows(run, init)) + [NewRow(run, last, Suspended)];
      ElementsAppend(init, last);
      assert ids == init + [last];
      forall status { AppendOne(rows + SuspendedRows(run, init), NewRow(run, last, Suspended), r, status); }
    }
  }

  /** An active row becomes terminal. */
  lemma Finish(rows: seq<TaskRun>, id: nat, outcome: Status, r: nat)
    requires id < |rows| && rows[id].status == Running && Terminal(outcome)
    ensures TasksIn(WithStatus(rows, id, outcome), r) == TasksIn(rows, r)
    ensures forall status :: Terminal(status) ==>
              TasksWith(WithStatus(rows, id, outcome), r, status) ==
              TasksWith(rows, r, status) + (if rows[id].runId == r && status == outcome then {rows[id].taskId} else {})
  {
    var after := WithStatus(rows, id, outcome);
    assert forall i :: 0 <= i < |rows| && i != id ==> after[i] == rows[i];
    assert after[id].status == outcome && SameKey(after[id], rows[id]);
    forall t ensures t in TasksIn(after, r) <==> t in TasksIn(rows, r) {
      if t in TasksIn(rows, r) {
        var i :| 0 <= i < |rows| && rows[i].runId == r && rows[i].taskId == t;
        assert after[i].runId == r && after[i].taskId == t;
      }
    }
    forall status | Terminal(status)
      ensures TasksWith(after, r, status) ==
              TasksWith(rows, r, status) + (if rows[id].runId == r && status == outcome then {rows[id].taskId} else {})
    {
      forall t | t in TasksWith(rows, r, status) ensures t in TasksWith(after, r, status) {
        var i :| 0 <= i < |rows| && rows[i].runId == r && rows[i].status == status && rows[i].taskId == t;
        assert after[i] == rows[i];
      }
      if rows[id].runId == r && status == outcome {
        assert after[id].taskId in TasksWith(after, r, status);
      }
    }
  }

  /** The progress of every run after one row succeeds or fails. */
  lemma FinishProgress(rows: seq<TaskRun>, id: nat, outcome: Status, r: nat)
    requires id < |rows| && rows[id].status == Running && (outcome == Success || outcome == Failed)
    ensures var p, q := ProgressOf(rows, r), ProgressOf(WithStatus(rows, id, outcome), r);
            q == if rows[id].runId != r then p
                 else if outcome == Success then p.(succeeded := p.succeeded + {rows[id].taskId})
                 else p.(failed := p.failed + {rows[id].taskId})
  {
    Finish(rows, id, outcome, r);
    var p := ProgressOf(rows, r);
    assert p.succeeded + {} == p.succeeded && p.failed + {} == p.failed && p.suspended + {} == p.suspended;
  }

  lemma InsertProgress(rows: seq<TaskRun>, run: nat, task: nat, r: nat)
    ensures var p := ProgressOf(rows, r);
            ProgressOf(rows + [NewRow(run, task, Pending)], r) == if r == run then p.(rows := p.rows + {task}) else p
  {
    forall status { AppendOne(rows, NewRow(run, task, Pending), r, status); }
    assert ProgressOf(rows, r).rows + {} == ProgressOf(rows, r).rows;
  }

  ghost predicate SameKeys(rows: seq<TaskRun>, after: seq<TaskRun>) {
    |rows| <= |after| && forall i :: 0 <= i < |rows| ==> SameKey(rows[i], after[i])
  }

  /** Same rows but for claims, and for pending rows that now run. */
  ghost predicate Stutters(rows: seq<TaskRun>, after: seq<TaskRun>) {
    |after| == |rows| && forall i :: 0 <= i < |rows| ==> RowStutters(rows[i], after[i])
  }

  ghost predicate RowStutters(row: TaskRun, after: TaskRun) {
    && SameKey(row, after)
    && (after.status == row.status || (row.status == Pending && after.status == Running))
    && (after.claim.Some? ==> after.status == Pending)
  }

  lemma StutterKeepsProgress(rows: seq<TaskRun>, after: seq<TaskRun>, r: nat)
    requires Stutters(rows, after)
    ensures ProgressOf(after, r) == ProgressOf(rows, r)
  {
    forall t ensures t in TasksIn(after, r) <==> t in TasksIn(rows, r) {
      if t in TasksIn(rows, r) {
        var i :| 0 <= i < |rows| && rows[i].runId == r && rows[i].taskId == t;
        assert RowStutters(rows[i], after[i]);
      }
      if t in TasksIn(after, r) {
        var i :| 0 <= i < |rows| && after[i].runId == r && after[i].taskId == t;
        assert RowStutters(rows[i], after[i]);
      }
    }
    forall status | Terminal(status) ensures TasksWith(after, r, status) == TasksWith(rows, r, status) {
      forall t ensures t in TasksWith(after, r, status) <==> t in TasksWith(rows, r, status) {
        if t in TasksWith(rows, r, status) {
          var i :| 0 <= i < |rows| && rows[i].runId == r && rows[i].status == status && rows[i].taskId == t;
          assert RowStutters(rows[i], after[i]);
        }
        if t in TasksWith(after, r, status) {
          var i :| 0 <= i < |rows| && after[i].runId == r && after[i].status == status && after[i].taskId == t;
          assert RowStutters(rows[i], after[i]);
        }
      }
    }
    assert TasksIn(after, r) == TasksIn(rows, r);
  }

  /** A live row is the newest of its task, and its task has no terminal row. */
  lemma LiveIsUnfinished(rows: seq<TaskRun>, retired: set<nat>, id: nat)
    requires RowsOk(rows, retired) && id < |rows| && rows[id].status == Running && id !in retired
    ensures forall i :: 0 <= i < |rows| && SameKey(rows[i], rows[id]) ==> i <= id && (i < id ==> i in retired)
    ensures rows[id].taskId in TasksIn(rows, rows[id].runId)
    ensures rows[id].taskId !in ProgressOf(rows, rows[id].runId).Finished()
  {
    forall i | 0 <= i < |rows| && SameKey(rows[i], rows[id])
      ensures i <= id && (i < id ==> i in retired) && !Terminal(rows[i].status)
    {
      if i < id {
        assert Replaced(rows, i);
      }
    }
  }

  /** A task has at most one terminal row, and it is the task's newest. */
  lemma TerminalIsNewest(rows: seq<TaskRun>, retired: set<nat>, i: nat, j: nat)
    requires RowsOk(rows, retired) && i < |rows| && j < |rows| && i != j
    requires SameKey(rows[i], rows[j]) && Terminal(rows[i].status)
    ensures j < i && rows[j].status == Running && j in retired
  {
    if j < i {
      assert Replaced(rows, j);
    }
  }

  lemma {:induction false} SuccessRowsWitness(rows: seq<TaskRun>, r: nat, d: nat) returns (i: nat, j: nat)
    requires SuccessRows(rows, r, d) >= 2
    ensures i < j < |rows| && SameKey(rows[i], rows[j]) && rows[i].runId == r
    ensures rows[i].status == Success && rows[j].status == Success
  {
    var last := |rows| - 1;
    if SuccessRows(rows[..last], r, d) >= 2 {
      i, j := SuccessRowsWitness(rows[..last], r, d);
    } else {
      SuccessRowsPositive(rows[..last], r, d);
      i :| 0 <= i < last && rows[..last][i].runId == r && rows[..last][i].status == Success
          && rows[..last][i].taskId == d;
      j := last;
    }
  }

  lemma AtMostOneSuccess(rows: seq<TaskRun>, retired: set<nat>, r: nat)
    requires RowsOk(rows, retired)
    ensures forall d :: SuccessRows(rows, r, d) <= 1
  {
    forall d ensures SuccessRows(rows, r, d) <= 1 {
      if SuccessRows(rows, r, d) >= 2 {
        var i, j := SuccessRowsWitness(rows, r, d);
        TerminalIsNewest(rows, retired, i, j);
      }
    }
  }

  // ----- RowsOk is kept -----

  /** Inserting the first row of a task. */
  lemma InsertFresh(rows: seq<TaskRun>, retired: set<nat>, run: nat, task: nat, status: Status)
    requires RowsOk(rows, retired) && task !in TasksIn(rows, run)
    ensures RowsOk(rows + [NewRow(run, task, status)], retired)
  {
    var row := NewRow(run, task, status);
    var after := rows + [row];
    assert after[|rows|] == row;
    forall i | 0 <= i < |rows| ensures after[i] == rows[i] && !SameKey(rows[i], row) {
      MemberIn(rows, i);
    }
    forall i | i in retired ensures Replaced(after, i) {
      assert Replaced(rows, i);
      var j :| i < j < |rows| && SameKey(rows[i], rows[j]);
      assert after[j] == rows[j];
    }
  }

  lemma {:induction false} InsertManyFresh(rows: seq<TaskRun>, retired: set<nat>, run: nat, ids: seq<nat>)
    requires RowsOk(rows, retired) && Distinct(ids) && forall t :: t in ids ==> t !in TasksIn(rows, run)
    ensures RowsOk(rows + SuspendedRows(run, ids), retired)
  {
    if ids == [] {
      assert rows + SuspendedRows(run, ids) == rows;
    } else {
      var init, last := ids[..|ids| - 1], ids[|ids| - 1];
      assert ids == init + [last];
      InsertManyFresh(rows, retired, run, init);
      AppendSuspended(rows, run, init, run);
      assert last in ids;
      assert last !in Elements(init);
      InsertFresh(rows + SuspendedRows(run, init), retired, run, last, Suspended);
      assert rows + SuspendedRows(run, ids) == (rows + SuspendedRows(run, init)) + [NewRow(run, last, Suspended)];
    }
  }

  /** A retry row replaces the live row of its task. */
  lemma InsertRetry(rows: seq<TaskRun>, retired: set<nat>, id: nat)
    requires RowsOk(rows, retired) && id < |rows| && rows[id].status == Running && id !in retired
    ensures RowsOk(rows + [NewRow(rows[id].runId, rows[id].taskId, Pending)], retired + {id})
  {
    var row := NewRow(rows[id].runId, rows[id].taskId, Pending);
    var after := rows + [row];
    assert after[|rows|] == row;
    LiveIsUnfinished(rows, retired, id);
    forall i | 0 <= i < |rows|
      ensures after[i] == rows[i]
      ensures SameKey(rows[i], row) ==> i in retired + {id} && rows[i].status != Suspended
    {
      if SameKey(rows[i], row) && i != id {
        assert Replaced(rows, i);
      }
    }
    forall i | i in retired + {id} ensures Replaced(after, i) {
      if i == id {
        assert SameKey(after[id], after[|rows|]);
      } else {
        assert Replaced(rows, i);
        var j :| i < j < |rows| && SameKey(rows[i], rows[j]);
        assert after[j] == rows[j];
      }
    }
  }

  lemma FinishKeepsRows(rows: seq<TaskRun>, retired: set<nat>, id: nat, status: Status)
    requires RowsOk(rows, retired) && id < |rows| && rows[id].status == Running && id !in retired
    requires status == Success || status == Failed
    ensures RowsOk(WithStatus(rows, id, status), retired)
  {
    var after := WithStatus(rows, id, status);
    forall i | 0 <= i < |rows| ensures SameKey(after[i], rows[i]) && (i != id ==> after[i] == rows[i]) {}
    forall i | i in retired ensures Replaced(after, i) {
      assert Replaced(rows, i);
      var j :| i < j < |rows| && SameKey(rows[i], rows[j]);
      assert SameKey(after[i], after[j]);
    }
  }

  lemma StutterKeepsRows(rows: seq<TaskRun>, after: seq<TaskRun>, retired: set<nat>)
    requires RowsOk(rows, retired) && Stutters(rows, after)
    ensures RowsOk(after, retired)
  {
    forall i | 0 <= i < |rows|
      ensures SameKey(rows[i], after[i]) && (after[i].status == Suspended ==> rows[i].status == Suspended)
      ensures after[i].claim.Some? ==> after[i].status == Pending
    {
      assert RowStutters(rows[i], after[i]);
    }
    forall i | i in retired ensures Replaced(after, i) {
      assert Replaced(rows, i);
      var j :| i < j < |rows| && SameKey(rows[i], rows[j]);
      assert RowStutters(rows[i], after[i]);
      assert SameKey(after[i], after[j]);
    }
  }
}
