/** What each database operation of a run does to Task_Runs and DAG_Runs. The backends differ only in
    how they search for the tasks to suspend. */
module Store {
  import opened Prelude
  import opened Graphs
  import opened Tables
  import opened RunProgress
  import opened RunnableTasks
  import opened Claims

  /** Foreign keys: a row's run exists, a run's DAG version exists. */
  ghost predicate Keyed(c: Catalog, db: Db) {
    && (forall i :: 0 <= i < |db.taskRuns| ==> db.taskRuns[i].runId < |db.dagRuns|)
    && forall r :: 0 <= r < |db.dagRuns| ==> db.dagRuns[r].dagId < |c.dags|
  }

  function NewRow(run: nat, task: nat, status: Status): TaskRun {
    TaskRun(run, task, status, None)
  }

  /** AddPendingTaskRun. */
  function AddPending(db: Db, run: nat, task: nat): Db {
    db.(taskRuns := db.taskRuns + [NewRow(run, task, Pending)])
  }

  /** allocateNextTasks. */
  function EnqueueAll(db: Db, run: nat, tasks: seq<nat>): Db {
    db.(taskRuns := db.taskRuns + seq(|tasks|, i requires 0 <= i < |tasks| => NewRow(run, tasks[i], Pending)))
  }

  /** Reconcile's loop: a pending row for each listed task without a row. */
  function StartMissing(db: Db, run: nat, tasks: seq<nat>): Db
    decreases |tasks|
  {
    if tasks == [] then db
    else if tasks[0] in TasksIn(db.taskRuns, run) then StartMissing(db, run, tasks[1..])
    else StartMissing(AddPending(db, run, tasks[0]), run, tasks[1..])
  }

  function WithStatus(rows: seq<TaskRun>, id: nat, status: Status): seq<TaskRun>
    requires id < |rows|
  {
    rows[id := rows[id].(status := status)]
  }

  /** The two updates of DAG_Runs in MarkSuccessAndGetNextTasks. */
  function CountSuccess(c: Catalog, run: DagRun): DagRun
    requires run.dagId < |c.dags|
  {
    var counted := run.(successfulCount := run.successfulCount + 1);
    if c.dags[run.dagId].taskCount == counted.successfulCount then counted.(status := RunSuccess) else counted
  }

  /** The second update hit: every task has succeeded. */
  predicate TurnsSuccess(c: Catalog, run: DagRun)
    requires run.dagId < |c.dags|
  {
    c.dags[run.dagId].taskCount == run.successfulCount + 1
  }

  function MarkSuccess(c: Catalog, db: Db, id: nat): Db
    requires Keyed(c, db) && id < |db.taskRuns|
  {
    var r := db.taskRuns[id].runId;
    Db(WithStatus(db.taskRuns, id, Success), db.dagRuns[r := CountSuccess(c, db.dagRuns[r])])
  }

  /** The ids MarkSuccessAndGetNextTasks returns; k is the id getRunnableTasks compares run_id with. */
  function NextIds(c: Catalog, db: Db, id: nat, k: nat): set<nat>
    requires Keyed(c, db) && id < |db.taskRuns|
  {
    var r := db.taskRuns[id].runId;
    var run := db.dagRuns[r];
    if TurnsSuccess(c, run) then {} else RunnableIds(c, MarkSuccess(c, db, id).taskRuns, run.dagId, r, k)
  }

  /** MarkTaskAsFailed. */
  function MarkFailed(c: Catalog, db: Db, id: nat): Db
    requires Keyed(c, db) && id < |db.taskRuns|
  {
    var r := db.taskRuns[id].runId;
    var run := db.dagRuns[r];
    Db(WithStatus(db.taskRuns, id, Failed), db.dagRuns[r :=
        run.(failedCount := run.failedCount + 1, status := RunFailed)])
  }

  /** The tasks the backend's search suspends after the failure of row id. */
  ghost function SuspendedBy(c: Catalog, db: Db, backend: Backend, run: nat, id: nat): set<nat>
    requires run < |db.dagRuns| && id < |db.taskRuns|
  {
    var g, rows, failed := DagOf(c, db.dagRuns[run].dagId), TasksIn(db.taskRuns, run), db.taskRuns[id].taskId;
    if backend == Sqlite then RowlessOrphans(g, rows, failed) else Orphans(g, rows, failed)
  }

  function SuspendedRows(run: nat, ids: seq<nat>): seq<TaskRun> {
    seq(|ids|, i requires 0 <= i < |ids| => NewRow(run, ids[i], Suspended))
  }

  /** The inserts and the counter update of MarkConnectingTasksAsSuspended. */
  function Suspend(db: Db, run: nat, ids: seq<nat>): Db
    requires run < |db.dagRuns|
  {
    var dagRun := db.dagRuns[run];
    Db(db.taskRuns + SuspendedRows(run, ids),
        db.dagRuns[run := dagRun.(suspendedCount := dagRun.suspendedCount + |ids|)])
  }

  /** CheckIfAllTasksDone. */
  predicate AllTasksDone(c: Catalog, db: Db, r: nat)
    requires r < |db.dagRuns|
  {
    var run := db.dagRuns[r];
    |TasksOf(c, run.dagId)| == run.successfulCount + run.failedCount + run.suspendedCount
  }

  /** The run of that name. */
  function FindRun(dagRuns: seq<DagRun>, name: string): (r: Option<nat>)
    ensures r.Some? ==> r.value < |dagRuns| && dagRuns[r.value].name == name
    ensures r.None? ==> forall i :: 0 <= i < |dagRuns| ==> dagRuns[i].name != name
  {
    if dagRuns == [] then None
    else if dagRuns[|dagRuns| - 1].name == name then Some(|dagRuns| - 1)
    else FindRun(dagRuns[..|dagRuns| - 1], name)
  }

  /** CreateDAGRun's insert. */
  function AddRun(db: Db, name: string, dagId: nat): Db {
    db.(dagRuns := db.dagRuns + [DagRun(name, dagId, RunRunning, 0, 0, 0)])
  }
}
