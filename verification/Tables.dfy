/** The tables the run engine works on (controller/internal/db/migrations). A row's position in its
    table is its primary key. */
module Tables {
  import opened Prelude
  import opened Graphs

  datatype Status = Pending | Running | Success | Failed | Suspended

  /** claimed_by and lease_expires_at, which are set and cleared together. */
  datatype Claim = Claim(worker: string, leaseExpiresAt: int)

  datatype TaskRun = TaskRun(runId: nat, taskId: nat, status: Status, claim: Option<Claim>)

  datatype RunStatus = RunRunning | RunSuccess | RunFailed

  datatype DagRun = DagRun(
    name: string, dagId: nat, status: RunStatus,
    successfulCount: nat, failedCount: nat, suspendedCount: nat)

  /** One DAG version. */
  datatype DagVersion = DagVersion(name: string, taskCount: nat)

  datatype DagTask = DagTask(dagId: nat, name: string, version: int)

  datatype Dependency = Dependency(taskId: nat, dependsOn: nat)

  /** The tables a run only reads: DAGs, DAG_Tasks, Dependencies. */
  datatype Catalog = Catalog(dags: seq<DagVersion>, tasks: seq<DagTask>, deps: seq<Dependency>)

  /** The tables a run writes: Task_Runs, DAG_Runs. */
  datatype Db = Db(taskRuns: seq<TaskRun>, dagRuns: seq<DagRun>)

  // ----- One DAG version as a graph -----

  /** needs holds (task, what it depends on). */
  datatype Dag = Dag(tasks: set<nat>, needs: set<(nat, nat)>)

  function TasksOf(c: Catalog, dagId: nat): set<nat> {
    set t | 0 <= t < |c.tasks| && c.tasks[t].dagId == dagId
  }

  function DagOf(c: Catalog, dagId: nat): Dag {
    Dag(TasksOf(c, dagId),
        set i | 0 <= i < |c.deps| && c.deps[i].taskId in TasksOf(c, dagId) :: (c.deps[i].taskId, c.deps[i].dependsOn))
  }

  function DepsOf(g: Dag, t: nat): set<nat> {
    Successors(g.needs, t)
  }

  function Roots(g: Dag): set<nat> {
    set t | t in g.tasks && DepsOf(g, t) == {}
  }

  ghost predicate ValidDag(g: Dag) {
    && Acyclic(g.needs)
    && forall e :: e in g.needs ==> e.0 in g.tasks && e.1 in g.tasks
  }

  /** What InsertDAG leaves behind for validated DAGs. */
  ghost predicate WellFormed(c: Catalog) {
    && (forall d :: 0 <= d < |c.dags| ==> WellFormedDag(c, d))
    && (forall t :: 0 <= t < |c.tasks| ==> c.tasks[t].dagId < |c.dags|)
    && forall i :: 0 <= i < |c.deps| ==> c.deps[i].taskId < |c.tasks|
  }

  ghost predicate WellFormedDag(c: Catalog, d: nat)
    requires d < |c.dags|
  {
    ValidDag(DagOf(c, d)) && c.dags[d].taskCount == |TasksOf(c, d)| && TasksOf(c, d) != {}
  }

  // ----- What the rows of one run say about its tasks -----

  ghost predicate SameKey(a: TaskRun, b: TaskRun) {
    a.runId == b.runId && a.taskId == b.taskId
  }

  function TasksIn(rows: seq<TaskRun>, r: nat): set<nat> {
    set i | 0 <= i < |rows| && rows[i].runId == r :: rows[i].taskId
  }

  function TasksWith(rows: seq<TaskRun>, r: nat, status: Status): set<nat> {
    set i | 0 <= i < |rows| && rows[i].runId == r && rows[i].status == status :: rows[i].taskId
  }
}
