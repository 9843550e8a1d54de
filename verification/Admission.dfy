/** From the specifications that were admitted to the runs of their DAG: runAfter is respected. */
module Admission {
  import opened Prelude
  import opened Graphs
  import opened DagTypes
  import opened Tables
  import opened Catalogs
  import opened Engine
  import opened EngineRuns
  import opened EngineCounts
  import opened EngineOrder
  import opened EngineEndedOnce

  /** c holds, as version d, what inserting specs into before left there. */
  ghost predicate Holds(c: Catalog, before: Catalog, name: string, specs: seq<TaskSpec>) {
    exists after :: WellFormed(before) && Inserted(before, after, name, specs)
        && DagOf(c, |before.dags|) == DagOf(after, |before.dags|)
  }

  /** Later inserts leave it there. */
  lemma StillHolds(c: Catalog, before: Catalog, name: string, specs: seq<TaskSpec>, c': Catalog, name': string,
        specs': seq<TaskSpec>)
    requires Holds(c, before, name, specs) && WellFormed(c) && |before.dags| < |c.dags|
    requires Inserted(c, c', name', specs') && Acyclic(RunAfterEdges(specs')) && specs' != []
    ensures Holds(c', before, name, specs) && |before.dags| < |c'.dags|
  {
    InsertKeepsWellFormed(c, c', name', specs');
    var after :| WellFormed(before) && Inserted(before, after, name, specs)
        && DagOf(c, |before.dags|) == DagOf(after, |before.dags|);
    assert DagOf(c', |before.dags|) == DagOf(after, |before.dags|);
  }

  /** The i-th task of the version whose tasks start at base depends on a task of the name dep. */
  ghost predicate Waits(needs: set<(nat, nat)>, base: nat, specs: seq<TaskSpec>, i: nat, dep: string) {
    exists m :: 0 <= m < |specs| && specs[m].name == dep && (base + i, base + m) in needs
  }

  lemma WaitsAfter(before: Catalog, after: Catalog, specs: seq<TaskSpec>, i: nat, dep: string)
    requires WaitsFor(before, after, specs, i, dep)
    ensures Waits(DagOf(after, |before.dags|).needs, |before.tasks|, specs, i, dep)
  {
    var m :| 0 <= m < |specs| && specs[m].name == dep
        && |before.tasks| + m in DepsOf(DagOf(after, |before.dags|), |before.tasks| + i);
  }

  lemma InsertedWaits(before: Catalog, after: Catalog, name: string, specs: seq<TaskSpec>, i: nat, dep: string)
    requires WellFormed(before) && Inserted(before, after, name, specs) && IsFirst(specs, i, i)
             && dep in specs[i].runAfter
    ensures Waits(DagOf(after, |before.dags|).needs, |before.tasks|, specs, i, dep)
  {
    EntryMakesWait(before, after, name, specs, i, i, dep);
    WaitsAfter(before, after, specs, i, dep);
  }

  lemma HeldWaits(c: Catalog, before: Catalog, name: string, specs: seq<TaskSpec>, i: nat, dep: string)
    requires Holds(c, before, name, specs) && IsFirst(specs, i, i) && dep in specs[i].runAfter
    ensures Waits(DagOf(c, |before.dags|).needs, |before.tasks|, specs, i, dep)
  {
    var after :| WellFormed(before) && Inserted(before, after, name, specs)
        && DagOf(c, |before.dags|) == DagOf(after, |before.dags|);
    InsertedWaits(before, after, name, specs, i, dep);
  }

  /** A task of the name dep has succeeded in run r. */
  ghost predicate SucceededByName(rows: seq<TaskRun>, r: nat, base: nat, specs: seq<TaskSpec>, dep: string) {
    exists m :: 0 <= m < |specs| && specs[m].name == dep && base + m in TasksWith(rows, r, Success)
  }

  lemma WaitedFor(g: Dag, rows: seq<TaskRun>, r: nat, x: nat, base: nat, specs: seq<TaskSpec>, i: nat, dep: string)
    requires RowsInOrder(g, rows, r) && x < |rows| && rows[x].runId == r && rows[x].status != Suspended
    requires rows[x].taskId == base + i && Waits(g.needs, base, specs, i, dep)
    ensures SucceededByName(rows, r, base, specs, dep)
  {
    var m: nat :| m < |specs| && specs[m].name == dep && (base + i, base + m) in g.needs;
    assert (base + i, base + m).1 in DepsOf(g, rows[x].taskId);
  }

  /** Row x is a row, not a suspended one, of the i-th task of the version inserted after `before`. */
  ghost predicate RowOf(before: Catalog, s: Sys, x: nat, i: nat) {
    && x < |s.db.taskRuns| && s.db.taskRuns[x].runId < |s.db.dagRuns| && s.db.taskRuns[x].status != Suspended
    && s.db.dagRuns[s.db.taskRuns[x].runId].dagId == |before.dags| && s.db.taskRuns[x].taskId == |before.tasks| + i
  }

  lemma RunAfterInOrder(c: Catalog, before: Catalog, name: string, specs: seq<TaskSpec>, s: Sys, x: nat, i: nat,
        dep: string)
    requires Holds(c, before, name, specs) && RowOf(before, s, x, i) && IsFirst(specs, i, i) && dep in specs[i].runAfter
    requires RowsInOrder(DagOf(c, |before.dags|), s.db.taskRuns, s.db.taskRuns[x].runId)
    ensures SucceededByName(s.db.taskRuns, s.db.taskRuns[x].runId, |before.tasks|, specs, dep)
  {
    HeldWaits(c, before, name, specs, i, dep);
    WaitedFor(DagOf(c, |before.dags|), s.db.taskRuns, s.db.taskRuns[x].runId, x, |before.tasks|, specs, i, dep);
  }

  /** Dependency order in terms of runAfter: a row for the i-th task of an inserted DAG that is not a
      suspended one exists only if, for every name its specification runs after, a task of that name has
      succeeded in the run. The specification must be the first of its name and version, as the others'
      dependencies are not their own. */
  lemma RunAfterRespected(c: Catalog, before: Catalog, name: string, specs: seq<TaskSpec>, s: Sys, x: nat, i: nat,
        dep: string)
    requires Holds(c, before, name, specs) && SafelyReachable(c, s)
    requires RowOf(before, s, x, i) && IsFirst(specs, i, i) && dep in specs[i].runAfter
    ensures SucceededByName(s.db.taskRuns, s.db.taskRuns[x].runId, |before.tasks|, specs, dep)
  {
    SafeRowsInOrder(c, s, s.db.taskRuns[x].runId);
    RunAfterInOrder(c, before, name, specs, s, x, i, dep);
  }

  /** The same whatever ids are passed, for a run no task of which has two success rows. */
  lemma RunAfterRespectedIfOnce(c: Catalog, before: Catalog, name: string, specs: seq<TaskSpec>, s: Sys, x: nat,
        i: nat, dep: string)
    requires Holds(c, before, name, specs) && Reachable(c, AnyId, s)
    requires RowOf(before, s, x, i) && IsFirst(specs, i, i) && dep in specs[i].runAfter
    requires !Repeated(s.db.taskRuns, s.db.taskRuns[x].runId, {Success})
    ensures SucceededByName(s.db.taskRuns, s.db.taskRuns[x].runId, |before.tasks|, specs, dep)
  {
    OnceRowsInOrder(c, s, s.db.taskRuns[x].runId);
    RunAfterInOrder(c, before, name, specs, s, x, i, dep);
  }

  lemma SafeRowsInOrder(c: Catalog, s: Sys, r: nat)
    requires SafelyReachable(c, s) && r < |s.db.dagRuns|
    ensures RowsInOrder(DagOf(c, s.db.dagRuns[r].dagId), s.db.taskRuns, r)
  {
    var g, rows := GraphOf(c, s, r), s.db.taskRuns;
    forall i | 0 <= i < |rows| && rows[i].runId == r && rows[i].status != Suspended
      ensures DepsOf(g, rows[i].taskId) <= TasksWith(rows, r, Success)
    {
      forall d | d in DepsOf(g, rows[i].taskId) ensures d in TasksWith(rows, r, Success) {
        EdgeReaches(g.needs, rows[i].taskId, d);
        DependencyOrder(c, s, i, d);
      }
    }
  }

  lemma OnceRowsInOrder(c: Catalog, s: Sys, r: nat)
    requires Reachable(c, AnyId, s) && r < |s.db.dagRuns| && !Repeated(s.db.taskRuns, r, {Success})
    ensures RowsInOrder(DagOf(c, s.db.dagRuns[r].dagId), s.db.taskRuns, r)
  {
    InOrderIfSucceededOnce(c, s, r);
  }
}
