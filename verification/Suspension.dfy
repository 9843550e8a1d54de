/** MarkConnectingTasksAsSuspended: which tasks to suspend after a failure, found by a search with an
    explicit stack (sqliteManager.go) and by a recursive query (postgresDAGManager.go). */
module Suspension {
  import opened Prelude
  import opened Graphs
  import opened Tables
  import opened RunProgress

  /** The table's rows are the graph's edges, whichever end they are looked up by. */
  lemma RowsAreEdges(c: Catalog, dagId: nat, i: nat)
    requires WellFormed(c) && i < |c.deps|
    requires c.deps[i].taskId in TasksOf(c, dagId) || c.deps[i].dependsOn in TasksOf(c, dagId)
    ensures (c.deps[i].taskId, c.deps[i].dependsOn) in DagOf(c, dagId).needs
    ensures c.deps[i].taskId in TasksOf(c, dagId) && c.deps[i].dependsOn in TasksOf(c, dagId)
  {
    var own := c.tasks[c.deps[i].taskId].dagId;
    var edge := (c.deps[i].taskId, c.deps[i].dependsOn);
    assert WellFormedDag(c, own);
    assert edge in DagOf(c, own).needs;
    assert edge.1 in DagOf(c, own).tasks;
    if own == dagId {
      assert edge in DagOf(c, dagId).needs;
    }
  }

  // ----- SQLite: depth-first search with a stack -----

  function Dependents(m: map<nat, seq<nat>>, d: nat): seq<nat> {
    if d in m then m[d] else []
  }

  /** The tasks that depend on d, as often as they say so. */
  function DirectDependents(deps: seq<Dependency>, d: nat): seq<nat> {
    if deps == [] then [] else
    var last := deps[|deps| - 1];
    DirectDependents(deps[..|deps| - 1], d) + if last.dependsOn == d then [last.taskId] else []
  }

  lemma {:induction false} DirectDependentsRows(deps: seq<Dependency>, d: nat, t: nat)
    ensures t in DirectDependents(deps, d) <==> Dependency(t, d) in deps
  {
    if deps != [] {
      var init, last := deps[..|deps| - 1], deps[|deps| - 1];
      DirectDependentsRows(init, d, t);
      assert deps == init + [last];
    }
  }

  /** An entry of the table in terms of the graph. */
  lemma DependentIffEdge(c: Catalog, dagId: nat, d: nat, t: nat)
    requires WellFormed(c) && d in TasksOf(c, dagId)
    ensures Dependency(t, d) in c.deps <==> (t, d) in DagOf(c, dagId).needs
  {
    if Dependency(t, d) in c.deps {
      var i :| 0 <= i < |c.deps| && c.deps[i] == Dependency(t, d);
      RowsAreEdges(c, dagId, i);
    }
    if (t, d) in DagOf(c, dagId).needs {
      var i :| 0 <= i < |c.deps| && c.deps[i].taskId in TasksOf(c, dagId)
               && (t, d) == (c.deps[i].taskId, c.deps[i].dependsOn);
      assert c.deps[i] == Dependency(t, d);
    }
  }

  lemma EdgeEndsInside(c: Catalog, dagId: nat, t: nat, d: nat)
    requires WellFormed(c) && (t, d) in DagOf(c, dagId).needs
    ensures d in TasksOf(c, dagId)
  {
    var i :| 0 <= i < |c.deps| && c.deps[i].taskId in TasksOf(c, dagId)
             && (t, d) == (c.deps[i].taskId, c.deps[i].dependsOn);
    RowsAreEdges(c, dagId, i);
  }

  /** m lists, for each of the tasks, what depends on it, in the table's order. */
  ghost predicate Lists(m: map<nat, seq<nat>>, deps: seq<Dependency>, tasks: set<nat>) {
    forall d :: Dependents(m, d) == if d in tasks then DirectDependents(deps, d) else []
  }

  lemma ListsOneMore(m: map<nat, seq<nat>>, deps: seq<Dependency>, tasks: set<nat>, row: Dependency)
    requires Lists(m, deps, tasks)
    ensures row.dependsOn in tasks ==>
              Lists(m[row.dependsOn := Dependents(m, row.dependsOn) + [row.taskId]], deps + [row], tasks)
    ensures row.dependsOn !in tasks ==> Lists(m, deps + [row], tasks)
  {
    assert (deps + [row])[..|deps|] == deps;
    forall d ensures DirectDependents(deps + [row], d) ==
                     DirectDependents(deps, d) + if row.dependsOn == d then [row.taskId] else [] {}
  }

  /** dependencies[parent] lists the tasks that depend on parent. */
  method BuildDependents(c: Catalog, dagId: nat) returns (dependencies: map<nat, seq<nat>>)
    requires WellFormed(c)
    ensures forall d: nat, t: nat :: t in Dependents(dependencies, d) <==> (t, d) in DagOf(c, dagId).needs
  {
    dependencies := map[];
    for i := 0 to |c.deps|
      invariant Lists(dependencies, c.deps[..i], TasksOf(c, dagId))
    {
      var row := c.deps[i];
      ListsOneMore(dependencies, c.deps[..i], TasksOf(c, dagId), row);
      assert c.deps[..i + 1] == c.deps[..i] + [row];
      if row.dependsOn in TasksOf(c, dagId) {
        dependencies := dependencies[row.dependsOn := Dependents(dependencies, row.dependsOn) + [row.taskId]];
      }
    }
    assert c.deps[..|c.deps|] == c.deps;
    ListedAreEdges(c, dagId, dependencies);
  }

  lemma ListedAreEdges(c: Catalog, dagId: nat, m: map<nat, seq<nat>>)
    requires WellFormed(c) && Lists(m, c.deps, TasksOf(c, dagId))
    ensures forall d: nat, t: nat :: t in Dependents(m, d) <==> (t, d) in DagOf(c, dagId).needs
  {
    forall d: nat, t: nat ensures t in Dependents(m, d) <==> (t, d) in DagOf(c, dagId).needs {
      if d in TasksOf(c, dagId) {
        DirectDependentsRows(c.deps, d, t);
        DependentIffEdge(c, dagId, d, t);
      } else if (t, d) in DagOf(c, dagId).needs {
        EdgeEndsInside(c, dagId, t, d);
      }
    }
  }

  /** The loop over the dependents of one task: those without a row that were not found before are
      suspended, and pushed. */
  method PushDependents(dependents: seq<nat>, existing: set<nat>, before: seq<nat>, below: seq<nat>)
    returns (suspended: seq<nat>, stack: seq<nat>, ghost added: seq<nat>)
    requires Distinct(before)
    ensures suspended == before + added && stack == below + added && Distinct(suspended)
    ensures Elements(added) == Elements(dependents) - existing - Elements(before)
  {
    suspended, stack, added := before, below, [];
    for j := 0 to |dependents|
      invariant suspended == before + added && stack == below + added && Distinct(suspended)
      invariant Elements(added) == Elements(dependents[..j]) - existing - Elements(before)
    {
      var taskId := dependents[j];
      assert dependents[..j + 1] == dependents[..j] + [taskId];
      ElementsAppend(dependents[..j], taskId);
      if taskId in existing {
        continue;
      }
      if taskId !in suspended {
        ElementsAppend(added, taskId);
        suspended, stack, added := suspended + [taskId], stack + [taskId], added + [taskId];
      }
    }
    assert dependents[..|dependents|] == dependents;
  }

  /** What the search has found, and what it will still look at. */
  ghost predicate Searching(g: Dag, existing: set<nat>, start: nat, seen: set<nat>, stack: set<nat>,
        suspended: set<nat>) {
    && suspended <= RowlessOrphans(g, existing, start)
    && seen + stack == suspended + {start}
    && forall e :: e in g.needs && e.0 !in existing && e.1 in seen ==> e.0 in suspended
  }

  lemma SearchStarts(g: Dag, existing: set<nat>, start: nat)
    ensures Searching(g, existing, start, {}, {start}, {})
  {
  }

  /** Looking at one more task, whose dependents without a row are found and pushed. */
  lemma SearchGoesOn(g: Dag, existing: set<nat>, start: nat, seen: set<nat>, stack: set<nat>, suspended: set<nat>,
                     current: nat, dependents: set<nat>, added: set<nat>)
    requires Searching(g, existing, start, seen, stack + {current}, suspended)
    requires forall e :: e in g.needs ==> e.0 in g.tasks
    requires forall t :: t in dependents <==> (t, current) in g.needs
    requires added == dependents - existing - suspended
    ensures Searching(g, existing, start, seen + {current}, stack + added, suspended + added)
  {
    forall t | t in added ensures t in RowlessOrphans(g, existing, start) {
      assert (t, current).0 in g.tasks;
      ExtendRowlessWalk(g, existing, t, current, start);
    }
  }

  /** The search skips tasks that already have a row, so it finds the orphans that can be reached
      without passing one. */
  method StackSearch(c: Catalog, dagId: nat, existing: set<nat>, startingTask: nat) returns (suspended: seq<nat>)
    requires WellFormed(c)
    ensures Distinct(suspended)
    ensures Elements(suspended) == RowlessOrphans(DagOf(c, dagId), existing, startingTask)
  {
    ghost var g := DagOf(c, dagId);
    var dependencies := BuildDependents(c, dagId);
    var stack := [startingTask];
    var seen: set<nat> := {};
    suspended := [];
    SearchStarts(g, existing, startingTask);
    while |stack| > 0
      invariant Distinct(suspended) && Searching(g, existing, startingTask, seen, Elements(stack), Elements(suspended))
      decreases g.tasks + {startingTask} - seen, |stack|
    {
      var last := |stack| - 1;
      var current, below := stack[last], stack[..last];
      assert stack == below + [current];
      ElementsAppend(below, current);
      if current in seen {
        stack := below;
        continue;
      }
      var dependents := Dependents(dependencies, current);
      ghost var added;
      ghost var before := suspended;
      suspended, stack, added := PushDependents(dependents, existing, suspended, below);
      ElementsOfBoth(before, added);
      ElementsOfBoth(below, added);
      SearchGoesOn(g, existing, startingTask, seen, Elements(below), Elements(before), current, Elements(dependents),
          Elements(added));
      seen := seen + {current};
    }
    ClosedHoldsOrphans(g, existing, Elements(suspended), startingTask);
  }

  lemma ElementsOfBoth(a: seq<nat>, b: seq<nat>)
    ensures Elements(a + b) == Elements(a) + Elements(b)
  {
  }

  // ----- PostgreSQL: a recursive query -----

  /** The dependents of one level of the chain; duplicates are kept. */
  function NextLevel(deps: seq<Dependency>, level: seq<nat>): seq<nat> {
    if level == [] then [] else
    NextLevel(deps, level[..|level| - 1]) + DirectDependents(deps, level[|level| - 1])
  }

  lemma {:induction false} NextLevelRows(deps: seq<Dependency>, level: seq<nat>, t: nat)
    ensures t in NextLevel(deps, level) <==> exists d :: d in level && Dependency(t, d) in deps
  {
    if level != [] {
      var init, last := level[..|level| - 1], level[|level| - 1];
      NextLevelRows(deps, init, t);
      DirectDependentsRows(deps, last, t);
      assert level == init + [last];
    }
  }

  lemma NextLevelEdges(c: Catalog, dagId: nat, level: seq<nat>)
    requires WellFormed(c) && Elements(level) <= TasksOf(c, dagId)
    ensures forall t :: t in NextLevel(c.deps, level) <==> exists d :: d in level && (t, d) in DagOf(c, dagId).needs
    ensures Elements(NextLevel(c.deps, level)) <= TasksOf(c, dagId)
  {
    forall t ensures t in NextLevel(c.deps, level) <==> exists d :: d in level && (t, d) in DagOf(c, dagId).needs {
      NextLevelRows(c.deps, level, t);
      forall d | d in level ensures Dependency(t, d) in c.deps <==> (t, d) in DagOf(c, dagId).needs {
        assert d in Elements(level);
        DependentIffEdge(c, dagId, d, t);
      }
    }
  }

  /** The loop over the query's result: each task without a row, once. */
  method FirstsWithoutRow(chain: seq<nat>, existing: set<nat>) returns (suspended: seq<nat>)
    ensures Distinct(suspended) && Elements(suspended) == Elements(chain) - existing
  {
    suspended := [];
    for i := 0 to |chain|
      invariant Distinct(suspended) && Elements(suspended) == Elements(chain[..i]) - existing
    {
      assert chain[..i + 1] == chain[..i] + [chain[i]];
      ElementsAppend(chain[..i], chain[i]);
      if chain[i] !in existing && chain[i] !in suspended {
        ElementsAppend(suspended, chain[i]);
        assert chain[i] !in Elements(suspended);
        suspended := suspended + [chain[i]];
      }
    }
    assert chain[..|chain|] == chain;
  }

  ghost function Position(order: seq<nat>, t: nat): nat
    requires t in order
  {
    var i :| 0 <= i < |order| && order[i] == t; i
  }

  /** Descendants of the failed task, no closer to it in the order than `depth`. */
  ghost predicate LevelOk(g: Dag, order: seq<nat>, level: seq<nat>, failed: nat, depth: nat) {
    && Elements(level) <= g.tasks
    && forall t :: t in level ==> Reaches(g.needs, t, failed) && t in order && depth <= Position(order, t)
  }

  /** Descendants of the failed task; what depends on them, or on it, is among them or in the next level. */
  ghost predicate ChainOk(g: Dag, chain: set<nat>, next: set<nat>, failed: nat) {
    && (forall t :: t in chain ==> t in g.tasks && Reaches(g.needs, t, failed))
    && forall e :: e in g.needs && (e.1 == failed || e.1 in chain) ==> e.0 in chain + next
  }

  lemma ChainGrows(g: Dag, order: seq<nat>, chain: set<nat>, level: seq<nat>, next: seq<nat>, failed: nat, depth: nat)
    requires ChainOk(g, chain, Elements(level), failed) && LevelOk(g, order, level, failed, depth)
    requires forall t :: t in next <==> exists d :: d in level && (t, d) in g.needs
    ensures ChainOk(g, chain + Elements(level), Elements(next), failed)
  {
  }

  /** A chain with nothing left to follow holds all descendants. */
  lemma ChainComplete(g: Dag, chain: set<nat>, failed: nat)
    requires ChainOk(g, chain, {}, failed)
    ensures forall t :: t in g.tasks && Reaches(g.needs, t, failed) <==> t in chain
  {
    forall t | t in g.tasks && Reaches(g.needs, t, failed) ensures t in chain {
      AllDescendantsIn(g, chain, t, failed);
    }
  }

  lemma AllDescendantsIn(g: Dag, found: set<nat>, t: nat, failed: nat)
    requires forall e :: e in g.needs && (e.1 == failed || e.1 in found) ==> e.0 in found
    requires Reaches(g.needs, t, failed)
    ensures t in found
  {
    var walk :| IsWalkBetween(g.needs, walk, t, failed);
    var i := |walk| - 1;
    while i > 0
      invariant 0 <= i < |walk|
      invariant (walk[i] == failed || walk[i] in found) && (i < |walk| - 1 ==> walk[i] in found)
    {
      assert (walk[i - 1], walk[i - 1 + 1]) in g.needs;
      i := i - 1;
    }
  }

  /** One level further down: still descendants of the failed task, one place later in the order. */
  lemma Descend(g: Dag, order: seq<nat>, t: nat, d: nat, failed: nat, depth: nat)
    requires IsTopologicalOrder(g.needs, g.tasks, order) && (t, d) in g.needs && t in g.tasks && d in g.tasks
    requires d == failed || Reaches(g.needs, d, failed)
    requires d in order && depth <= Position(order, d)
    ensures t in order && Reaches(g.needs, t, failed) && depth + 1 <= Position(order, t)
  {
    EdgeReaches(g.needs, t, d);
    if d != failed {
      ReachesTransitive(g.needs, t, d, failed);
    }
    assert order[Position(order, t)] == t && order[Position(order, d)] == d;
  }

  lemma LevelDescends(g: Dag, order: seq<nat>, level: seq<nat>, next: seq<nat>, failed: nat, depth: nat)
    requires IsTopologicalOrder(g.needs, g.tasks, order) && LevelOk(g, order, level, failed, depth)
    requires forall t :: t in next <==> exists d :: d in level && (t, d) in g.needs
    requires Elements(next) <= g.tasks
    ensures LevelOk(g, order, next, failed, depth + 1)
  {
    forall t | t in next ensures Reaches(g.needs, t, failed) && t in order && depth + 1 <= Position(order, t) {
      var d :| d in level && (t, d) in g.needs;
      assert t in Elements(next) && d in Elements(level);
      Descend(g, order, t, d, failed, depth);
    }
  }

  lemma FirstLevel(g: Dag, order: seq<nat>, next: seq<nat>, failed: nat)
    requires IsTopologicalOrder(g.needs, g.tasks, order) && failed in g.tasks
    requires forall t :: t in next <==> exists d :: d in [failed] && (t, d) in g.needs
    requires Elements(next) <= g.tasks
    ensures LevelOk(g, order, next, failed, 1) && ChainOk(g, {}, Elements(next), failed)
  {
    assert failed in [failed];
    forall t | t in next ensures Reaches(g.needs, t, failed) && t in order && 1 <= Position(order, t) {
      assert t in Elements(next);
      Descend(g, order, t, failed, failed, 0);
    }
  }

  /** The depth at which nothing is left. */
  lemma LevelInside(g: Dag, order: seq<nat>, level: seq<nat>, failed: nat, depth: nat)
    requires LevelOk(g, order, level, failed, depth) && level != []
    ensures depth < |order|
  {
    assert level[0] in order && Position(order, level[0]) < |order|;
  }

  /** The query walks through tasks that have rows; it ends because the graph has no cycle, and the
      loop over its result keeps the first of each task without a row. */
  method RecursiveQuery(c: Catalog, dagId: nat, existing: set<nat>, startingTask: nat) returns (suspended: seq<nat>)
    requires WellFormed(c) && dagId < |c.dags| && startingTask in TasksOf(c, dagId)
    ensures Distinct(suspended)
    ensures Elements(suspended) == Orphans(DagOf(c, dagId), existing, startingTask)
  {
    ghost var g := DagOf(c, dagId);
    assert WellFormedDag(c, dagId);
    ghost var order := TopologicalOrder(g.needs, g.tasks);
    var level, chain: seq<nat>, depth := NextLevel(c.deps, [startingTask]), [], 1;
    NextLevelEdges(c, dagId, [startingTask]);
    FirstLevel(g, order, level, startingTask);
    assert Elements(chain) == {};
    while level != []
      invariant LevelOk(g, order, level, startingTask, depth)
                && ChainOk(g, Elements(chain), Elements(level), startingTask)
      decreases |order| - depth
    {
      LevelInside(g, order, level, startingTask, depth);
      var next := NextLevel(c.deps, level);
      NextLevelEdges(c, dagId, level);
      LevelDescends(g, order, level, next, startingTask, depth);
      ChainGrows(g, order, Elements(chain), level, next, startingTask, depth);
      ElementsOfBoth(chain, level);
      level, chain, depth := next, chain + level, depth + 1;
    }
    ChainComplete(g, Elements(chain), startingTask);
    suspended := FirstsWithoutRow(chain, existing);
  }
}
