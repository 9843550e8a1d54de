/** The DAG resource and its admission checks (controller/api/v1alpha1/dag_types.go). The Go
    closures that mutate captured maps become classes with those maps as fields. */
module DagTypes {
  import opened Prelude
  import opened Graphs

  datatype TaskRef = TaskRef(name: string, version: int)

  /** The part of a task's specification that the graph checks and the DSL compiler touch. */
  datatype TaskSpec = TaskSpec(
    name: string,
    taskRef: Option<TaskRef>,
    image: string,
    command: seq<string>,
    script: string,
    runAfter: seq<string>)

  // ----- What the checks are about -----

  /** One edge (task, dependency) per runAfter entry; tasks that share a name share a node. */
  function RunAfterEdges(tasks: seq<TaskSpec>): set<(string, string)> {
    set i, j | 0 <= i < |tasks| && 0 <= j < |tasks[i].runAfter| :: (tasks[i].name, tasks[i].runAfter[j])
  }

  function Names(tasks: seq<TaskSpec>): set<string> {
    set i | 0 <= i < |tasks| :: tasks[i].name
  }

  ghost predicate DistinctNames(tasks: seq<TaskSpec>) {
    forall i, j :: 0 <= i < j < |tasks| ==> tasks[i].name != tasks[j].name
  }

  /** Every name the graph mentions. */
  function Mentioned(tasks: seq<TaskSpec>): set<string> {
    Names(tasks) + set e | e in RunAfterEdges(tasks) :: e.1
  }

  ghost predicate FieldsFilled(tasks: seq<TaskSpec>) {
    && (forall i :: 0 <= i < |tasks| ==> FieldsFilledIn(tasks[i]))
    && forall i, j :: 0 <= i < j < |tasks| && tasks[i].taskRef.None? && tasks[j].taskRef.None? ==>
         tasks[i].name != tasks[j].name
  }

  predicate FieldsFilledIn(task: TaskSpec) {
    && task.name != ""
    && (task.taskRef.None? ==> (task.script != "" || task.command != []) && task.image != "")
  }

  /** Every dependency names a task of the list. */
  ghost predicate DependenciesExist(tasks: seq<TaskSpec>) {
    forall e :: e in RunAfterEdges(tasks) ==> e.1 in Names(tasks)
  }

  ghost function Undirected<T>(e: set<(T, T)>): set<(T, T)> {
    e + set x | x in e :: (x.1, x.0)
  }

  /** Any two different tasks are joined by a path of dependencies walked in either direction. */
  ghost predicate Connected(tasks: seq<TaskSpec>) {
    forall a, b :: a in Names(tasks) && b in Names(tasks) && a != b ==>
      Reaches(Undirected(RunAfterEdges(tasks)), a, b)
  }

  ghost predicate HasStartingTask(tasks: seq<TaskSpec>) {
    exists i :: 0 <= i < |tasks| && tasks[i].runAfter == []
  }

  // ----- checkFieldsFilled -----

  method CheckFieldsFilled(tasks: seq<TaskSpec>) returns (r: Outcome)
    ensures r.Ok? <==> FieldsFilled(tasks)
  {
    var taskNames: set<string> := {};
    for i := 0 to |tasks|
      invariant taskNames == set j | 0 <= j < i && tasks[j].taskRef.None? :: tasks[j].name
      invariant FieldsFilled(tasks[..i])
    {
      var task := tasks[i];
      assert tasks[..i + 1][i] == task;
      assert forall j :: 0 <= j < i ==> tasks[..i][j] == tasks[j] == tasks[..i + 1][j];
      if task.name == "" {
        return Err("task name must be specified");
      }
      if task.taskRef.Some? {
        continue;
      }
      if task.script == "" && task.command == [] {
        return Err("must provide a script or a command");
      }
      if task.image == "" {
        return Err("task image must be specified");
      }
      if task.name in taskNames {
        return Err("duplicate task name: " + task.name);
      }
      taskNames := taskNames + {task.name};
    }
    assert tasks[..|tasks|] == tasks;
    return Ok;
  }

  // ----- checkNoCycles -----

  /** The closure `visit` of checkNoCycles with the two maps it captures. */
  class CycleVisitor {
    const tasks: seq<TaskSpec>
    var visited: set<string>
    var recStack: set<string>

    constructor (tasks: seq<TaskSpec>)
      ensures this.tasks == tasks && visited == {} && recStack == {}
    {
      this.tasks := tasks;
      visited, recStack := {}, {};
    }

    /** grey is the recursion stack in order; recStack holds its elements. */
    ghost predicate Searching(grey: seq<string>)
      reads this
    {
      recStack == Elements(grey) && DfsInvariant(RunAfterEdges(tasks), visited, grey)
    }

    method Visit(name: string, ghost grey: seq<string>) returns (cycle: bool)
      requires Searching(grey) && MayVisit(RunAfterEdges(tasks), grey, name)
      requires name in Mentioned(tasks)
      modifies this
      ensures cycle ==> !Acyclic(RunAfterEdges(tasks))
      ensures !cycle ==> Searching(grey) && name in visited && name !in recStack
      ensures !cycle ==> old(visited) <= visited
      decreases Mentioned(tasks) - visited
    {
      ghost var e := RunAfterEdges(tasks);
      if name in recStack {
        DfsHit(e, visited, grey, name);
        return true;
      }
      if name in visited {
        return false;
      }
      DfsPush(e, visited, grey, name);
      visited := visited + {name};
      recStack := recStack + {name};
      ghost var stack := grey + [name];

      for i := 0 to |tasks|
        invariant Searching(stack) && old(visited) + {name} <= visited
        invariant forall k, l :: 0 <= k < i && tasks[k].name == name && 0 <= l < |tasks[k].runAfter| ==>
                    tasks[k].runAfter[l] in visited && tasks[k].runAfter[l] !in stack
      {
        if tasks[i].name == name {
          for j := 0 to |tasks[i].runAfter|
            invariant Searching(stack) && old(visited) + {name} <= visited
            invariant forall k, l :: 0 <= k < i && tasks[k].name == name && 0 <= l < |tasks[k].runAfter| ==>
                        tasks[k].runAfter[l] in visited && tasks[k].runAfter[l] !in stack
            invariant forall l :: 0 <= l < j ==>
                        tasks[i].runAfter[l] in visited && tasks[i].runAfter[l] !in stack
          {
            assert (name, tasks[i].runAfter[j]) in e;
            var hit := Visit(tasks[i].runAfter[j], stack);
            if hit {
              return true;
            }
          }
        }
      }

      assert Blackened(e, visited, stack, Successors(e, name));
      DfsPop(e, visited, grey, name);
      recStack := recStack - {name};
      return false;
    }
  }

  method CheckNoCycles(tasks: seq<TaskSpec>) returns (r: Outcome)
    ensures r.Ok? <==> Acyclic(RunAfterEdges(tasks))
  {
    var visitor := new CycleVisitor(tasks);
    for i := 0 to |tasks|
      invariant fresh(visitor) && visitor.tasks == tasks && visitor.Searching([])
      invariant forall k :: 0 <= k < i ==> tasks[k].name in visitor.visited
    {
      var cycle := visitor.Visit(tasks[i].name, []);
      if cycle {
        return Err("cyclic dependency detected");
      }
    }
    DfsDone(RunAfterEdges(tasks), visitor.visited);
    return Ok;
  }

  // ----- checkRunAfterTasksExist -----

  method CheckRunAfterTasksExist(tasks: seq<TaskSpec>) returns (r: Outcome)
    ensures r.Ok? <==> DependenciesExist(tasks)
  {
    var taskMap: set<string> := {};
    for i := 0 to |tasks|
      invariant taskMap == set k | 0 <= k < i :: tasks[k].name
    {
      taskMap := taskMap + {tasks[i].name};
    }
    assert taskMap == Names(tasks);
    for i := 0 to |tasks|
      invariant forall k, l :: 0 <= k < i && 0 <= l < |tasks[k].runAfter| ==> tasks[k].runAfter[l] in taskMap
    {
      for j := 0 to |tasks[i].runAfter|
        invariant forall l :: 0 <= l < j ==> tasks[i].runAfter[l] in taskMap
      {
        var dep := tasks[i].runAfter[j];
        if dep !in taskMap {
          assert (tasks[i].name, dep) in RunAfterEdges(tasks);
          return Err("task " + tasks[i].name + " has runAfter dependency on non-existent task " + dep);
        }
      }
    }
    return Ok;
  }

  // ----- checkAllTasksConnected -----

  /** A missing key of a Go map reads as the zero value. */
  function Lookup(m: map<string, seq<string>>, key: string): seq<string> {
    if key in m then m[key] else []
  }

  /** The closure `dfs` of checkAllTasksConnected with the maps it captures. */
  class ComponentVisitor {
    const adjList: map<string, seq<string>>
    var visited: set<string>

    constructor (adjList: map<string, seq<string>>)
      ensures this.adjList == adjList && visited == {}
    {
      this.adjList := adjList;
      visited := {};
    }

    method Dfs(name: string, ghost e: set<(string, string)>, ghost universe: set<string>)
      requires forall n :: Elements(Lookup(adjList, n)) == Successors(e, n)
      requires forall n :: Successors(e, n) <= universe
      requires name in universe && name !in visited
      modifies this
      ensures old(visited) + {name} <= visited
      ensures forall n :: n in visited - old(visited) - {name} ==> Reaches(e, name, n)
      ensures forall n :: n in visited - old(visited) ==> Successors(e, n) <= visited
      decreases universe - visited
    {
      visited := visited + {name};
      var neighbors := Lookup(adjList, name);
      for i := 0 to |neighbors|
        invariant old(visited) + {name} <= visited
        invariant forall n :: n in visited - old(visited) - {name} ==> Reaches(e, name, n)
        invariant forall n :: n in visited - old(visited) - {name} ==> Successors(e, n) <= visited
        invariant forall k :: 0 <= k < i ==> neighbors[k] in visited
      {
        var neighbor := neighbors[i];
        assert neighbor in Elements(neighbors);
        EdgeReaches(e, name, neighbor);
        if neighbor !in visited {
          ghost var before := visited;
          Dfs(neighbor, e, universe);
          forall n | n in visited - old(visited) - {name}
            ensures Reaches(e, name, n) && Successors(e, n) <= visited
          {
            if n !in before && n != neighbor {
              ReachesTransitive(e, name, neighbor, n);
            }
          }
        }
      }
      assert Successors(e, name) <= visited by {
        assert Successors(e, name) == Elements(neighbors);
      }
    }
  }

  /** adjList lists m as a neighbour of n. */
  predicate Lists(adjList: map<string, seq<string>>, n: string, m: string) {
    m in Lookup(adjList, n)
  }

  /** The inner loop for one task: an edge in each direction per dependency. */
  method AddNeighbours(task: TaskSpec, before: map<string, seq<string>>) returns (adjList: map<string, seq<string>>)
    ensures forall n, m :: Lists(adjList, n, m) <==>
              || Lists(before, n, m)
              || (n == task.name && m in task.runAfter)
              || (n in task.runAfter && m == task.name)
  {
    adjList := before[task.name := Lookup(before, task.name) + task.runAfter];
    ghost var middle := adjList;
    forall n, m
      ensures Lists(middle, n, m) <==> Lists(before, n, m) || (n == task.name && m in task.runAfter)
    {
      assert n == task.name ==> Lookup(middle, n) == Lookup(before, n) + task.runAfter;
    }
    for j := 0 to |task.runAfter|
      invariant forall n, m :: Lists(adjList, n, m) <==>
                  Lists(middle, n, m) || (n in task.runAfter[..j] && m == task.name)
    {
      var dep := task.runAfter[j];
      adjList := adjList[dep := Lookup(adjList, dep) + [task.name]];
      assert task.runAfter[..j + 1] == task.runAfter[..j] + [dep];
    }
    assert task.runAfter[..|task.runAfter|] == task.runAfter;
    forall n, m
      ensures Lists(adjList, n, m) <==>
                || Lists(before, n, m)
                || (n == task.name && m in task.runAfter)
                || (n in task.runAfter && m == task.name)
    {
      assert Lists(adjList, n, m) <==> Lists(middle, n, m) || (n in task.runAfter[..|task.runAfter|] && m == task.name);
      assert Lists(middle, n, m) <==> Lists(before, n, m) || (n == task.name && m in task.runAfter);
    }
  }

  lemma AdjacentStep(tasks: seq<TaskSpec>, i: nat, n: string, m: string)
    requires i < |tasks|
    ensures AdjacentIn(tasks, i + 1, n, m) <==>
              AdjacentIn(tasks, i, n, m) || (n == tasks[i].name && m in tasks[i].runAfter)
  {
    if n == tasks[i].name && m in tasks[i].runAfter {
      assert tasks[i].name == n;
    }
  }

  /** The adjacency lists built by the first loop hold exactly the undirected neighbours. */
  method BuildAdjacency(tasks: seq<TaskSpec>)
    returns (adjList: map<string, seq<string>>, taskMap: set<string>)
    ensures taskMap == Names(tasks)
    ensures forall n :: Elements(Lookup(adjList, n)) == Successors(Undirected(RunAfterEdges(tasks)), n)
  {
    adjList, taskMap := map[], {};
    for i := 0 to |tasks|
      invariant taskMap == set k | 0 <= k < i :: tasks[k].name
      invariant forall n, m :: Lists(adjList, n, m) <==>
                  AdjacentIn(tasks, i, n, m) || AdjacentIn(tasks, i, m, n)
    {
      taskMap := taskMap + {tasks[i].name};
      ghost var before := adjList;
      adjList := AddNeighbours(tasks[i], adjList);
      forall n, m
        ensures Lists(adjList, n, m) <==> AdjacentIn(tasks, i + 1, n, m) || AdjacentIn(tasks, i + 1, m, n)
      {
        assert Lists(before, n, m) <==> AdjacentIn(tasks, i, n, m) || AdjacentIn(tasks, i, m, n);
        AdjacentStep(tasks, i, n, m);
        AdjacentStep(tasks, i, m, n);
      }
    }
    forall n ensures Elements(Lookup(adjList, n)) == Successors(Undirected(RunAfterEdges(tasks)), n) {
      AdjacencyIsUndirected(tasks, adjList, n);
    }
  }

  ghost predicate AdjacentIn(tasks: seq<TaskSpec>, upTo: nat, n: string, m: string)
    requires upTo <= |tasks|
  {
    exists k :: 0 <= k < upTo && tasks[k].name == n && m in tasks[k].runAfter
  }

  lemma AdjacencyIsUndirected(tasks: seq<TaskSpec>, adjList: map<string, seq<string>>, n: string)
    requires forall m :: Lists(adjList, n, m) <==>
               AdjacentIn(tasks, |tasks|, n, m) || AdjacentIn(tasks, |tasks|, m, n)
    ensures Elements(Lookup(adjList, n)) == Successors(Undirected(RunAfterEdges(tasks)), n)
  {
    var e := RunAfterEdges(tasks);
    forall a, b ensures (a, b) in e <==> AdjacentIn(tasks, |tasks|, a, b) {
      if AdjacentIn(tasks, |tasks|, a, b) {
        var k :| 0 <= k < |tasks| && tasks[k].name == a && b in tasks[k].runAfter;
        var l :| 0 <= l < |tasks[k].runAfter| && tasks[k].runAfter[l] == b;
      }
    }
    forall m ensures m in Successors(Undirected(e), n) <==> (n, m) in e || (m, n) in e {
      if (m, n) in e {
        assert (n, m) in Undirected(e);
      }
      if (n, m) in Undirected(e) {
        assert m in Successors(Undirected(e), n);
      }
    }
  }

  lemma UndirectedSymmetric<T(!new)>(e: set<(T, T)>, a: T, b: T)
    requires Reaches(Undirected(e), a, b)
    ensures Reaches(Undirected(e), b, a)
  {
    var u := Undirected(e);
    var p :| IsWalkBetween(u, p, a, b);
    var q := seq(|p|, i requires 0 <= i < |p| => p[|p| - 1 - i]);
    forall i | 0 <= i < |q| - 1 ensures (q[i], q[i + 1]) in u {
      var j := |p| - 2 - i;
      assert (p[j], p[j + 1]) in u;
      assert q[i] == p[j + 1] && q[i + 1] == p[j];
    }
    assert IsWalkBetween(u, q, b, a);
  }

  /** startNode is whichever key Go's map iteration yields first: any task, or "" if there is none. */
  method CheckAllTasksConnected(tasks: seq<TaskSpec>, startNode: string) returns (r: Outcome)
    requires if tasks == [] then startNode == "" else startNode in Names(tasks)
    ensures r.Ok? <==> Connected(tasks)
  {
    var adjList, taskMap := BuildAdjacency(tasks);
    ghost var u := Undirected(RunAfterEdges(tasks));
    ghost var universe := {startNode} + set x | x in u :: x.1;
    var visitor := new ComponentVisitor(adjList);
    visitor.Dfs(startNode, u, universe);
    var visited := visitor.visited;

    if !(taskMap <= visited) {
      ghost var b :| b in taskMap && b !in visited;
      if Reaches(u, startNode, b) {
        ClosedStays(u, visited, startNode, b);
      }
      assert tasks != [];
      return Err("not all tasks are connected");
    }
    forall a, b | a in Names(tasks) && b in Names(tasks) && a != b
      ensures Reaches(u, a, b)
    {
      if a != startNode {
        UndirectedSymmetric(RunAfterEdges(tasks), startNode, a);
        if b != startNode {
          ReachesTransitive(u, a, startNode, b);
        }
      }
    }
    return Ok;
  }

  // ----- checkStartingTask -----

  method CheckStartingTask(tasks: seq<TaskSpec>) returns (r: Outcome)
    ensures r.Ok? <==> HasStartingTask(tasks)
  {
    for i := 0 to |tasks|
      invariant forall k :: 0 <= k < i ==> tasks[k].runAfter != []
    {
      if tasks[i].runAfter == [] {
        return Ok;
      }
    }
    return Err("no starting task found (a task with no runAfter dependencies)");
  }

  /** Acyclic and closed already give an order in which every dependency comes first, and a
      task without dependencies. */
  lemma AcyclicClosedHasRoot(tasks: seq<TaskSpec>) returns (order: seq<string>)
    requires tasks != [] && Acyclic(RunAfterEdges(tasks)) && DependenciesExist(tasks)
    ensures IsTopologicalOrder(RunAfterEdges(tasks), Names(tasks), order)
    ensures HasStartingTask(tasks)
  {
    var e := RunAfterEdges(tasks);
    order := TopologicalOrder(e, Names(tasks));
    assert tasks[0].name in Names(tasks);
    forall i | 0 <= i < |tasks| && tasks[i].runAfter != []
      ensures tasks[i].runAfter[0] in Successors(e, tasks[i].name) * Names(tasks)
    {
      assert (tasks[i].name, tasks[i].runAfter[0]).1 in Names(tasks);
    }
    var m := MinimalMember(e, Names(tasks));
    var i :| 0 <= i < |tasks| && tasks[i].name == m;
  }

  // ----- ValidateDAG -----

  /** What an accepted list of tasks is known to satisfy. */
  ghost predicate Accepted(tasks: seq<TaskSpec>) {
    && FieldsFilled(tasks)
    && Acyclic(RunAfterEdges(tasks))
    && DependenciesExist(tasks)
    && Connected(tasks)
    && tasks != []
  }

  /** parameters is the verdict of checkParameters, which does not look at the graph. */
  method ValidateDAG(tasks: seq<TaskSpec>, parameters: Outcome, startNode: string) returns (r: Outcome)
    requires if tasks == [] then startNode == "" else startNode in Names(tasks)
    ensures r.Ok? <==> Accepted(tasks) && parameters.Ok?
  {
    r := CheckFieldsFilled(tasks);
    if r.Err? { return; }
    if parameters.Err? { return parameters; }
    r := CheckNoCycles(tasks);
    if r.Err? { return; }
    r := CheckRunAfterTasksExist(tasks);
    if r.Err? { return; }
    r := CheckAllTasksConnected(tasks, startNode);
    if r.Err? { return; }
    r := CheckStartingTask(tasks);
    if tasks != [] {
      ghost var order := AcyclicClosedHasRoot(tasks);
    }
  }
}
