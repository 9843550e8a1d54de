/** The DAG form's own cycle detector (ui/src/utils/dagform.ts), and its agreement with the
    controller's checkNoCycles. */
module DagForm {
  import opened Prelude
  import opened Graphs
  import DagTypes

  datatype FormTask = FormTask(name: string, runAfter: Option<seq<string>>)

  function RunAfterOf(task: FormTask): seq<string> {
    if task.runAfter.Some? then task.runAfter.value else []
  }

  /** Map.set in list order: of several tasks with one name the last one wins. */
  function TaskMap(tasks: seq<FormTask>): map<string, FormTask> {
    if tasks == [] then map[] else
    var last := tasks[|tasks| - 1];
    TaskMap(tasks[..|tasks| - 1])[last.name := last]
  }

  ghost function MapEdges(m: map<string, FormTask>): set<(string, string)> {
    set n, j | n in m && 0 <= j < |RunAfterOf(m[n])| :: (n, RunAfterOf(m[n])[j])
  }

  ghost function MapMentioned(m: map<string, FormTask>): set<string> {
    m.Keys + set e | e in MapEdges(m) :: e.1
  }

  /** The closure hasCycle with the three collections it captures. */
  class CycleDetector {
    const taskMap: map<string, FormTask>
    var visited: set<string>
    var recursionStack: set<string>

    constructor (taskMap: map<string, FormTask>)
      ensures this.taskMap == taskMap && visited == {} && recursionStack == {}
    {
      this.taskMap := taskMap;
      visited, recursionStack := {}, {};
    }

    ghost predicate Searching(grey: seq<string>)
      reads this
    {
      recursionStack == Elements(grey) && DfsInvariant(MapEdges(taskMap), visited, grey)
    }

    /** A hit leaves recursionStack dirty, so what the answer means is promised only while the
        search is clean; that it terminates is promised always. */
    method HasCycle(name: string, ghost grey: seq<string>, ghost clean: bool) returns (cycle: bool)
      requires clean ==> Searching(grey) && MayVisit(MapEdges(taskMap), grey, name)
      requires name in MapMentioned(taskMap)
      modifies this
      ensures old(visited) <= visited
      ensures clean && cycle ==> !Acyclic(MapEdges(taskMap))
      ensures clean && !cycle ==> Searching(grey) && name in visited && name !in recursionStack
      decreases MapMentioned(taskMap) - visited
    {
      ghost var e := MapEdges(taskMap);
      if name in recursionStack {
        if clean {
          DfsHit(e, visited, grey, name);
        }
        return true;
      }
      if name in visited {
        return false;
      }
      if clean {
        DfsPush(e, visited, grey, name);
      }
      visited := visited + {name};
      recursionStack := recursionStack + {name};
      ghost var stack := grey + [name];

      if name in taskMap {
        var deps := RunAfterOf(taskMap[name]);
        for j := 0 to |deps|
          invariant old(visited) + {name} <= visited
          invariant clean ==> Searching(stack)
          invariant clean ==> forall l :: 0 <= l < j ==> deps[l] in visited && deps[l] !in stack
        {
          assert (name, deps[j]) in e;
          var hit := HasCycle(deps[j], stack, clean);
          if hit {
            return true;
          }
        }
      }

      if clean {
        assert Blackened(e, visited, stack, Successors(e, name));
        DfsPop(e, visited, grey, name);
      }
      recursionStack := recursionStack - {name};
      return false;
    }
  }

  /** keys is the insertion order in which Map.keys() yields the names. The loop goes on after
      a hit, on a dirty stack; that may change which errors are listed, not whether any is. */
  method DetectCycles(tasks: seq<FormTask>, keys: seq<string>) returns (errors: seq<string>)
    requires Elements(keys) == TaskMap(tasks).Keys
    ensures errors == [] <==> Acyclic(MapEdges(TaskMap(tasks)))
  {
    var taskMap: map<string, FormTask> := map[];
    for i := 0 to |tasks|
      invariant taskMap == TaskMap(tasks[..i])
    {
      taskMap := taskMap[tasks[i].name := tasks[i]];
      assert tasks[..i + 1][..i] == tasks[..i];
    }
    assert tasks[..|tasks|] == tasks;

    var detector := new CycleDetector(taskMap);
    errors := [];
    for i := 0 to |keys|
      invariant fresh(detector) && detector.taskMap == taskMap
      invariant errors == [] ==> detector.Searching([]) && forall k :: 0 <= k < i ==> keys[k] in detector.visited
      invariant errors != [] ==> !Acyclic(MapEdges(taskMap))
    {
      assert keys[i] in Elements(keys);
      var cycle := detector.HasCycle(keys[i], [], errors == []);
      if cycle {
        errors := errors + ["Cyclic dependency detected involving task \"" + keys[i] + "\"."];
      }
    }
    if errors == [] {
      forall x | x in MapEdges(taskMap) ensures x.0 in detector.visited {
        assert x.0 in Elements(keys);
      }
      DfsDone(MapEdges(taskMap), detector.visited);
    }
  }

  // ----- Agreement with the controller -----

  /** The form's view of a list of task specifications. */
  function FormView(tasks: seq<DagTypes.TaskSpec>): seq<FormTask> {
    seq(|tasks|, i requires 0 <= i < |tasks| => FormTask(tasks[i].name, Some(tasks[i].runAfter)))
  }

  lemma {:induction false} TaskMapLookup(tasks: seq<FormTask>, i: nat)
    requires i < |tasks| && forall j :: i < j < |tasks| ==> tasks[j].name != tasks[i].name
    ensures tasks[i].name in TaskMap(tasks) && TaskMap(tasks)[tasks[i].name] == tasks[i]
  {
    var last := |tasks| - 1;
    if i < last {
      TaskMapLookup(tasks[..last], i);
    }
  }

  lemma {:induction false} TaskMapKeys(tasks: seq<FormTask>, n: string)
    requires n in TaskMap(tasks)
    ensures exists i :: 0 <= i < |tasks| && tasks[i].name == n && TaskMap(tasks)[n] == tasks[i]
  {
    var last := |tasks| - 1;
    if n == tasks[last].name {
      assert TaskMap(tasks)[n] == tasks[last];
    } else {
      TaskMapKeys(tasks[..last], n);
      var i :| 0 <= i < last && tasks[..last][i].name == n && TaskMap(tasks[..last])[n] == tasks[..last][i];
      assert TaskMap(tasks)[n] == tasks[i];
    }
  }

  /** The form sees no edge that the controller does not see. */
  lemma FormEdgesAreRunAfterEdges(tasks: seq<DagTypes.TaskSpec>)
    ensures MapEdges(TaskMap(FormView(tasks))) <= DagTypes.RunAfterEdges(tasks)
  {
    var view := FormView(tasks);
    var m := TaskMap(view);
    forall x | x in MapEdges(m) ensures x in DagTypes.RunAfterEdges(tasks) {
      var n, j :| n in m && 0 <= j < |RunAfterOf(m[n])| && x == (n, RunAfterOf(m[n])[j]);
      TaskMapKeys(view, n);
      var i :| 0 <= i < |view| && view[i].name == n && m[n] == view[i];
      assert x == (tasks[i].name, tasks[i].runAfter[j]);
    }
  }

  /** So the form complains of no graph that the controller's check lets pass. */
  lemma FormIsNoStricter(tasks: seq<DagTypes.TaskSpec>)
    requires Acyclic(DagTypes.RunAfterEdges(tasks))
    ensures Acyclic(MapEdges(TaskMap(FormView(tasks))))
  {
    FormEdgesAreRunAfterEdges(tasks);
    forall n ensures !Reaches(MapEdges(TaskMap(FormView(tasks))), n, n) {
      if Reaches(MapEdges(TaskMap(FormView(tasks))), n, n) {
        ReachesMonotone(MapEdges(TaskMap(FormView(tasks))), DagTypes.RunAfterEdges(tasks), n, n);
      }
    }
  }

  /** With distinct names both detectors judge the same graph. */
  lemma FormGraphIsRunAfterGraph(tasks: seq<DagTypes.TaskSpec>)
    requires DagTypes.DistinctNames(tasks)
    ensures MapEdges(TaskMap(FormView(tasks))) == DagTypes.RunAfterEdges(tasks)
  {
    var view := FormView(tasks);
    var m := TaskMap(view);
    FormEdgesAreRunAfterEdges(tasks);
    forall x | x in DagTypes.RunAfterEdges(tasks) ensures x in MapEdges(m) {
      var i, j :| 0 <= i < |tasks| && 0 <= j < |tasks[i].runAfter| && x == (tasks[i].name, tasks[i].runAfter[j]);
      TaskMapLookup(view, i);
      assert x == (x.0, RunAfterOf(m[x.0])[j]);
    }
  }

  /** The two detectors side by side: what the controller lets pass the form lets pass, and on distinct
      names they accept the same graphs. */
  method BothDetectors(tasks: seq<DagTypes.TaskSpec>, keys: seq<string>)
    returns (form: seq<string>, controller: Outcome)
    requires Elements(keys) == TaskMap(FormView(tasks)).Keys
    ensures controller.Ok? ==> form == []
    ensures DagTypes.DistinctNames(tasks) ==> (form == [] <==> controller.Ok?)
    ensures controller.Ok? <==> Acyclic(DagTypes.RunAfterEdges(tasks))
  {
    form := DetectCycles(FormView(tasks), keys);
    controller := DagTypes.CheckNoCycles(tasks);
    if DagTypes.DistinctNames(tasks) {
      FormGraphIsRunAfterGraph(tasks);
    }
    if Acyclic(DagTypes.RunAfterEdges(tasks)) {
      FormIsNoStricter(tasks);
    }
  }

  /** With a repeated name they can differ: the last entry hides the cycle from the form. */
  lemma RepeatedNameHidesCycle()
    ensures exists tasks :: !Acyclic(DagTypes.RunAfterEdges(tasks)) && Acyclic(MapEdges(TaskMap(FormView(tasks))))
  {
    var looping := DagTypes.TaskSpec("a", Some(DagTypes.TaskRef("t", 1)), "", [], "", ["a"]);
    var plain := looping.(runAfter := []);
    var tasks := [looping, plain];
    var e := DagTypes.RunAfterEdges(tasks);
    assert (tasks[0].name, tasks[0].runAfter[0]) in e;
    EdgeReaches(e, "a", "a");
    var view := FormView(tasks);
    assert view == [FormTask("a", Some(["a"])), FormTask("a", Some([]))];
    assert view[..1][..0] == [] && view[..1] == [view[0]];
    TaskMapLookup(view, 1);
    forall x | x in MapEdges(TaskMap(view)) ensures false {
      TaskMapKeys(view, x.0);
    }
    forall n ensures !Reaches(MapEdges(TaskMap(view)), n, n) {
      if Reaches(MapEdges(TaskMap(view)), n, n) {
        var c := ReachesFirstStep(MapEdges(TaskMap(view)), n, n);
      }
    }
  }
}
