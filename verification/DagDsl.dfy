/** From the parsed DSL to a DAG specification (controller/internal/dagdsl/parser.go) and the
    DSL's own validator (controller/internal/dagdsl/validator.go). */
module DagDsl {
  import opened Prelude
  import opened Graphs
  import opened DagTypes

  // ----- The syntax tree, field by field optional as the parser fills it -----

  datatype TargetSet = TargetSet(single: Option<string>, multiple: Option<seq<string>>)

  datatype EdgeDef = EdgeDef(from: string, to: TargetSet)

  datatype TaskField = TaskField(
    image: Option<string>, command: Option<seq<string>>, args: Option<seq<string>>, script: Option<string>)

  datatype TaskDef = TaskDef(name: string, fields: seq<TaskField>)

  datatype DAGItem = DAGItem(
    schedule: Option<string>, parameters: Option<seq<string>>, graph: Option<seq<EdgeDef>>, task: Option<TaskDef>)

  // ----- What the compiler should produce -----

  function Targets(t: TargetSet): seq<string> {
    if t.single.Some? then [t.single.value] else if t.multiple.Some? then t.multiple.value else []
  }

  /** The (from, to) pairs of a graph block in the order they are written. */
  function EdgeList(edges: seq<EdgeDef>): seq<(string, string)> {
    if edges == [] then [] else
    var last := edges[|edges| - 1];
    EdgeList(edges[..|edges| - 1]) + Pairs(last.from, Targets(last.to))
  }

  function Pairs(from: string, targets: seq<string>): seq<(string, string)> {
    seq(|targets|, i requires 0 <= i < |targets| => (from, targets[i]))
  }

  /** The sources of the edges into target, in order and with multiplicity. */
  function Sources(edges: seq<(string, string)>, target: string): seq<string> {
    if edges == [] then [] else
    var last := edges[|edges| - 1];
    Sources(edges[..|edges| - 1], target) + if last.1 == target then [last.0] else []
  }

  /** The graph block that counts: the last one that no earlier alternative shadows. */
  function LastGraph(items: seq<DAGItem>): Option<seq<EdgeDef>> {
    if items == [] then None else
    var last := items[|items| - 1];
    if last.schedule.None? && last.parameters.None? && last.graph.Some? then last.graph
    else LastGraph(items[..|items| - 1])
  }

  function TaskDefs(items: seq<DAGItem>): seq<TaskDef> {
    if items == [] then [] else
    var last := items[|items| - 1];
    TaskDefs(items[..|items| - 1]) +
    if last.schedule.None? && last.parameters.None? && last.graph.None? && last.task.Some? then [last.task.value]
        else []
  }

  /** All edges written in the program's graph. */
  function WrittenEdges(items: seq<DAGItem>): seq<(string, string)> {
    if LastGraph(items).Some? then EdgeList(LastGraph(items).value) else []
  }

  // ----- The same, entry by entry -----

  /** The l-th target written in edge e is name: the only one, or the l-th of a list. */
  predicate WrittenAt(e: EdgeDef, l: nat, name: string) {
    if e.to.single.Some? then l == 0 && e.to.single.value == name
    else e.to.multiple.Some? && l < |e.to.multiple.value| && e.to.multiple.value[l] == name
  }

  predicate Precedes(a: (nat, nat), b: (nat, nat)) {
    a.0 < b.0 || (a.0 == b.0 && a.1 < b.1)
  }

  /** runAfter lists, in the order in which they are written, the sources of all written edges into name,
      each as often as it is written; places says where. */
  ghost predicate ListedAt(edges: seq<EdgeDef>, name: string, runAfter: seq<string>, places: seq<(nat, nat)>) {
    && |places| == |runAfter|
    && (forall j :: 0 <= j < |places| ==>
          && places[j].0 < |edges| && WrittenAt(edges[places[j].0], places[j].1, name)
          && runAfter[j] == edges[places[j].0].from)
    && (forall j, k :: 0 <= j < k < |places| ==> Precedes(places[j], places[k]))
    && forall e: nat, l: nat :: e < |edges| && WrittenAt(edges[e], l, name) ==> (e, l) in places
  }

  ghost predicate AsWritten(edges: seq<EdgeDef>, name: string, runAfter: seq<string>) {
    exists places: seq<(nat, nat)> :: ListedAt(edges, name, runAfter, places)
  }

  lemma {:induction false} SourcesAppend(first: seq<(string, string)>, second: seq<(string, string)>, name: string)
    ensures Sources(first + second, name) == Sources(first, name) + Sources(second, name)
  {
    if second == [] {
      assert first + second == first;
    } else {
      var init, last := second[..|second| - 1], second[|second| - 1];
      SourcesAppend(first, init, name);
      assert (first + second)[..|first + second| - 1] == first + init;
    }
  }

  /** The targets of one edge that are name. */
  lemma {:induction false} TargetPlaces(from: string, targets: seq<string>, name: string) returns (at: seq<nat>)
    ensures |at| == |Sources(Pairs(from, targets), name)|
    ensures forall j :: 0 <= j < |at| ==>
              at[j] < |targets| && targets[at[j]] == name && Sources(Pairs(from, targets), name)[j] == from
    ensures forall j, k :: 0 <= j < k < |at| ==> at[j] < at[k]
    ensures forall l: nat :: l < |targets| && targets[l] == name ==> l in at
  {
    if targets == [] {
      at := [];
    } else {
      var init, last: nat := targets[..|targets| - 1], |targets| - 1;
      at := TargetPlaces(from, init, name);
      assert Pairs(from, targets)[..last] == Pairs(from, init);
      if targets[last] == name {
        at := at + [last];
      }
    }
  }

  lemma TargetsAreWritten(e: EdgeDef, l: nat, name: string)
    ensures WrittenAt(e, l, name) <==> l < |Targets(e.to)| && Targets(e.to)[l] == name
  {
  }

  lemma {:induction false} SourcesPlaces(edges: seq<EdgeDef>, name: string) returns (places: seq<(nat, nat)>)
    ensures ListedAt(edges, name, Sources(EdgeList(edges), name), places)
  {
    if edges == [] {
      places := [];
    } else {
      var init, last := edges[..|edges| - 1], edges[|edges| - 1];
      var before := SourcesPlaces(init, name);
      var more, at := LastPlaces(last, name);
      OneMoreEdgeSources(edges, name);
      places := PlacesAppend(edges, name, Sources(EdgeList(init), name), before, more, at);
    }
  }

  lemma OneMoreEdgeSources(edges: seq<EdgeDef>, name: string)
    requires edges != []
    ensures var init, last := edges[..|edges| - 1], edges[|edges| - 1];
            Sources(EdgeList(edges), name) ==
            Sources(EdgeList(init), name) + Sources(Pairs(last.from, Targets(last.to)), name)
  {
    var init, last := edges[..|edges| - 1], edges[|edges| - 1];
    SourcesAppend(EdgeList(init), Pairs(last.from, Targets(last.to)), name);
  }

  lemma LastPlaces(e: EdgeDef, name: string) returns (more: seq<string>, at: seq<nat>)
    ensures more == Sources(Pairs(e.from, Targets(e.to)), name) && |at| == |more|
    ensures forall j :: 0 <= j < |at| ==> WrittenAt(e, at[j], name) && more[j] == e.from
    ensures forall j, k :: 0 <= j < k < |at| ==> at[j] < at[k]
    ensures forall l: nat :: WrittenAt(e, l, name) ==> l in at
  {
    more := Sources(Pairs(e.from, Targets(e.to)), name);
    at := TargetPlaces(e.from, Targets(e.to), name);
    forall l: nat { TargetsAreWritten(e, l, name); }
  }

  lemma PlacesAppend(edges: seq<EdgeDef>, name: string, sources: seq<string>, before: seq<(nat, nat)>,
                     more: seq<string>, at: seq<nat>) returns (places: seq<(nat, nat)>)
    requires edges != [] && ListedAt(edges[..|edges| - 1], name, sources, before)
    requires |at| == |more| && forall j :: 0 <= j < |at| ==>
               && WrittenAt(edges[|edges| - 1], at[j], name) && more[j] == edges[|edges| - 1].from
    requires forall j, k :: 0 <= j < k < |at| ==> at[j] < at[k]
    requires forall l: nat :: WrittenAt(edges[|edges| - 1], l, name) ==> l in at
    ensures ListedAt(edges, name, sources + more, places)
  {
    var last: nat := |edges| - 1;
    var added := seq(|at|, j requires 0 <= j < |at| => (last, at[j]));
    places := before + added;
    forall e: nat, l: nat | e < |edges| && WrittenAt(edges[e], l, name) ensures (e, l) in before + added {
      if e == last {
        assert WrittenAt(edges[|edges| - 1], l, name);
        Tagged(at, last, l);
      } else {
        assert edges[..last][e] == edges[e];
        assert (e, l) in before;
      }
    }
  }

  lemma Tagged(at: seq<nat>, e: nat, l: nat)
    requires l in at
    ensures (e, l) in seq(|at|, j requires 0 <= j < |at| => (e, at[j]))
  {
    var j :| 0 <= j < |at| && at[j] == l;
    assert seq(|at|, j requires 0 <= j < |at| => (e, at[j]))[j] == (e, l);
  }

  lemma SourcesAsWritten(edges: seq<EdgeDef>, name: string)
    ensures AsWritten(edges, name, Sources(EdgeList(edges), name))
  {
    var places := SourcesPlaces(edges, name);
  }

  predicate IsGraphItem(item: DAGItem) {
    item.schedule.None? && item.parameters.None? && item.graph.Some?
  }

  predicate IsTaskItem(item: DAGItem) {
    item.schedule.None? && item.parameters.None? && item.graph.None? && item.task.Some?
  }

  /** Item i is the last of the program's graph blocks. */
  ghost predicate IsLastGraph(items: seq<DAGItem>, i: nat) {
    i < |items| && IsGraphItem(items[i]) && forall k :: i < k < |items| ==> !IsGraphItem(items[k])
  }

  lemma {:induction false} LastGraphIs(items: seq<DAGItem>)
    ensures LastGraph(items).None? <==> forall i :: 0 <= i < |items| ==> !IsGraphItem(items[i])
    ensures forall i: nat :: IsLastGraph(items, i) ==> LastGraph(items) == items[i].graph
  {
    if items != [] {
      var init, last: nat := items[..|items| - 1], |items| - 1;
      LastGraphIs(init);
      forall i: nat | IsLastGraph(items, i) ensures LastGraph(items) == items[i].graph {
        if i < last {
          assert IsLastGraph(init, i);
        }
      }
    }
  }

  /** The tasks come from the task items, in order; at says which. */
  ghost predicate DefinedAt(items: seq<DAGItem>, defs: seq<TaskDef>, at: seq<nat>) {
    && |at| == |defs|
    && (forall k :: 0 <= k < |at| ==>
          at[k] < |items| && IsTaskItem(items[at[k]]) && defs[k] == items[at[k]].task.value)
    && (forall k, l :: 0 <= k < l < |at| ==> at[k] < at[l])
    && forall i: nat :: i < |items| && IsTaskItem(items[i]) ==> i in at
  }

  lemma {:induction false} TaskDefsAt(items: seq<DAGItem>) returns (at: seq<nat>)
    ensures DefinedAt(items, TaskDefs(items), at)
  {
    if items == [] {
      at := [];
    } else {
      var init, last: nat := items[..|items| - 1], |items| - 1;
      var before := TaskDefsAt(init);
      assert items == init + [items[last]];
      DefinedOneMore(init, items[last], TaskDefs(init), before);
      at := if IsTaskItem(items[last]) then before + [last] else before;
    }
  }

  lemma DefinedOneMore(items: seq<DAGItem>, item: DAGItem, defs: seq<TaskDef>, at: seq<nat>)
    requires DefinedAt(items, defs, at)
    ensures if IsTaskItem(item) then DefinedAt(items + [item], defs + [item.task.value], at + [|items|])
            else DefinedAt(items + [item], defs, at)
  {
    var longer := items + [item];
    assert forall i :: 0 <= i < |items| ==> longer[i] == items[i];
    assert longer[|items|] == item;
    forall i: nat | i < |longer| && IsTaskItem(longer[i])
      ensures i in if IsTaskItem(item) then at + [|items|] else at
    {
      if i == |items| {
        assert (at + [|items|])[|at|] == i;
      } else {
        assert i in at;
        assert i in at + [|items|];
      }
    }
  }

  // ----- buildDependencyMap -----

  /** m records the edges, keyed by target. */
  ghost predicate Records(m: map<string, seq<string>>, edges: seq<(string, string)>) {
    forall t :: Lookup(m, t) == Sources(edges, t)
  }

  lemma RecordOne(m: map<string, seq<string>>, edges: seq<(string, string)>, from: string, target: string)
    requires Records(m, edges)
    ensures Records(m[target := Lookup(m, target) + [from]], edges + [(from, target)])
  {
    var longer := edges + [(from, target)];
    assert longer[..|longer| - 1] == edges;
    forall t ensures Lookup(m[target := Lookup(m, target) + [from]], t) == Sources(longer, t) {
      assert Lookup(m, t) == Sources(edges, t);
    }
  }

  lemma OneMoreEdge(edges: seq<EdgeDef>, i: nat)
    requires i < |edges|
    ensures EdgeList(edges[..i + 1]) == EdgeList(edges[..i]) + Pairs(edges[i].from, Targets(edges[i].to))
  {
    assert edges[..i + 1][..i] == edges[..i];
  }

  lemma OneMorePair(from: string, targets: seq<string>, j: nat)
    requires j < |targets|
    ensures Pairs(from, targets[..j + 1]) == Pairs(from, targets[..j]) + [(from, targets[j])]
  {
  }

  /** The loop over the targets of one edge. */
  method RecordEdge(m: map<string, seq<string>>, from: string, targets: seq<string>, ghost edges: seq<(string, string)>)
    returns (dependencies: map<string, seq<string>>)
    requires Records(m, edges)
    ensures Records(dependencies, edges + Pairs(from, targets))
  {
    dependencies := m;
    ghost var done := edges;
    for j := 0 to |targets|
      invariant done == edges + Pairs(from, targets[..j]) && Records(dependencies, done)
    {
      RecordOne(dependencies, done, from, targets[j]);
      OneMorePair(from, targets, j);
      dependencies := dependencies[targets[j] := Lookup(dependencies, targets[j]) + [from]];
      done := done + [(from, targets[j])];
    }
    assert targets[..|targets|] == targets;
  }

  method BuildDependencyMap(graph: Option<seq<EdgeDef>>) returns (dependencies: map<string, seq<string>>)
    ensures Records(dependencies, if graph.Some? then EdgeList(graph.value) else [])
    ensures graph.Some? ==> forall name :: AsWritten(graph.value, name, Lookup(dependencies, name))
    ensures graph.None? ==> dependencies == map[]
  {
    dependencies := map[];
    if graph.None? {
      return;
    }
    var edges := graph.value;
    for i := 0 to |edges|
      invariant Records(dependencies, EdgeList(edges[..i]))
    {
      OneMoreEdge(edges, i);
      dependencies := RecordEdge(dependencies, edges[i].from, Targets(edges[i].to), EdgeList(edges[..i]));
    }
    assert edges[..|edges|] == edges;
    forall name ensures AsWritten(edges, name, Lookup(dependencies, name)) {
      SourcesAsWritten(edges, name);
    }
  }

  // ----- createTaskSpec -----

  function CleanString(s: string): string {
    if |s| >= 2 && s[0] == '"' && s[|s| - 1] == '"' then s[1..|s| - 1] else s
  }

  function CleanScriptString(s: string): string {
    if |s| >= 6 && s[..3] == "\"\"\"" && s[|s| - 3..] == "\"\"\"" then s[3..|s| - 3] else CleanString(s)
  }

  /** Quotes are taken off, and nothing else is changed. */
  lemma CleanStringIs(s: string)
    ensures CleanString("\"" + s + "\"") == s
    ensures |s| < 2 || s[0] != '"' || s[|s| - 1] != '"' ==> CleanString(s) == s
  {
    var quoted := "\"" + s + "\"";
    assert quoted[1..|quoted| - 1] == s;
  }

  lemma CleanScriptIs(s: string)
    ensures CleanScriptString("\"\"\"" + s + "\"\"\"") == s
    ensures |s| < 6 || s[..3] != "\"\"\"" || s[|s| - 3..] != "\"\"\"" ==> CleanScriptString(s) == CleanString(s)
  {
    var quoted := "\"\"\"" + s + "\"\"\"";
    assert quoted[..3] == "\"\"\"" && quoted[|quoted| - 3..] == "\"\"\"" && quoted[3..|quoted| - 3] == s;
  }

  datatype FieldKind = ImageField | CommandField | ScriptField

  /** Which of the specification's entries a field sets: the first of its alternatives that is there. */
  predicate Sets(field: TaskField, kind: FieldKind) {
    match kind
    case ImageField => field.image.Some?
    case CommandField => field.image.None? && field.command.Some?
    case ScriptField => field.image.None? && field.command.None? && field.args.None? && field.script.Some?
  }

  /** Field i is the last that sets this entry. */
  ghost predicate LastThatSets(fields: seq<TaskField>, kind: FieldKind, i: nat) {
    i < |fields| && Sets(fields[i], kind) && forall k :: i < k < |fields| ==> !Sets(fields[k], kind)
  }

  ghost predicate NoneSets(fields: seq<TaskField>, kind: FieldKind) {
    forall i :: 0 <= i < |fields| ==> !Sets(fields[i], kind)
  }

  /** Each entry is what the last field says that sets it, without its quotes, or empty. */
  ghost predicate FieldsSet(fields: seq<TaskField>, spec: TaskSpec) {
    && (NoneSets(fields, ImageField) ==> spec.image == "")
    && (NoneSets(fields, CommandField) ==> spec.command == [])
    && (NoneSets(fields, ScriptField) ==> spec.script == "")
    && (forall i: nat :: LastThatSets(fields, ImageField, i) ==> spec.image == CleanString(fields[i].image.value))
    && (forall i: nat :: LastThatSets(fields, CommandField, i) ==>
          && |spec.command| == |fields[i].command.value|
          && forall k :: 0 <= k < |spec.command| ==> spec.command[k] == CleanString(fields[i].command.value[k]))
    && forall i: nat :: LastThatSets(fields, ScriptField, i) ==>
         spec.script == CleanScriptString(fields[i].script.value)
  }

  lemma LastOrBefore(fields: seq<TaskField>, field: TaskField, kind: FieldKind)
    ensures Sets(field, kind) ==>
              forall i: nat :: LastThatSets(fields + [field], kind, i) ==> i == |fields|
    ensures Sets(field, kind) ==> !NoneSets(fields + [field], kind)
    ensures !Sets(field, kind) ==>
              && (NoneSets(fields + [field], kind) <==> NoneSets(fields, kind))
              && forall i: nat :: LastThatSets(fields + [field], kind, i) <==> LastThatSets(fields, kind, i)
  {
    var longer := fields + [field];
    assert forall i :: 0 <= i < |fields| ==> longer[i] == fields[i];
    assert longer[|fields|] == field;
    if !Sets(field, kind) {
      forall i: nat ensures LastThatSets(longer, kind, i) <==> LastThatSets(fields, kind, i) {
        if LastThatSets(fields, kind, i) {
          assert forall k :: i < k < |longer| ==> !Sets(longer[k], kind);
        }
      }
    }
  }

  function WithField(spec: TaskSpec, field: TaskField): TaskSpec {
    if field.image.Some? then spec.(image := CleanString(field.image.value))
    else if field.command.Some? then
      var values := field.command.value;
      spec.(command := seq(|values|, k requires 0 <= k < |values| => CleanString(values[k])))
    else if field.args.Some? then spec
    else if field.script.Some? then spec.(script := CleanScriptString(field.script.value))
    else spec
  }

  lemma OneMoreField(fields: seq<TaskField>, field: TaskField, spec: TaskSpec)
    requires FieldsSet(fields, spec)
    ensures FieldsSet(fields + [field], WithField(spec, field))
  {
    LastOrBefore(fields, field, ImageField);
    LastOrBefore(fields, field, CommandField);
    LastOrBefore(fields, field, ScriptField);
    assert (fields + [field])[|fields|] == field;
    assert forall i :: 0 <= i < |fields| ==> (fields + [field])[i] == fields[i];
  }

  /** One turn of the loop over the fields. */
  method ProcessField(spec: TaskSpec, field: TaskField) returns (next: TaskSpec)
    ensures next == WithField(spec, field)
    ensures next.name == spec.name && next.taskRef == spec.taskRef && next.runAfter == spec.runAfter
  {
    next := spec;
    if field.image.Some? {
      next := next.(image := CleanString(field.image.value));
    } else if field.command.Some? {
      var values := field.command.value;
      next := next.(command := seq(|values|, k requires 0 <= k < |values| => CleanString(values[k])));
    } else if field.args.Some? {
      // the arguments play no part in the checks
    } else if field.script.Some? {
      next := next.(script := CleanScriptString(field.script.value));
    }
  }

  function WithFields(spec: TaskSpec, fields: seq<TaskField>): TaskSpec {
    if fields == [] then spec else WithField(WithFields(spec, fields[..|fields| - 1]), fields[|fields| - 1])
  }

  lemma NothingSet(spec: TaskSpec)
    requires spec.image == "" && spec.command == [] && spec.script == ""
    ensures FieldsSet([], spec)
  {
  }

  lemma {:induction false} WithFieldsSet(spec: TaskSpec, fields: seq<TaskField>)
    requires FieldsSet([], spec)
    ensures FieldsSet(fields, WithFields(spec, fields))
  {
    if fields == [] {
    } else {
      var init, last := fields[..|fields| - 1], fields[|fields| - 1];
      WithFieldsSet(spec, init);
      OneMoreField(init, last, WithFields(spec, init));
      SameList(fields, init + [last], WithFields(spec, fields));
    }
  }

  lemma SameList(fields: seq<TaskField>, others: seq<TaskField>, spec: TaskSpec)
    requires fields == others && FieldsSet(others, spec)
    ensures FieldsSet(fields, spec)
  {
  }

  lemma {:induction false} WithFieldsKeeps(spec: TaskSpec, fields: seq<TaskField>)
    ensures var after := WithFields(spec, fields);
            after.name == spec.name && after.taskRef == spec.taskRef && after.runAfter == spec.runAfter
  {
    if fields != [] {
      WithFieldsKeeps(spec, fields[..|fields| - 1]);
    }
  }

  /** The loop over the fields. */
  method ProcessFields(name: string, fields: seq<TaskField>) returns (spec: TaskSpec)
    ensures spec == WithFields(TaskSpec(name, None, "", [], "", []), fields)
  {
    spec := TaskSpec(name, None, "", [], "", []);
    for i := 0 to |fields|
      invariant spec == WithFields(TaskSpec(name, None, "", [], "", []), fields[..i])
    {
      assert fields[..i + 1][..i] == fields[..i];
      spec := ProcessField(spec, fields[i]);
    }
    assert fields[..|fields|] == fields;
  }

  method CreateTaskSpec(task: TaskDef, dependencies: map<string, seq<string>>) returns (spec: TaskSpec)
    ensures spec.name == task.name && spec.taskRef.None?
    ensures spec.runAfter == Lookup(dependencies, task.name)
    ensures FieldsSet(task.fields, spec)
  {
    spec := ProcessFields(task.name, task.fields);
    var empty := TaskSpec(task.name, None, "", [], "", []);
    NothingSet(empty);
    WithFieldsSet(empty, task.fields);
    WithFieldsKeeps(empty, task.fields);
    if task.name in dependencies {
      var before := spec;
      spec := before.(runAfter := dependencies[task.name]);
      SameFields(task.fields, before, spec);
    }
  }

  lemma SameFields(fields: seq<TaskField>, before: TaskSpec, spec: TaskSpec)
    requires FieldsSet(fields, before)
    requires spec.image == before.image && spec.command == before.command && spec.script == before.script
    ensures FieldsSet(fields, spec)
  {
  }

  // ----- convertToDAGSpec -----

  /** The compiled tasks are the defined ones in order, each after exactly its written sources. */
  ghost predicate CompiledFrom(items: seq<DAGItem>, tasks: seq<TaskSpec>) {
    && |tasks| == |TaskDefs(items)|
    && forall i :: 0 <= i < |tasks| ==>
         && tasks[i].name == TaskDefs(items)[i].name
         && tasks[i].taskRef.None?
         && tasks[i].runAfter == Sources(WrittenEdges(items), tasks[i].name)
  }

  /** The tasks stem from the task items, in order, with what their fields say; at says from which. */
  ghost predicate TasksStemFrom(items: seq<DAGItem>, tasks: seq<TaskSpec>, at: seq<nat>) {
    && |at| == |tasks|
    && (forall k, l :: 0 <= k < l < |at| ==> at[k] < at[l])
    && (forall i: nat :: i < |items| && IsTaskItem(items[i]) ==> i in at)
    && forall k :: 0 <= k < |at| ==>
         && at[k] < |items| && IsTaskItem(items[at[k]])
         && tasks[k].name == items[at[k]].task.value.name && tasks[k].taskRef.None?
         && FieldsSet(items[at[k]].task.value.fields, tasks[k])
  }

  /** The compiled tasks, in terms of the program's items alone: each runs after the sources that the last
      graph block's edges into it name, a list of targets being one edge into each, in the order and as often
      as they are written. */
  ghost predicate CompiledAs(items: seq<DAGItem>, tasks: seq<TaskSpec>) {
    && (exists at :: TasksStemFrom(items, tasks, at))
    && (forall i: nat, k :: IsLastGraph(items, i) && 0 <= k < |tasks| ==>
          AsWritten(items[i].graph.value, tasks[k].name, tasks[k].runAfter))
    && ((forall i :: 0 <= i < |items| ==> !IsGraphItem(items[i])) ==>
          forall k :: 0 <= k < |tasks| ==> tasks[k].runAfter == [])
  }

  /** What is written runs after what it is written after, as one of a list of targets or alone. */
  lemma TargetWaits(edges: seq<EdgeDef>, name: string, runAfter: seq<string>, e: nat)
    requires AsWritten(edges, name, runAfter) && e < |edges|
    requires if edges[e].to.single.Some? then edges[e].to.single.value == name
             else edges[e].to.multiple.Some? && name in edges[e].to.multiple.value
    ensures edges[e].from in runAfter
  {
    var places: seq<(nat, nat)> :| ListedAt(edges, name, runAfter, places);
    var l: nat := 0;
    if edges[e].to.single.None? {
      l :| l < |edges[e].to.multiple.value| && edges[e].to.multiple.value[l] == name;
    }
    assert WrittenAt(edges[e], l, name);
    assert (e, l) in places;
    var j :| 0 <= j < |places| && places[j] == (e, l);
    assert runAfter[j] == edges[e].from;
  }

  /** And it runs after nothing else. */
  lemma WaitsAreWritten(edges: seq<EdgeDef>, name: string, runAfter: seq<string>, from: string) returns (e: nat)
    requires AsWritten(edges, name, runAfter) && from in runAfter
    ensures e < |edges| && edges[e].from == from
    ensures if edges[e].to.single.Some? then edges[e].to.single.value == name
            else edges[e].to.multiple.Some? && name in edges[e].to.multiple.value
  {
    var places: seq<(nat, nat)> :| ListedAt(edges, name, runAfter, places);
    var j :| 0 <= j < |runAfter| && runAfter[j] == from;
    e := places[j].0;
    assert WrittenAt(edges[e], places[j].1, name);
  }

  lemma CompiledRunAfter(items: seq<DAGItem>, tasks: seq<TaskSpec>)
    requires CompiledFrom(items, tasks)
    ensures forall i: nat, k :: IsLastGraph(items, i) && 0 <= k < |tasks| ==>
              AsWritten(items[i].graph.value, tasks[k].name, tasks[k].runAfter)
    ensures (forall i :: 0 <= i < |items| ==> !IsGraphItem(items[i])) ==>
              forall k :: 0 <= k < |tasks| ==> tasks[k].runAfter == []
  {
    LastGraphIs(items);
    forall i: nat, k | IsLastGraph(items, i) && 0 <= k < |tasks|
      ensures AsWritten(items[i].graph.value, tasks[k].name, tasks[k].runAfter)
    {
      SourcesAsWritten(items[i].graph.value, tasks[k].name);
    }
  }

  lemma CompiledTasks(items: seq<DAGItem>, tasks: seq<TaskSpec>)
    requires CompiledFrom(items, tasks)
    requires forall k :: 0 <= k < |tasks| ==> FieldsSet(TaskDefs(items)[k].fields, tasks[k])
    ensures exists at :: TasksStemFrom(items, tasks, at)
  {
    var at := TaskDefsAt(items);
    assert TasksStemFrom(items, tasks, at);
  }

  ghost predicate CompiledTask(def: TaskDef, dependencies: map<string, seq<string>>, spec: TaskSpec) {
    && spec.name == def.name && spec.taskRef.None? && spec.runAfter == Lookup(dependencies, def.name)
    && FieldsSet(def.fields, spec)
  }

  lemma OneMoreTask(defs: seq<TaskDef>, dependencies: map<string, seq<string>>, tasks: seq<TaskSpec>, spec: TaskSpec)
    requires |tasks| < |defs| && CompiledTask(defs[|tasks|], dependencies, spec)
    requires forall k :: 0 <= k < |tasks| ==> CompiledTask(defs[k], dependencies, tasks[k])
    ensures forall k :: 0 <= k < |tasks| + 1 ==> CompiledTask(defs[k], dependencies, (tasks + [spec])[k])
  {
    forall k | 0 <= k < |tasks| + 1 ensures CompiledTask(defs[k], dependencies, (tasks + [spec])[k]) {
      if k < |tasks| {
        assert (tasks + [spec])[k] == tasks[k];
      } else {
        assert (tasks + [spec])[k] == spec;
      }
    }
  }

  /** The loop over the task definitions. */
  method ConvertTasks(taskDefs: seq<TaskDef>, dependencies: map<string, seq<string>>) returns (tasks: seq<TaskSpec>)
    ensures |tasks| == |taskDefs|
    ensures forall k :: 0 <= k < |tasks| ==> CompiledTask(taskDefs[k], dependencies, tasks[k])
  {
    tasks := [];
    for i := 0 to |taskDefs|
      invariant |tasks| == i && forall k :: 0 <= k < i ==> CompiledTask(taskDefs[k], dependencies, tasks[k])
    {
      var spec := CreateTaskSpec(taskDefs[i], dependencies);
      OneMoreTask(taskDefs, dependencies, tasks, spec);
      tasks := tasks + [spec];
    }
  }

  method ConvertToDAGSpec(items: seq<DAGItem>) returns (tasks: seq<TaskSpec>)
    ensures CompiledFrom(items, tasks) && CompiledAs(items, tasks)
  {
    var graphBlock: Option<seq<EdgeDef>> := None;
    var taskDefs: seq<TaskDef> := [];
    for i := 0 to |items|
      invariant graphBlock == LastGraph(items[..i]) && taskDefs == TaskDefs(items[..i])
    {
      var item := items[i];
      assert items[..i + 1][..i] == items[..i];
      if item.schedule.Some? {
      } else if item.parameters.Some? {
      } else if item.graph.Some? {
        graphBlock := item.graph;
      } else if item.task.Some? {
        taskDefs := taskDefs + [item.task.value];
      }
    }
    assert items[..|items|] == items;
    var dependencies := BuildDependencyMap(graphBlock);
    tasks := ConvertTasks(taskDefs, dependencies);
    CompiledRunAfter(items, tasks);
    CompiledTasks(items, tasks);
  }

  // ----- ValidateDAGSpec -----

  ghost predicate HasDependencies(tasks: seq<TaskSpec>) {
    exists i :: 0 <= i < |tasks| && tasks[i].runAfter != []
  }

  method HasGraph(tasks: seq<TaskSpec>) returns (r: bool)
    ensures r <==> HasDependencies(tasks)
  {
    for i := 0 to |tasks|
      invariant forall k :: 0 <= k < i ==> tasks[k].runAfter == []
    {
      if |tasks[i].runAfter| > 0 {
        return true;
      }
    }
    return false;
  }

  method ValidateGraphTaskReferences(tasks: seq<TaskSpec>) returns (missing: seq<string>)
    ensures missing == [] <==> DependenciesExist(tasks)
    ensures forall m :: m in missing ==> m !in Names(tasks)
  {
    var definedTasks: set<string> := {};
    for i := 0 to |tasks|
      invariant definedTasks == set k | 0 <= k < i :: tasks[k].name
    {
      definedTasks := definedTasks + {tasks[i].name};
    }
    assert definedTasks == Names(tasks);
    missing := [];
    for i := 0 to |tasks|
      invariant forall m :: m in missing ==> m !in definedTasks
      invariant missing == [] ==>
                  forall k, l :: 0 <= k < i && 0 <= l < |tasks[k].runAfter| ==> tasks[k].runAfter[l] in definedTasks
      invariant missing != [] ==> !DependenciesExist(tasks)
    {
      for j := 0 to |tasks[i].runAfter|
        invariant forall m :: m in missing ==> m !in definedTasks
        invariant missing == [] ==>
                    forall k, l :: 0 <= k < i && 0 <= l < |tasks[k].runAfter| ==> tasks[k].runAfter[l] in definedTasks
        invariant missing == [] ==> forall l :: 0 <= l < j ==> tasks[i].runAfter[l] in definedTasks
        invariant missing != [] ==> !DependenciesExist(tasks)
      {
        var dependency := tasks[i].runAfter[j];
        if dependency !in definedTasks {
          assert (tasks[i].name, dependency) in RunAfterEdges(tasks);
          missing := missing + [dependency];
        }
      }
    }
  }

  datatype ValidationError = ValidationError(field: string, message: string)

  datatype ValidationResult = ValidationResult(valid: bool, errors: seq<ValidationError>) {
    function AddError(field: string, message: string): ValidationResult {
      ValidationResult(false, errors + [ValidationError(field, message)])
    }
  }

  /** parameters and references are the verdicts of validateParameters and
      validateTaskParameterReferences, which do not look at the graph. */
  method ValidateDAGSpec(tasks: seq<TaskSpec>, parameters: Outcome, references: Outcome)
    returns (result: ValidationResult)
    ensures result.valid <==>
              HasDependencies(tasks) && DependenciesExist(tasks) && parameters.Ok? && references.Ok?
    ensures result.valid <==> result.errors == []
  {
    result := ValidationResult(true, []);
    var graph := HasGraph(tasks);
    if !graph {
      result := result.AddError("graph", "no graph definition provided");
    } else {
      var missing := ValidateGraphTaskReferences(tasks);
      if |missing| > 0 {
        result := result.AddError("graph", "tasks referenced in graph but not defined");
      }
    }
    if parameters.Err? {
      result := result.AddError("parameters", parameters.message);
    }
    if references.Err? {
      result := result.AddError("parameters", references.message);
    }
  }

  // ----- What acceptance says about the written graph -----

  lemma {:induction false} SourcesMembers(edges: seq<(string, string)>, target: string, from: string)
    ensures from in Sources(edges, target) <==> (from, target) in edges
  {
    if edges != [] {
      SourcesMembers(edges[..|edges| - 1], target, from);
      assert edges == edges[..|edges| - 1] + [edges[|edges| - 1]];
    }
  }

  ghost predicate Writes(items: seq<DAGItem>, from: string, target: string) {
    exists i: nat, e: nat, l: nat ::
      && IsLastGraph(items, i) && e < |items[i].graph.value|
      && WrittenAt(items[i].graph.value[e], l, target) && items[i].graph.value[e].from == from
  }

  /** The written edges are those of the last graph block, a list of targets being one edge into each. */
  lemma WrittenEdgesAre(items: seq<DAGItem>, from: string, target: string)
    ensures (from, target) in WrittenEdges(items) <==> Writes(items, from, target)
  {
    LastGraphIs(items);
    SourcesMembers(WrittenEdges(items), target, from);
    if LastGraph(items).Some? {
      var i := LastGraphIndex(items);
      var edges := items[i].graph.value;
      SourcesAsWritten(edges, target);
      if (from, target) in WrittenEdges(items) {
        var places: seq<(nat, nat)> :| ListedAt(edges, target, Sources(EdgeList(edges), target), places);
        var j :| 0 <= j < |places| && edges[places[j].0].from == from;
        assert WrittenAt(edges[places[j].0], places[j].1, target);
      }
      if Writes(items, from, target) {
        var k: nat, e: nat, l: nat :|
          && IsLastGraph(items, k) && e < |items[k].graph.value|
          && WrittenAt(items[k].graph.value[e], l, target) && items[k].graph.value[e].from == from;
        assert k == i;
        TargetWaits(edges, target, Sources(EdgeList(edges), target), e);
      }
    }
  }

  lemma {:induction false} LastGraphIndex(items: seq<DAGItem>) returns (i: nat)
    requires LastGraph(items).Some?
    ensures IsLastGraph(items, i) && LastGraph(items) == items[i].graph
  {
    var last := |items| - 1;
    if IsGraphItem(items[last]) {
      i := last;
    } else {
      i := LastGraphIndex(items[..last]);
      assert items[..last][i] == items[i];
      forall k | i < k < |items| ensures !IsGraphItem(items[k]) {
        if k < last {
          assert items[..last][k] == items[k];
        }
      }
    }
  }

  /** The written edges whose target is defined, turned round: (task, what it runs after). */
  ghost function KeptEdges(items: seq<DAGItem>): set<(string, string)> {
    set x | x in WrittenEdges(items) && x.1 in DefinedNames(items) :: (x.1, x.0)
  }

  ghost function DefinedNames(items: seq<DAGItem>): set<string> {
    set i | 0 <= i < |TaskDefs(items)| :: TaskDefs(items)[i].name
  }

  /** Compilation keeps exactly the edges into defined tasks. */
  lemma CompiledGraph(items: seq<DAGItem>, tasks: seq<TaskSpec>)
    requires CompiledFrom(items, tasks)
    ensures Names(tasks) == DefinedNames(items)
    ensures RunAfterEdges(tasks) == KeptEdges(items)
  {
    var written := WrittenEdges(items);
    forall x | x in RunAfterEdges(tasks) ensures x in KeptEdges(items) {
      SourcesMembers(written, x.0, x.1);
      var i, j :| 0 <= i < |tasks| && 0 <= j < |tasks[i].runAfter| && x == (tasks[i].name, tasks[i].runAfter[j]);
      assert TaskDefs(items)[i].name == x.0;
      assert (x.1, x.0) in written;
    }
    forall x | x in KeptEdges(items) ensures x in RunAfterEdges(tasks) {
      SourcesMembers(written, x.0, x.1);
      var i :| 0 <= i < |tasks| && TaskDefs(items)[i].name == x.0;
      assert x.1 in tasks[i].runAfter;
      var j :| 0 <= j < |tasks[i].runAfter| && tasks[i].runAfter[j] == x.1;
      assert x == (tasks[i].name, tasks[i].runAfter[j]);
    }
    forall n ensures n in Names(tasks) <==> n in DefinedNames(items) {
      if n in Names(tasks) {
        var i :| 0 <= i < |tasks| && tasks[i].name == n;
        assert TaskDefs(items)[i].name == n;
      }
      if n in DefinedNames(items) {
        var i :| 0 <= i < |tasks| && TaskDefs(items)[i].name == n;
        assert tasks[i].name == n;
      }
    }
  }

  /** Compile, validate as DSL, validate as DAG: both accept exactly when, beside the field and
      parameter checks, the kept edges are at least one, closed over the defined tasks, acyclic
      and connected. */
  method CompileAndValidate(items: seq<DAGItem>, parameters: Outcome, references: Outcome, startNode: string)
    returns (tasks: seq<TaskSpec>, accepted: bool)
    requires if TaskDefs(items) == [] then startNode == "" else startNode in DefinedNames(items)
    ensures CompiledFrom(items, tasks) && CompiledAs(items, tasks)
    ensures accepted <==>
              && FieldsFilled(tasks) && parameters.Ok? && references.Ok?
              && KeptEdges(items) != {}
              && (forall x :: x in KeptEdges(items) ==> x.0 in DefinedNames(items) && x.1 in DefinedNames(items))
              && Acyclic(KeptEdges(items))
              && forall a, b :: a in DefinedNames(items) && b in DefinedNames(items) && a != b ==>
                   Reaches(Undirected(KeptEdges(items)), a, b)
  {
    tasks := ConvertToDAGSpec(items);
    CompiledGraph(items, tasks);
    NonEmptyGraph(tasks);
    var dsl := ValidateDAGSpec(tasks, parameters, references);
    var dag := ValidateDAG(tasks, parameters, startNode);
    accepted := dsl.valid && dag.Ok?;
  }

  lemma NonEmptyGraph(tasks: seq<TaskSpec>)
    ensures HasDependencies(tasks) <==> RunAfterEdges(tasks) != {}
    ensures RunAfterEdges(tasks) != {} ==> tasks != []
  {
    if HasDependencies(tasks) {
      var i :| 0 <= i < |tasks| && tasks[i].runAfter != [];
      assert (tasks[i].name, tasks[i].runAfter[0]) in RunAfterEdges(tasks);
    }
    if RunAfterEdges(tasks) != {} {
      var x :| x in RunAfterEdges(tasks);
      var i, j :| 0 <= i < |tasks| && 0 <= j < |tasks[i].runAfter| && x == (tasks[i].name, tasks[i].runAfter[j]);
    }
  }

  /** An edge into an undefined task leaves no trace: appending one, to any program, changes
      no compiled task, so neither validator can object to it. */
  lemma UndefinedTargetDropped(items: seq<DAGItem>, edges: seq<EdgeDef>, from: string, target: string, n: string)
    requires LastGraph(items) == Some(edges)
    requires target !in DefinedNames(items) && n in DefinedNames(items)
    ensures Sources(EdgeList(edges + [EdgeDef(from, TargetSet(Some(target), None))]), n) ==
            Sources(WrittenEdges(items), n)
  {
    var extended := edges + [EdgeDef(from, TargetSet(Some(target), None))];
    assert extended[..|extended| - 1] == edges;
    var written := EdgeList(extended);
    assert Pairs(from, [target]) == [(from, target)];
    assert written == EdgeList(edges) + [(from, target)];
    assert written[..|written| - 1] == EdgeList(edges);
  }
}
