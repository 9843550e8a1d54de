/** InsertDAG: from validated task specifications to rows of DAGs, DAG_Tasks and Dependencies
    (controller/internal/db/sqliteManager.go, insertDAG and createDependencyConnection). */
module Catalogs {
  import opened Prelude
  import opened Graphs
  import opened DagTypes
  import opened Tables

  function VersionOf(spec: TaskSpec): int {
    if spec.taskRef.Some? then spec.taskRef.value.version else 1
  }

  /** The first row with this version, name and task version. */
  method FindTask(tasks: seq<DagTask>, row: DagTask) returns (r: Option<nat>)
    ensures r.Some? ==> r.value < |tasks| && tasks[r.value] == row && row !in tasks[..r.value]
    ensures r.None? ==> row !in tasks
  {
    for i := 0 to |tasks|
      invariant row !in tasks[..i]
    {
      if tasks[i] == row {
        return Some(i);
      }
    }
    return None;
  }

  /** A row of that name in the DAG version with the highest task version. */
  method FindLatest(tasks: seq<DagTask>, dagId: nat, name: string) returns (r: Option<nat>)
    ensures r.Some? ==>
              && r.value < |tasks| && tasks[r.value].dagId == dagId && tasks[r.value].name == name
              && forall i :: 0 <= i < |tasks| && tasks[i].dagId == dagId && tasks[i].name == name ==>
                   tasks[i].version <= tasks[r.value].version
    ensures r.None? ==> forall i :: 0 <= i < |tasks| ==> tasks[i].dagId != dagId || tasks[i].name != name
  {
    r := None;
    for i := 0 to |tasks|
      invariant r.Some? ==>
                  && r.value < i && tasks[r.value].dagId == dagId && tasks[r.value].name == name
                  && forall k :: 0 <= k < i && tasks[k].dagId == dagId && tasks[k].name == name ==>
                       tasks[k].version <= tasks[r.value].version
      invariant r.None? ==> forall k :: 0 <= k < i ==> tasks[k].dagId != dagId || tasks[k].name != name
    {
      if tasks[i].dagId == dagId && tasks[i].name == name && (r.None? || tasks[r.value].version < tasks[i].version) {
        r := Some(i);
      }
    }
  }

  // ----- Which rows an insert leaves -----

  predicate Alike(a: TaskSpec, b: TaskSpec) {
    a.name == b.name && VersionOf(a) == VersionOf(b)
  }

  /** k is the first specification that cannot be told from the i-th by name and version. */
  ghost predicate IsFirst(specs: seq<TaskSpec>, i: nat, k: nat) {
    k <= i < |specs| && Alike(specs[k], specs[i]) && forall j :: 0 <= j < k ==> !Alike(specs[j], specs[i])
  }

  ghost predicate IsLatest(specs: seq<TaskSpec>, name: string, k: nat) {
    && k < |specs| && specs[k].name == name
    && forall j :: 0 <= j < |specs| && specs[j].name == name ==> VersionOf(specs[j]) <= VersionOf(specs[k])
  }

  /** The row for the l-th dependency of the i-th specification; the new tasks start at base. */
  ghost predicate IsRow(base: nat, specs: seq<TaskSpec>, row: Dependency, i: nat, l: nat) {
    && i < |specs| && l < |specs[i].runAfter|
    && base <= row.taskId && IsFirst(specs, i, row.taskId - base)
    && base <= row.dependsOn && IsLatest(specs, specs[i].runAfter[l], row.dependsOn - base)
  }

  ghost predicate AreRowsOf(base: nat, specs: seq<TaskSpec>, rows: seq<Dependency>, i: nat) {
    i < |specs| && |rows| == |specs[i].runAfter| && forall l :: 0 <= l < |rows| ==> IsRow(base, specs, rows[l], i, l)
  }

  /** The rows of the first n specifications in order, one per runAfter entry. */
  ghost predicate AreRows(base: nat, specs: seq<TaskSpec>, rows: seq<Dependency>, n: nat)
    requires n <= |specs|
    decreases n
  {
    if n == 0 then rows == []
    else
      var m := |specs[n - 1].runAfter|;
      && |rows| >= m
      && AreRows(base, specs, rows[..|rows| - m], n - 1)
      && AreRowsOf(base, specs, rows[|rows| - m..], n - 1)
  }

  /** c' is c plus one DAG version whose tasks are the specifications in order, and the dependency rows
      of their runAfter entries, in order and with multiplicity. */
  ghost predicate Inserted(c: Catalog, c': Catalog, name: string, specs: seq<TaskSpec>) {
    && c'.dags == c.dags + [DagVersion(name, |specs|)]
    && c'.tasks == c.tasks + TaskRows(|c.dags|, specs)
    && |c.deps| <= |c'.deps| && c'.deps[..|c.deps|] == c.deps
    && AreRows(|c.tasks|, specs, c'.deps[|c.deps|..], |specs|)
  }

  function TaskRows(dagId: nat, specs: seq<TaskSpec>): seq<DagTask> {
    seq(|specs|, i requires 0 <= i < |specs| => DagTask(dagId, specs[i].name, VersionOf(specs[i])))
  }

  predicate ComesBefore(a: (nat, nat), b: (nat, nat)) {
    a.0 < b.0 || (a.0 == b.0 && a.1 < b.1)
  }

  /** The rows are one for each entry of each specification's runAfter, in order; places says for which. */
  ghost predicate RowsAt(base: nat, specs: seq<TaskSpec>, rows: seq<Dependency>, n: nat, places: seq<(nat, nat)>) {
    && |places| == |rows|
    && (forall j :: 0 <= j < |places| ==> places[j].0 < n && IsRow(base, specs, rows[j], places[j].0, places[j].1))
    && (forall j, k :: 0 <= j < k < |places| ==> ComesBefore(places[j], places[k]))
    && forall i: nat, l: nat :: i < n && i < |specs| && l < |specs[i].runAfter| ==> (i, l) in places
  }

  lemma {:induction false} AreRowsAt(base: nat, specs: seq<TaskSpec>, rows: seq<Dependency>, n: nat)
    returns (places: seq<(nat, nat)>)
    requires n <= |specs| && AreRows(base, specs, rows, n)
    ensures RowsAt(base, specs, rows, n, places)
    decreases n
  {
    if n == 0 {
      places := [];
    } else {
      var last: nat := n - 1;
      var m := |specs[last].runAfter|;
      var before := AreRowsAt(base, specs, rows[..|rows| - m], last);
      places := RowsAtAppend(base, specs, rows[..|rows| - m], rows[|rows| - m..], last, before);
      assert rows == rows[..|rows| - m] + rows[|rows| - m..];
    }
  }

  lemma RowsAtAppend(base: nat, specs: seq<TaskSpec>, first: seq<Dependency>, second: seq<Dependency>, i: nat,
                     before: seq<(nat, nat)>) returns (places: seq<(nat, nat)>)
    requires i < |specs| && RowsAt(base, specs, first, i, before) && AreRowsOf(base, specs, second, i)
    ensures RowsAt(base, specs, first + second, i + 1, places)
  {
    var added := PairsFrom(i, |second|);
    places := before + added;
    forall j | 0 <= j < |places|
      ensures places[j].0 < i + 1 && IsRow(base, specs, (first + second)[j], places[j].0, places[j].1)
    {
      RowAt(base, specs, first, second, i, before, added, j);
    }
    forall k: nat, l: nat | k < i + 1 && k < |specs| && l < |specs[k].runAfter| ensures (k, l) in before + added {
      if k == i {
        assert (k, l) in added;
      } else {
        assert (k, l) in before;
      }
    }
  }

  lemma RowAt(base: nat, specs: seq<TaskSpec>, first: seq<Dependency>, second: seq<Dependency>, i: nat,
              before: seq<(nat, nat)>, added: seq<(nat, nat)>, j: nat)
    requires i < |specs| && RowsAt(base, specs, first, i, before) && AreRowsOf(base, specs, second, i)
    requires |added| == |second| && forall l :: 0 <= l < |added| ==> added[l] == (i, l)
    requires j < |before + added|
    ensures (before + added)[j].0 < i + 1
    ensures IsRow(base, specs, (first + second)[j], (before + added)[j].0, (before + added)[j].1)
  {
    if j < |before| {
      assert IsRow(base, specs, first[j], before[j].0, before[j].1);
    } else {
      assert IsRow(base, specs, second[j - |before|], i, j - |before|);
    }
  }

  lemma PairsFrom(i: nat, n: nat) returns (pairs: seq<(nat, nat)>)
    ensures |pairs| == n && forall l :: 0 <= l < n ==> pairs[l] == (i, l)
    ensures forall l: nat :: l < n ==> (i, l) in pairs
  {
    pairs := seq(n, l requires 0 <= l < n => (i, l));
    forall l: nat | l < n ensures (i, l) in pairs {
      assert pairs[l] == (i, l);
    }
  }

  /** No row belongs to a version that does not exist yet. */
  ghost predicate OlderVersions(c: Catalog) {
    forall t :: 0 <= t < |c.tasks| ==> c.tasks[t].dagId < |c.dags|
  }

  lemma NewRow(c: Catalog, tasks: seq<DagTask>, specs: seq<TaskSpec>, t: nat)
    requires OlderVersions(c) && tasks == c.tasks + TaskRows(|c.dags|, specs)
    requires t < |tasks| && tasks[t].dagId == |c.dags|
    ensures |c.tasks| <= t
    ensures tasks[t] == DagTask(|c.dags|, specs[t - |c.tasks|].name, VersionOf(specs[t - |c.tasks|]))
  {
    assert tasks[t] == TaskRows(|c.dags|, specs)[t - |c.tasks|];
  }

  lemma FoundIsFirst(c: Catalog, tasks: seq<DagTask>, specs: seq<TaskSpec>, i: nat, t: nat)
    requires OlderVersions(c) && tasks == c.tasks + TaskRows(|c.dags|, specs) && i < |specs| && t < |tasks|
    requires tasks[t] == TaskRows(|c.dags|, specs)[i] && tasks[t] !in tasks[..t]
    ensures |c.tasks| <= t && IsFirst(specs, i, t - |c.tasks|)
  {
    NewRow(c, tasks, specs, t);
    NotBefore(tasks, t);
    var k := t - |c.tasks|;
    forall j | 0 <= j < |specs| && Alike(specs[j], specs[i]) ensures k <= j {
      assert tasks[|c.tasks| + j] == TaskRows(|c.dags|, specs)[j] == tasks[t];
    }
  }

  lemma NotBefore(tasks: seq<DagTask>, t: nat)
    requires t < |tasks| && tasks[t] !in tasks[..t]
    ensures forall i :: 0 <= i < |tasks| && tasks[i] == tasks[t] ==> t <= i
  {
    forall i | 0 <= i < t ensures tasks[i] != tasks[t] {
      assert tasks[..t][i] in tasks[..t];
    }
  }

  lemma FoundIsLatest(c: Catalog, tasks: seq<DagTask>, specs: seq<TaskSpec>, name: string, t: nat)
    requires OlderVersions(c) && tasks == c.tasks + TaskRows(|c.dags|, specs) && t < |tasks|
    requires tasks[t].dagId == |c.dags| && tasks[t].name == name
    requires forall i :: 0 <= i < |tasks| && tasks[i].dagId == |c.dags| && tasks[i].name == name ==>
             tasks[i].version <= tasks[t].version
    ensures |c.tasks| <= t && IsLatest(specs, name, t - |c.tasks|)
  {
    NewRow(c, tasks, specs, t);
    forall j | 0 <= j < |specs| && specs[j].name == name ensures VersionOf(specs[j]) <= tasks[t].version {
      assert tasks[|c.tasks| + j] == TaskRows(|c.dags|, specs)[j];
    }
  }

  lemma MissingDependency(specs: seq<TaskSpec>, dep: string, tasks: seq<DagTask>, earlier: seq<DagTask>, dagId: nat)
    requires tasks == earlier + TaskRows(dagId, specs)
    requires forall k :: 0 <= k < |tasks| ==> tasks[k].dagId != dagId || tasks[k].name != dep
    ensures dep !in Names(specs)
  {
    forall k | 0 <= k < |specs| ensures specs[k].name != dep {
      assert tasks[|earlier| + k] == TaskRows(dagId, specs)[k];
    }
  }

  /** createDependencyConnection for the i-th specification. */
  method CreateDependencyConnection(ghost c: Catalog, tasks: seq<DagTask>, deps: seq<Dependency>, dagId: nat,
                                    ghost specs: seq<TaskSpec>, ghost i: nat, spec: TaskSpec)
    returns (r: Option<seq<Dependency>>)
    requires OlderVersions(c) && dagId == |c.dags| && tasks == c.tasks + TaskRows(dagId, specs)
    requires i < |specs| && spec == specs[i]
    ensures r.Some? <==> forall l :: 0 <= l < |spec.runAfter| ==> spec.runAfter[l] in Names(specs)
    ensures r.Some? ==>
              && |deps| <= |r.value| && r.value[..|deps|] == deps
              && AreRowsOf(|c.tasks|, specs, r.value[|deps|..], i)
  {
    var rows: seq<Dependency> := [];
    for j := 0 to |spec.runAfter|
      invariant |rows| == j && forall l :: 0 <= l < j ==> IsRow(|c.tasks|, specs, rows[l], i, l)
      invariant forall l :: 0 <= l < j ==> spec.runAfter[l] in Names(specs)
    {
      var taskId := FindTask(tasks, DagTask(dagId, spec.name, VersionOf(spec)));
      var depId := FindLatest(tasks, dagId, spec.runAfter[j]);
      assert TaskRows(dagId, specs)[i] in tasks;
      if depId.None? {
        MissingDependency(specs, spec.runAfter[j], tasks, c.tasks, dagId);
        return None;
      }
      FoundIsFirst(c, tasks, specs, i, taskId.value);
      FoundIsLatest(c, tasks, specs, spec.runAfter[j], depId.value);
      rows := rows + [Dependency(taskId.value, depId.value)];
    }
    assert (deps + rows)[|deps|..] == rows && (deps + rows)[..|deps|] == deps;
    return Some(deps + rows);
  }

  lemma AppendRows(base: nat, specs: seq<TaskSpec>, rows: seq<Dependency>, more: seq<Dependency>, i: nat)
    requires i < |specs| && AreRows(base, specs, rows, i) && AreRowsOf(base, specs, more, i)
    ensures AreRows(base, specs, rows + more, i + 1)
  {
    assert (rows + more)[..|rows|] == rows && (rows + more)[|rows|..] == more;
  }

  lemma AppendKeeps(before: seq<Dependency>, deps: seq<Dependency>, longer: seq<Dependency>)
    requires |before| <= |deps| <= |longer| && deps[..|before|] == before && longer[..|deps|] == deps
    ensures longer[..|before|] == before && longer[|before|..] == deps[|before|..] + longer[|deps|..]
  {
    assert longer[..|before|] == longer[..|deps|][..|before|];
    assert longer == deps + longer[|deps|..];
    assert deps == before + deps[|before|..];
  }

  /** The loop over the specifications, once all task rows are there. */
  method CreateDependencies(ghost c: Catalog, tasks: seq<DagTask>, before: seq<Dependency>, dagId: nat,
        specs: seq<TaskSpec>)
    returns (r: Option<seq<Dependency>>)
    requires OlderVersions(c) && before == c.deps && dagId == |c.dags| && tasks == c.tasks + TaskRows(dagId, specs)
    ensures r.Some? <==> DependenciesExist(specs)
    ensures r.Some? ==>
            && |before| <= |r.value| && r.value[..|before|] == before
            && AreRows(|c.tasks|, specs, r.value[|before|..], |specs|)
  {
    var deps := before;
    for i := 0 to |specs|
      invariant |before| <= |deps| && deps[..|before|] == before
      invariant AreRows(|c.tasks|, specs, deps[|before|..], i)
      invariant forall k, l :: 0 <= k < i && 0 <= l < |specs[k].runAfter| ==> specs[k].runAfter[l] in Names(specs)
    {
      var connected := CreateDependencyConnection(c, tasks, deps, dagId, specs, i, specs[i]);
      if connected.None? {
        ghost var l :| 0 <= l < |specs[i].runAfter| && specs[i].runAfter[l] !in Names(specs);
        assert (specs[i].name, specs[i].runAfter[l]) in RunAfterEdges(specs);
        return None;
      }
      AppendRows(|c.tasks|, specs, deps[|before|..], connected.value[|deps|..], i);
      AppendKeeps(before, deps, connected.value);
      deps := connected.value;
    }
    return Some(deps);
  }

  /** None stands for the error that rolls the transaction back: a dependency that names no task. */
  method InsertDag(c: Catalog, name: string, specs: seq<TaskSpec>) returns (r: Option<Catalog>)
    requires WellFormed(c)
    ensures r.Some? <==> DependenciesExist(specs)
    ensures r.Some? ==> Inserted(c, r.value, name, specs)
    ensures r.Some? ==>
              && r.value.dags == c.dags + [DagVersion(name, |specs|)]
              && |r.value.tasks| == |c.tasks| + |specs| && r.value.tasks[..|c.tasks|] == c.tasks
              && forall i :: 0 <= i < |specs| ==>
                   r.value.tasks[|c.tasks| + i] ==
                   DagTask(|c.dags|, specs[i].name,
                           if specs[i].taskRef.Some? then specs[i].taskRef.value.version else 1)
  {
    var dagId := |c.dags|;
    var tasks := c.tasks;
    for i := 0 to |specs|
      invariant tasks == c.tasks + TaskRows(dagId, specs)[..i]
    {
      tasks := tasks + [DagTask(dagId, specs[i].name, VersionOf(specs[i]))];
    }
    assert tasks == c.tasks + TaskRows(dagId, specs);
    var deps := CreateDependencies(c, tasks, c.deps, dagId, specs);
    if deps.None? {
      return None;
    }
    return Some(Catalog(c.dags + [DagVersion(name, |specs|)], tasks, deps.value));
  }

  // ----- The rows against the runAfter entries -----

  lemma {:induction false} RowHasEntry(base: nat, specs: seq<TaskSpec>, rows: seq<Dependency>, n: nat, x: nat)
    returns (i: nat, l: nat)
    requires n <= |specs| && AreRows(base, specs, rows, n) && x < |rows|
    ensures i < n && IsRow(base, specs, rows[x], i, l)
    decreases n
  {
    var m := |specs[n - 1].runAfter|;
    var split := |rows| - m;
    if x < split {
      i, l := RowHasEntry(base, specs, rows[..split], n - 1, x);
    } else {
      i, l := n - 1, x - split;
      assert rows[split..][l] == rows[x];
    }
  }

  lemma {:induction false} EntryHasRow(base: nat, specs: seq<TaskSpec>, rows: seq<Dependency>, n: nat, i: nat, l: nat)
    returns (x: nat)
    requires n <= |specs| && AreRows(base, specs, rows, n) && i < n && l < |specs[i].runAfter|
    ensures x < |rows| && IsRow(base, specs, rows[x], i, l)
    decreases n
  {
    var m := |specs[n - 1].runAfter|;
    var split := |rows| - m;
    if i < n - 1 {
      x := EntryHasRow(base, specs, rows[..split], n - 1, i, l);
      assert rows[..split][x] == rows[x];
    } else {
      x := split + l;
      assert rows[split..][l] == rows[x];
    }
  }

  lemma EdgeHasRow(c: Catalog, c': Catalog, name: string, specs: seq<TaskSpec>, x: (nat, nat)) returns (k: nat)
    requires WellFormed(c) && Inserted(c, c', name, specs) && x in DagOf(c', |c.dags|).needs
    ensures |c.deps| <= k < |c'.deps| && c'.deps[k] == Dependency(x.0, x.1)
  {
    NewTasks(c, c', specs);
    k :| 0 <= k < |c'.deps| && c'.deps[k].taskId in TasksOf(c', |c.dags|)
        && x == (c'.deps[k].taskId, c'.deps[k].dependsOn);
    if k < |c.deps| {
      OldDependencyRow(c, c', name, specs, k);
    }
  }

  lemma EdgeHasEntry(c: Catalog, c': Catalog, name: string, specs: seq<TaskSpec>, x: (nat, nat))
    returns (i: nat, l: nat)
    requires WellFormed(c) && Inserted(c, c', name, specs) && x in DagOf(c', |c.dags|).needs
    ensures IsRow(|c.tasks|, specs, Dependency(x.0, x.1), i, l)
  {
    var k := EdgeHasRow(c, c', name, specs, x);
    i, l := RowHasEntry(|c.tasks|, specs, c'.deps[|c.deps|..], |specs|, k - |c.deps|);
    assert c'.deps[|c.deps|..][k - |c.deps|] == c'.deps[k];
  }

  lemma EntryHasEdge(c: Catalog, c': Catalog, name: string, specs: seq<TaskSpec>, i: nat, l: nat)
    returns (x: (nat, nat))
    requires WellFormed(c) && Inserted(c, c', name, specs) && i < |specs| && l < |specs[i].runAfter|
    ensures x in DagOf(c', |c.dags|).needs && IsRow(|c.tasks|, specs, Dependency(x.0, x.1), i, l)
  {
    NewTasks(c, c', specs);
    var k := EntryHasRow(|c.tasks|, specs, c'.deps[|c.deps|..], |specs|, i, l);
    var row := c'.deps[|c.deps| + k];
    assert c'.deps[|c.deps|..][k] == row;
    x := (row.taskId, row.dependsOn);
    assert row == Dependency(x.0, x.1);
  }

  /** The k-th new task waits for a task of the name dep. */
  ghost predicate WaitsFor(c: Catalog, c': Catalog, specs: seq<TaskSpec>, k: nat, dep: string) {
    exists m :: 0 <= m < |specs| && specs[m].name == dep && |c.tasks| + m in DepsOf(DagOf(c', |c.dags|), |c.tasks| + k)
  }

  lemma WaitingHasReason(c: Catalog, c': Catalog, name: string, specs: seq<TaskSpec>, k: nat, dep: string)
    returns (i: nat)
    requires WellFormed(c) && Inserted(c, c', name, specs) && WaitsFor(c, c', specs, k, dep)
    ensures i < |specs| && IsFirst(specs, i, k) && dep in specs[i].runAfter
  {
    var m :| 0 <= m < |specs| && specs[m].name == dep && |c.tasks| + m in DepsOf(DagOf(c', |c.dags|), |c.tasks| + k);
    var l;
    i, l := EdgeHasEntry(c, c', name, specs, (|c.tasks| + k, |c.tasks| + m));
  }

  lemma EntryMakesWait(c: Catalog, c': Catalog, name: string, specs: seq<TaskSpec>, i: nat, k: nat, dep: string)
    requires WellFormed(c) && Inserted(c, c', name, specs) && IsFirst(specs, i, k) && dep in specs[i].runAfter
    ensures WaitsFor(c, c', specs, k, dep)
  {
    var l :| 0 <= l < |specs[i].runAfter| && specs[i].runAfter[l] == dep;
    var x := EntryHasEdge(c, c', name, specs, i, l);
    FirstIsUnique(specs, i, k, x.0 - |c.tasks|);
    var m := x.1 - |c.tasks|;
    assert |c.tasks| + m in DepsOf(DagOf(c', |c.dags|), |c.tasks| + k) && specs[m].name == dep;
  }

  /** What the k-th new task waits for, by name: what the specifications it stands first for run after.
      A specification that is not the first of its name and version lends its entries to the first. */
  lemma RowDependencies(c: Catalog, c': Catalog, name: string, specs: seq<TaskSpec>, k: nat, dep: string)
    requires WellFormed(c) && Inserted(c, c', name, specs) && k < |specs|
    ensures WaitsFor(c, c', specs, k, dep) <==>
            exists i :: 0 <= i < |specs| && IsFirst(specs, i, k) && dep in specs[i].runAfter
  {
    if WaitsFor(c, c', specs, k, dep) {
      var i := WaitingHasReason(c, c', name, specs, k, dep);
    }
    if i :| 0 <= i < |specs| && IsFirst(specs, i, k) && dep in specs[i].runAfter {
      EntryMakesWait(c, c', name, specs, i, k, dep);
    }
  }

  lemma FirstIsUnique(specs: seq<TaskSpec>, i: nat, k: nat, k': nat)
    requires IsFirst(specs, i, k) && IsFirst(specs, i, k')
    ensures k == k'
  {
  }

  /** A task waits for all that its runAfter lists if and only if no earlier specification has its name
      and version, or it lists nothing. */
  lemma HonouredIff(c: Catalog, c': Catalog, name: string, specs: seq<TaskSpec>, i: nat)
    requires WellFormed(c) && Inserted(c, c', name, specs) && i < |specs|
    ensures (forall dep :: dep in specs[i].runAfter ==> WaitsFor(c, c', specs, i, dep))
              <==> IsFirst(specs, i, i) || specs[i].runAfter == []
  {
    forall dep | dep in specs[i].runAfter && IsFirst(specs, i, i) ensures WaitsFor(c, c', specs, i, dep) {
      EntryMakesWait(c, c', name, specs, i, i, dep);
    }
    if specs[i].runAfter != [] && WaitsFor(c, c', specs, i, specs[i].runAfter[0]) {
      var j := WaitingHasReason(c, c', name, specs, i, specs[i].runAfter[0]);
      FirstIsFirst(specs, j, i);
    }
  }

  lemma FirstIsFirst(specs: seq<TaskSpec>, j: nat, i: nat)
    requires IsFirst(specs, j, i)
    ensures IsFirst(specs, i, i)
  {
  }

  /** With distinct names the graph by id is the graph by name. */
  lemma GraphIsRunAfter(c: Catalog, c': Catalog, name: string, specs: seq<TaskSpec>, i: nat, j: nat)
    requires WellFormed(c) && Inserted(c, c', name, specs) && DistinctNames(specs) && i < |specs| && j < |specs|
    ensures (|c.tasks| + i, |c.tasks| + j) in DagOf(c', |c.dags|).needs <==> specs[j].name in specs[i].runAfter
  {
    var base := |c.tasks|;
    if (base + i, base + j) in DagOf(c', |c.dags|).needs {
      var k, l := EdgeHasEntry(c, c', name, specs, (base + i, base + j));
      assert k == i;
    }
    if specs[j].name in specs[i].runAfter {
      var l :| 0 <= l < |specs[i].runAfter| && specs[i].runAfter[l] == specs[j].name;
      var x := EntryHasEdge(c, c', name, specs, i, l);
      assert x == (base + i, base + j);
    }
  }

  // ----- What validation buys -----

  /** A walk maps along any function that maps edges to edges. */
  lemma WalkMaps<T(!new), U(!new)>(e: set<(T, T)>, e': set<(U, U)>, f: T -> U, a: T, b: T)
    requires forall x :: x in e ==> (f(x.0), f(x.1)) in e'
    requires Reaches(e, a, b)
    ensures Reaches(e', f(a), f(b))
  {
    var p :| IsWalkBetween(e, p, a, b);
    var q := seq(|p|, i requires 0 <= i < |p| => f(p[i]));
    forall i | 0 <= i < |q| - 1 ensures (q[i], q[i + 1]) in e' {
      assert (p[i], p[i + 1]) in e;
      assert (f((p[i], p[i + 1]).0), f((p[i], p[i + 1]).1)) in e';
    }
    assert IsWalkBetween(e', q, f(a), f(b));
  }

  lemma InsertOnlyAdds(c: Catalog, c': Catalog, name: string, specs: seq<TaskSpec>)
    requires Inserted(c, c', name, specs)
    ensures |c'.dags| == |c.dags| + 1 && |c'.tasks| == |c.tasks| + |specs|
  {
  }

  /** Inserting an accepted DAG keeps the catalog well-formed: older versions are untouched, and a
      cycle among the new rows would be a cycle among the names. */
  lemma InsertKeepsWellFormed(c: Catalog, c': Catalog, name: string, specs: seq<TaskSpec>)
    requires WellFormed(c) && Inserted(c, c', name, specs)
    requires Acyclic(RunAfterEdges(specs)) && specs != []
    ensures WellFormed(c')
    ensures forall d :: 0 <= d < |c.dags| ==> DagOf(c', d) == DagOf(c, d)
  {
    var dagId := |c.dags|;
    forall t | 0 <= t < |c'.tasks|
      ensures c'.tasks[t].dagId < |c'.dags|
      ensures t < |c.tasks| <==> c'.tasks[t].dagId < dagId
      ensures t >= |c.tasks| <==> c'.tasks[t].dagId == dagId
    {
      if t >= |c.tasks| {
        assert c'.tasks[t] == TaskRows(dagId, specs)[t - |c.tasks|];
      } else {
        assert c'.tasks[t] == c.tasks[t];
      }
    }
    forall d | 0 <= d < dagId ensures DagOf(c', d) == DagOf(c, d) && WellFormedDag(c', d) {
      OlderDagUntouched(c, c', name, specs, d);
      assert WellFormedDag(c, d);
    }
    NewDagWellFormed(c, c', name, specs);
    forall i | 0 <= i < |c'.deps| ensures c'.deps[i].taskId < |c'.tasks| {
      if i < |c.deps| {
        assert c'.deps[..|c.deps|][i] == c.deps[i];
      } else {
        NewDependencyRow(c, c', name, specs, i);
      }
    }
  }

  lemma OlderDagUntouched(c: Catalog, c': Catalog, name: string, specs: seq<TaskSpec>, d: nat)
    requires WellFormed(c) && Inserted(c, c', name, specs) && d < |c.dags|
    ensures DagOf(c', d) == DagOf(c, d)
  {
    assert forall t :: |c.tasks| <= t < |c'.tasks| ==> c'.tasks[t] == TaskRows(|c.dags|, specs)[t - |c.tasks|];
    assert TasksOf(c', d) == TasksOf(c, d);
    forall i | 0 <= i < |c.deps| ensures c'.deps[i] == c.deps[i] {
      assert c'.deps[..|c.deps|][i] == c.deps[i];
    }
    forall i | |c.deps| <= i < |c'.deps| ensures c'.deps[i].taskId !in TasksOf(c, d) {
      NewDependencyRow(c, c', name, specs, i);
    }
    assert DagOf(c', d).needs == DagOf(c, d).needs;
  }

  lemma NewTasks(c: Catalog, c': Catalog, specs: seq<TaskSpec>)
    requires OlderVersions(c) && c'.tasks == c.tasks + TaskRows(|c.dags|, specs)
    ensures TasksOf(c', |c.dags|) == Range(|c.tasks|, |specs|)
  {
    assert forall t :: |c.tasks| <= t < |c'.tasks| ==> c'.tasks[t] == TaskRows(|c.dags|, specs)[t - |c.tasks|];
    assert forall t :: 0 <= t < |c.tasks| ==> c'.tasks[t] == c.tasks[t];
  }

  lemma NewDependencyRow(c: Catalog, c': Catalog, name: string, specs: seq<TaskSpec>, k: nat)
    requires Inserted(c, c', name, specs) && |c.deps| <= k < |c'.deps|
    ensures |c.tasks| <= c'.deps[k].taskId < |c'.tasks|
  {
    var i, l := RowHasEntry(|c.tasks|, specs, c'.deps[|c.deps|..], |specs|, k - |c.deps|);
    assert c'.deps[|c.deps|..][k - |c.deps|] == c'.deps[k];
  }

  lemma OldDependencyRow(c: Catalog, c': Catalog, name: string, specs: seq<TaskSpec>, i: nat)
    requires WellFormed(c) && Inserted(c, c', name, specs) && i < |c.deps|
    ensures c'.deps[i].taskId < |c.tasks|
  {
    assert c'.deps[i] == c'.deps[..|c.deps|][i];
  }

  lemma NewEdge(c: Catalog, c': Catalog, name: string, specs: seq<TaskSpec>, x: (nat, nat))
    requires WellFormed(c) && Inserted(c, c', name, specs) && x in DagOf(c', |c.dags|).needs
    ensures |c.tasks| <= x.0 < |c'.tasks| && |c.tasks| <= x.1 < |c'.tasks|
    ensures (c'.tasks[x.0].name, c'.tasks[x.1].name) in RunAfterEdges(specs)
  {
    var i, l := EdgeHasEntry(c, c', name, specs, x);
    assert c'.tasks[x.0] == TaskRows(|c.dags|, specs)[x.0 - |c.tasks|];
    assert c'.tasks[x.1] == TaskRows(|c.dags|, specs)[x.1 - |c.tasks|];
    assert (specs[i].name, specs[i].runAfter[l]) in RunAfterEdges(specs);
  }

  lemma NewDagWellFormed(c: Catalog, c': Catalog, name: string, specs: seq<TaskSpec>)
    requires WellFormed(c) && Inserted(c, c', name, specs)
    requires Acyclic(RunAfterEdges(specs)) && specs != []
    ensures WellFormedDag(c', |c.dags|)
  {
    var g := DagOf(c', |c.dags|);
    NewTasks(c, c', specs);
    assert |c.tasks| in g.tasks;
    var names := (t: nat) => if t < |c'.tasks| then c'.tasks[t].name else "";
    forall x | x in g.needs
      ensures x.0 in g.tasks && x.1 in g.tasks && (names(x.0), names(x.1)) in RunAfterEdges(specs)
    {
      NewEdge(c, c', name, specs, x);
    }
    forall a ensures !Reaches(g.needs, a, a) {
      if Reaches(g.needs, a, a) {
        WalkMaps(g.needs, RunAfterEdges(specs), names, a, a);
      }
    }
  }

  function Range(base: nat, n: nat): (s: set<nat>)
    ensures |s| == n
    ensures forall t :: t in s <==> base <= t < base + n
  {
    if n == 0 then {} else Range(base, n - 1) + {base + n - 1}
  }

  /** Admission and insertion together: validated specifications always insert, and what they
      leave is a well-formed catalog. */
  method ValidateAndInsert(c: Catalog, name: string, specs: seq<TaskSpec>, parameters: Outcome, startNode: string)
    returns (r: Option<Catalog>)
    requires WellFormed(c)
    requires if specs == [] then startNode == "" else startNode in Names(specs)
    ensures r.Some? <==> Accepted(specs) && parameters.Ok?
    ensures r.Some? ==> Inserted(c, r.value, name, specs) && WellFormed(r.value)
  {
    var verdict := ValidateDAG(specs, parameters, startNode);
    if verdict.Err? {
      return None;
    }
    r := InsertDag(c, name, specs);
    InsertKeepsWellFormed(c, r.value, name, specs);
  }

  // ----- A repeated name -----

  const FIRST: TaskSpec := TaskSpec("x", Some(TaskRef("x", 1)), "", [], "", [])
  const AGAIN: TaskSpec := TaskSpec("a", Some(TaskRef("a", 1)), "", [], "", [])

  /** Two references to one task, of which the second runs after x. */
  const TRIPLE: seq<TaskSpec> := [FIRST, AGAIN, AGAIN.(runAfter := ["x"])]

  const TRIPLED: Catalog := Catalog(
    [DagVersion("dag", 3)], [DagTask(0, "x", 1), DagTask(0, "a", 1), DagTask(0, "a", 1)], [Dependency(1, 0)])

  lemma NoRowsAppended(base: nat, specs: seq<TaskSpec>, rows: seq<Dependency>, i: nat)
    requires i < |specs| && specs[i].runAfter == [] && AreRows(base, specs, rows, i)
    ensures AreRows(base, specs, rows, i + 1)
  {
    AppendRows(base, specs, rows, [], i);
    assert rows + [] == rows;
  }

  lemma TripleRow()
    ensures AreRowsOf(0, TRIPLE, [Dependency(1, 0)], 2)
  {
    assert IsFirst(TRIPLE, 2, 1) && IsLatest(TRIPLE, "x", 0);
    assert IsRow(0, TRIPLE, Dependency(1, 0), 2, 0);
  }

  lemma TripleTasks()
    ensures TRIPLED.tasks == [] + TaskRows(0, TRIPLE)
  {
    assert |TaskRows(0, TRIPLE)| == 3;
  }

  lemma TripleDependencies()
    ensures AreRows(0, TRIPLE, [Dependency(1, 0)], |TRIPLE|)
  {
    NoRowsAppended(0, TRIPLE, [], 0);
    NoRowsAppended(0, TRIPLE, [], 1);
    TripleRow();
    AppendRows(0, TRIPLE, [], [Dependency(1, 0)], 2);
    assert [] + [Dependency(1, 0)] == [Dependency(1, 0)];
  }

  lemma FirstVersionInserted(c': Catalog, name: string, specs: seq<TaskSpec>, rows: seq<Dependency>)
    requires c' == Catalog([DagVersion(name, |specs|)], [] + TaskRows(0, specs), rows)
    requires AreRows(0, specs, rows, |specs|)
    ensures Inserted(Catalog([], [], []), c', name, specs)
  {
    assert rows[0..] == rows;
  }

  lemma TripleInserted(c': Catalog, specs: seq<TaskSpec>, rows: seq<Dependency>)
    requires c' == TRIPLED && specs == TRIPLE && rows == [Dependency(1, 0)]
    ensures Inserted(Catalog([], [], []), c', "dag", specs)
  {
    TripleTasks();
    TripleDependencies();
    FirstVersionInserted(c', "dag", specs, rows);
  }

  lemma ThirdWaitsForNothing()
    ensures DepsOf(DagOf(TRIPLED, 0), 2) == {}
  {
    assert TRIPLED.deps[0].taskId == 1;
  }

  lemma TripleAccepted()
    ensures Accepted(TRIPLE)
  {
    var e := RunAfterEdges(TRIPLE);
    assert e == {("a", "x")} by {
      assert (TRIPLE[2].name, TRIPLE[2].runAfter[0]) in e;
    }
    assert Names(TRIPLE) == {"x", "a"} by {
      assert TRIPLE[0].name == "x" && TRIPLE[1].name == "a";
    }
    assert ("a", "x") in Undirected(e) && ("x", "a") in Undirected(e) by {
      assert (("a", "x").1, ("a", "x").0) in Undirected(e);
    }
    EdgeReaches(Undirected(e), "a", "x");
    EdgeReaches(Undirected(e), "x", "a");
    var order := ["x", "a"];
    forall n ensures !Reaches(e, n, n) {
      OrderMeansAcyclic(e, {"x", "a"}, order, n);
    }
  }

  /** ValidateDAG lets references repeat a name. The second of two references to one task then loses its
      dependencies to the first: here the third task of an accepted DAG waits for nothing. */
  lemma RepeatedReferenceLosesItsDependencies()
    ensures exists c', specs: seq<TaskSpec> ::
              && Accepted(specs) && Inserted(Catalog([], [], []), c', "dag", specs)
              && |specs| == 3 && specs[2].runAfter == ["x"] && DepsOf(DagOf(c', 0), 2) == {}
  {
    TripleAccepted();
    TripleInserted(TRIPLED, TRIPLE, [Dependency(1, 0)]);
    ThirdWaitsForNothing();
    assert TRIPLE[2].runAfter == ["x"];
  }
}
