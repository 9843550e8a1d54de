/** The progress of one run as four sets of tasks, and the invariant that ties it to the graph. */
module RunProgress {
  import opened Prelude
  import opened Graphs
  import opened Tables

  /** Tasks that have a row; tasks with a success, a failed, a suspended row. */
  datatype Progress = Progress(rows: set<nat>, succeeded: set<nat>, failed: set<nat>, suspended: set<nat>) {
    function Finished(): set<nat> {
      succeeded + failed + suspended
    }
  }

  /** What the rows of run r say. */
  function ProgressOf(rows: seq<TaskRun>, r: nat): Progress {
    Progress(TasksIn(rows, r), TasksWith(rows, r, Success), TasksWith(rows, r, Failed), TasksWith(rows, r, Suspended))
  }

  /** What the worker still has to do for the run before it turns to its next event. */
  datatype Duty = Nothing | MustEnqueue(todo: seq<nat>) | MustSuspendBelow(task: nat)

  function Todo(duty: Duty): set<nat> {
    if duty.MustEnqueue? then Elements(duty.todo) else {}
  }

  /** Tasks that may be enqueued now: some dependencies, all succeeded, no row yet. */
  function Ready(g: Dag, p: Progress): set<nat> {
    set t | t in g.tasks && t !in p.rows && DepsOf(g, t) != {} && DepsOf(g, t) <= p.succeeded
  }

  /** Tasks without a row that depend, at whatever distance, on the failed one. */
  ghost function Orphans(g: Dag, rows: set<nat>, failed: nat): set<nat> {
    set t | t in g.tasks && t !in rows && Reaches(g.needs, t, failed)
  }

  ghost predicate Exclusive(p: Progress) {
    && p.succeeded !! p.failed && p.succeeded !! p.suspended && p.failed !! p.suspended
    && p.Finished() <= p.rows
  }

  /** Dependency order: whatever was enqueued had all its dependencies succeeded. */
  ghost predicate Ordered(g: Dag, p: Progress) {
    forall t :: t in p.rows && t !in p.suspended ==> DepsOf(g, t) <= p.succeeded
  }

  ghost predicate Blocked(g: Dag, p: Progress, t: nat) {
    exists d :: d in DepsOf(g, t) && d in p.failed + p.suspended
  }

  /** Nothing is suspended without cause. */
  ghost predicate Justified(g: Dag, p: Progress) {
    forall t :: t in p.suspended ==> Blocked(g, p, t)
  }

  /** No ready task is forgotten. */
  ghost predicate Prompt(g: Dag, p: Progress, duty: Duty) {
    forall t :: t in Ready(g, p) ==> t in Todo(duty)
  }

  /** Below a failed or suspended task everything has been dealt with, or is about to be. */
  ghost predicate Contained(g: Dag, p: Progress, duty: Duty) {
    forall e :: e in g.needs && e.1 in p.failed + p.suspended && e.0 !in p.rows ==> duty == MustSuspendBelow(e.1)
  }

  ghost predicate DutyFits(g: Dag, p: Progress, duty: Duty) {
    match duty
    case Nothing => true
    case MustEnqueue(todo) => todo != [] && Distinct(todo) && forall t :: t in todo ==> t in Ready(g, p)
    case MustSuspendBelow(d) => d in p.failed
  }

  ghost predicate Sane(g: Dag, p: Progress, duty: Duty) {
    && p.rows <= g.tasks && Exclusive(p)
    && Ordered(g, p) && Justified(g, p)
    && Prompt(g, p, duty) && Contained(g, p, duty) && DutyFits(g, p, duty)
  }

  // ----- Every step keeps it -----

  lemma RootEnqueued(g: Dag, p: Progress, duty: Duty, t: nat)
    requires Sane(g, p, duty) && t in Roots(g) && t !in p.rows
    ensures Sane(g, p.(rows := p.rows + {t}), duty)
  {
    var q := p.(rows := p.rows + {t});
    assert Ready(g, q) == Ready(g, p);
  }

  lemma NextEnqueued(g: Dag, p: Progress, todo: seq<nat>)
    requires Sane(g, p, MustEnqueue(todo))
    ensures Sane(g, p.(rows := p.rows + {todo[0]}), if |todo| == 1 then Nothing else MustEnqueue(todo[1..]))
  {
    var q := p.(rows := p.rows + {todo[0]});
    assert todo[0] in todo;
    assert Ready(g, q) == Ready(g, p) - {todo[0]};
    assert todo == [todo[0]] + todo[1..];
  }

  lemma TaskSucceeded(g: Dag, p: Progress, t: nat, next: seq<nat>)
    requires Sane(g, p, Nothing) && t in p.rows - p.Finished()
    requires Distinct(next) && Elements(next) == Ready(g, p.(succeeded := p.succeeded + {t}))
    ensures Sane(g, p.(succeeded := p.succeeded + {t}), if next == [] then Nothing else MustEnqueue(next))
  {
    var q := p.(succeeded := p.succeeded + {t});
    forall x | x in q.suspended ensures Blocked(g, q, x) {
      assert Blocked(g, p, x);
    }
  }

  lemma TaskFailed(g: Dag, p: Progress, t: nat)
    requires Sane(g, p, Nothing) && t in p.rows - p.Finished()
    ensures Sane(g, p.(failed := p.failed + {t}), MustSuspendBelow(t))
  {
    var q := p.(failed := p.failed + {t});
    assert Ready(g, q) == Ready(g, p);
    forall x | x in q.suspended ensures Blocked(g, q, x) {
      assert Blocked(g, p, x);
    }
  }

  /** Above a row that is not suspended, at any distance, everything has succeeded. */
  lemma EnqueuedMeansSucceededAbove(g: Dag, p: Progress, t: nat, d: nat)
    requires Ordered(g, p) && Exclusive(p)
    requires t in p.rows && t !in p.suspended && Reaches(g.needs, t, d)
    ensures d in p.succeeded
  {
    var walk :| IsWalkBetween(g.needs, walk, t, d);
    var i := 0;
    while i < |walk| - 1
      invariant 0 <= i < |walk|
      invariant walk[i] in p.rows && walk[i] !in p.suspended
      invariant i > 0 ==> walk[i] in p.succeeded
    {
      assert (walk[i], walk[i + 1]) in g.needs;
      assert walk[i + 1] in DepsOf(g, walk[i]);
      i := i + 1;
    }
  }

  /** What is suspended below a failure has a cause. */
  lemma OrphansJustified(g: Dag, p: Progress, failed: nat)
    requires Justified(g, p) && Ordered(g, p) && Exclusive(p) && failed in p.failed && ValidDag(g)
    ensures var orphans := Orphans(g, p.rows, failed);
            Justified(g, p.(rows := p.rows + orphans, suspended := p.suspended + orphans))
  {
    var orphans := Orphans(g, p.rows, failed);
    var q := p.(rows := p.rows + orphans, suspended := p.suspended + orphans);
    forall t | t in q.suspended ensures Blocked(g, q, t) {
      if t in p.suspended {
        assert Blocked(g, p, t);
      } else {
        var d := ReachesFirstStep(g.needs, t, failed);
        assert (t, d).1 in g.tasks;
        assert d in DepsOf(g, t);
        if d != failed && d in p.rows && d !in p.suspended {
          EnqueuedMeansSucceededAbove(g, p, d, failed);
        }
        assert d in q.failed + q.suspended;
      }
    }
  }

  lemma OrphansSuspended(g: Dag, p: Progress, failed: nat)
    requires Sane(g, p, MustSuspendBelow(failed)) && ValidDag(g)
    ensures var orphans := Orphans(g, p.rows, failed);
            Sane(g, p.(rows := p.rows + orphans, suspended := p.suspended + orphans), Nothing)
  {
    var orphans := Orphans(g, p.rows, failed);
    var q := p.(rows := p.rows + orphans, suspended := p.suspended + orphans);
    assert Ready(g, q) <= Ready(g, p);
    OrphansJustified(g, p, failed);
    forall e | e in g.needs && e.1 in q.failed + q.suspended ensures e.0 in q.rows {
      EdgeReaches(g.needs, e.0, e.1);
      if e.1 in orphans {
        ReachesTransitive(g.needs, e.0, e.1, failed);
      }
    }
  }

  // ----- What it gives -----

  /** A task that was never enqueued is still waiting for one of its dependencies. */
  lemma MissingTaskWaits(g: Dag, p: Progress, t: nat) returns (d: nat)
    requires Sane(g, p, Nothing) && ValidDag(g) && Roots(g) <= p.rows && t in g.tasks && t !in p.rows
    ensures d in DepsOf(g, t) && d in g.tasks && d !in p.succeeded && d !in p.failed && d !in p.suspended
  {
    assert t !in Roots(g) && t !in Ready(g, p);
    d :| d in DepsOf(g, t) && d !in p.succeeded;
    assert (t, d).1 in g.tasks;
  }

  /** A run that waits for nothing is over: if the roots were enqueued and every row is terminal,
      then every task of the graph is. */
  lemma NoStuckRun(g: Dag, p: Progress)
    requires Sane(g, p, Nothing) && ValidDag(g)
    requires Roots(g) <= p.rows <= p.Finished()
    ensures p.Finished() == g.tasks
  {
    var missing := g.tasks - p.rows;
    if missing == {} {
      assert forall t :: t in g.tasks ==> t !in missing;
    } else {
      var m := MinimalMember(g.needs, missing);
      var d := MissingTaskWaits(g, p, m);
    }
  }

  /** A walk from t to the failed task whose tasks, but for the last, have no row: what a search
      that stops at tasks with rows can follow. */
  ghost predicate RowlessWalk(g: Dag, rows: set<nat>, walk: seq<nat>, t: nat, failed: nat) {
    IsWalkBetween(g.needs, walk, t, failed) && forall i :: 0 <= i < |walk| - 1 ==> walk[i] !in rows
  }

  ghost function RowlessOrphans(g: Dag, rows: set<nat>, failed: nat): set<nat> {
    set t | t in g.tasks && exists walk :: RowlessWalk(g, rows, walk, t, failed)
  }

  lemma ExtendRowlessWalk(g: Dag, rows: set<nat>, t: nat, d: nat, failed: nat)
    requires (t, d) in g.needs && t !in rows
    requires d == failed || exists walk :: RowlessWalk(g, rows, walk, d, failed)
    ensures exists walk :: RowlessWalk(g, rows, walk, t, failed)
  {
    if d == failed {
      assert RowlessWalk(g, rows, [t, d], t, failed);
    } else {
      var walk :| RowlessWalk(g, rows, walk, d, failed);
      var longer := [t] + walk;
      forall i | 0 <= i < |longer| - 1 ensures (longer[i], longer[i + 1]) in g.needs && longer[i] !in rows {
        if i > 0 {
          assert (walk[i - 1], walk[i - 1 + 1]) in g.needs;
        }
      }
      assert RowlessWalk(g, rows, longer, t, failed);
    }
  }

  /** Whatever is closed under rowless dependents holds every rowless orphan. */
  lemma ClosedHoldsOrphans(g: Dag, rows: set<nat>, found: set<nat>, failed: nat)
    requires forall e :: e in g.needs && e.0 !in rows && (e.1 in found || e.1 == failed) ==> e.0 in found
    ensures RowlessOrphans(g, rows, failed) <= found
  {
    forall t | t in RowlessOrphans(g, rows, failed) ensures t in found {
      var walk :| RowlessWalk(g, rows, walk, t, failed);
      var i := |walk| - 1;
      while i > 0
        invariant 0 <= i < |walk|
        invariant i < |walk| - 1 ==> walk[i] in found
      {
        assert (walk[i - 1], walk[i - 1 + 1]) in g.needs;
        i := i - 1;
      }
    }
  }

  lemma RowlessAreOrphans(g: Dag, rows: set<nat>, failed: nat)
    ensures RowlessOrphans(g, rows, failed) <= Orphans(g, rows, failed)
  {
    forall t | t in RowlessOrphans(g, rows, failed) ensures t in Orphans(g, rows, failed) {
      var walk :| RowlessWalk(g, rows, walk, t, failed);
      assert walk[0] !in rows;
    }
  }

  /** Behind a descendant of the failed task that has a row, a search that stops there misses nothing:
      whatever has no row and depends on it is found on another way. */
  ghost predicate NothingHidden(g: Dag, rows: set<nat>, failed: nat) {
    forall e :: e in g.needs && e.0 !in rows && e.1 in rows && Reaches(g.needs, e.1, failed) ==>
      exists walk :: RowlessWalk(g, rows, walk, e.0, failed)
  }

  lemma OrphanIsFound(g: Dag, rows: set<nat>, failed: nat, t: nat)
    requires ValidDag(g) && NothingHidden(g, rows, failed) && t in Orphans(g, rows, failed)
    requires forall d :: d in DepsOf(g, t) && d in Orphans(g, rows, failed) ==> d in RowlessOrphans(g, rows, failed)
    ensures t in RowlessOrphans(g, rows, failed)
  {
    var d := ReachesFirstStep(g.needs, t, failed);
    assert (t, d).1 in g.tasks;
    assert d in DepsOf(g, t);
    if d == failed || d !in rows {
      ExtendRowlessWalk(g, rows, t, d, failed);
    }
  }

  /** Whatever rows there are: stopping at tasks with rows and walking through them find the same tasks,
      exactly if nothing is hidden. */
  lemma SearchesAgreeIff(g: Dag, rows: set<nat>, failed: nat)
    requires ValidDag(g)
    ensures RowlessOrphans(g, rows, failed) <= Orphans(g, rows, failed)
    ensures RowlessOrphans(g, rows, failed) == Orphans(g, rows, failed) <==> NothingHidden(g, rows, failed)
  {
    RowlessAreOrphans(g, rows, failed);
    var missed := Orphans(g, rows, failed) - RowlessOrphans(g, rows, failed);
    if RowlessOrphans(g, rows, failed) == Orphans(g, rows, failed) {
      forall e | e in g.needs && e.0 !in rows && e.1 in rows && Reaches(g.needs, e.1, failed)
        ensures e.0 in RowlessOrphans(g, rows, failed)
      {
        EdgeReaches(g.needs, e.0, e.1);
        ReachesTransitive(g.needs, e.0, e.1, failed);
      }
    } else if NothingHidden(g, rows, failed) {
      if missed != {} {
        var m := MinimalMember(g.needs, missed);
        OrphanIsFound(g, rows, failed, m);
      }
      assert forall t :: t in Orphans(g, rows, failed) ==> t !in missed;
    }
  }

  /** Under the run's invariant nothing is. */
  lemma SearchesAgree(g: Dag, p: Progress, failed: nat)
    requires Contained(g, p, MustSuspendBelow(failed)) && Ordered(g, p) && Exclusive(p) && failed in p.failed
    ensures RowlessOrphans(g, p.rows, failed) == Orphans(g, p.rows, failed)
  {
    RowlessAreOrphans(g, p.rows, failed);
    forall t | t in Orphans(g, p.rows, failed) ensures t in RowlessOrphans(g, p.rows, failed) {
      var walk :| IsWalkBetween(g.needs, walk, t, failed);
      var i := 1;
      while i < |walk| - 1 && walk[i] !in p.rows
        invariant 1 <= i <= |walk| - 1
        invariant forall k :: 0 <= k < i ==> walk[k] !in p.rows
      {
        i := i + 1;
      }
      assert (walk[i - 1], walk[i - 1 + 1]) in g.needs;
      if i < |walk| - 1 && walk[i] != failed {
        var rest := walk[i..];
        forall k | 0 <= k < |rest| - 1 ensures (rest[k], rest[k + 1]) in g.needs {
          assert (walk[i + k], walk[i + k + 1]) in g.needs;
        }
        assert IsWalkBetween(g.needs, rest, walk[i], failed);
        assert (walk[i - 1], walk[i]).1 !in p.failed + p.suspended;
        EnqueuedMeansSucceededAbove(g, p, walk[i], failed);
        assert false;
      }
      var front := walk[..i + 1];
      forall k | 0 <= k < |front| - 1 ensures (front[k], front[k + 1]) in g.needs {
        assert (walk[k], walk[k + 1]) in g.needs;
      }
      assert RowlessWalk(g, p.rows, front, t, failed);
    }
  }

  lemma SearchesAgreeIn(v: RunView, failed: nat)
    requires Fits(v) && v.duty == MustSuspendBelow(failed)
    ensures RowlessOrphans(v.g, v.p.rows, failed) == Orphans(v.g, v.p.rows, failed)
  {
    SearchesAgree(v.g, v.p, failed);
  }

  /** Counting decides completion. */
  lemma DoneByCount(g: Dag, p: Progress)
    requires Exclusive(p) && p.rows <= g.tasks
    ensures |p.succeeded| + |p.failed| + |p.suspended| == |p.Finished()| <= |g.tasks|
    ensures |p.Finished()| == |g.tasks| <==> p.Finished() == g.tasks
  {
    SubsetSize(p.Finished(), g.tasks);
  }

  // ----- One run as a whole -----

  /** A run's graph, progress and row in DAG_Runs. busy: the handler will still ask whether the run is
      complete; cleaned: how often its workspace was removed. */
  datatype RunView = RunView(g: Dag, p: Progress, duty: Duty, run: DagRun, busy: bool, cleaned: nat)

  ghost predicate CountersOk(g: Dag, p: Progress, run: DagRun) {
    && run.successfulCount == |p.succeeded| && run.failedCount == |p.failed| && run.suspendedCount == |p.suspended|
    && run.status == (if p.failed != {} then RunFailed else if p.succeeded == g.tasks then RunSuccess else RunRunning)
  }

  predicate Complete(g: Dag, run: DagRun) {
    |g.tasks| == run.successfulCount + run.failedCount + run.suspendedCount
  }

  /** What every step keeps. */
  ghost predicate Fits(v: RunView) {
    && Sane(v.g, v.p, v.duty) && CountersOk(v.g, v.p, v.run)
    && v.cleaned == if Complete(v.g, v.run) && !v.busy then 1 else 0
  }

  // The steps, seen from their run.

  function NewRun(g: Dag, name: string, dagId: nat): RunView {
    RunView(g, Progress({}, {}, {}, {}), Nothing, DagRun(name, dagId, RunRunning, 0, 0, 0), false, 0)
  }

  function AfterInsert(v: RunView, t: nat): RunView {
    v.(p := v.p.(rows := v.p.rows + {t}))
  }

  function AfterEnqueue(v: RunView, todo: seq<nat>): RunView
    requires todo != []
  {
    AfterInsert(v, todo[0]).(duty := if |todo| == 1 then Nothing else MustEnqueue(todo[1..]))
  }

  function AfterFail(v: RunView, t: nat): RunView {
    v.(p := v.p.(failed := v.p.failed + {t}), duty := MustSuspendBelow(t), busy := true,
       run := v.run.(failedCount := v.run.failedCount + 1, status := RunFailed))
  }

  function AfterSuccess(v: RunView, t: nat, next: seq<nat>): RunView {
    v.(p := v.p.(succeeded := v.p.succeeded + {t}),
       duty := if next == [] then Nothing else MustEnqueue(next), busy := next == [],
       run := v.run.(successfulCount := v.run.successfulCount + 1,
                     status := if |v.g.tasks| == v.run.successfulCount + 1 then RunSuccess else v.run.status))
  }

  function AfterSuspend(v: RunView, found: seq<nat>): RunView {
    v.(p := v.p.(rows := v.p.rows + Elements(found), suspended := v.p.suspended + Elements(found)), duty := Nothing,
       run := v.run.(suspendedCount := v.run.suspendedCount + |found|))
  }

  function AfterCheck(v: RunView): RunView {
    v.(busy := false, cleaned := if Complete(v.g, v.run) then v.cleaned + 1 else v.cleaned)
  }

  /** A run with an unfinished task is not complete. */
  lemma Unfinished(v: RunView, t: nat)
    requires Fits(v) && t in v.g.tasks && t !in v.p.Finished()
    ensures !Complete(v.g, v.run) && v.cleaned == 0
  {
    DoneByCount(v.g, v.p);
  }

  lemma NewRunFits(g: Dag, name: string, dagId: nat)
    requires g.tasks != {}
    ensures Fits(NewRun(g, name, dagId))
  {
  }

  lemma RootFits(v: RunView, t: nat)
    requires Fits(v) && t in Roots(v.g) && t !in v.p.rows
    ensures Fits(AfterInsert(v, t))
  {
    RootEnqueued(v.g, v.p, v.duty, t);
  }

  lemma EnqueueFits(v: RunView, todo: seq<nat>)
    requires Fits(v) && v.duty == MustEnqueue(todo)
    ensures Fits(AfterEnqueue(v, todo))
    ensures todo[0] !in v.p.rows && todo[0] !in Roots(v.g)
  {
    NextEnqueued(v.g, v.p, todo);
    assert todo[0] in todo;
  }

  lemma FailCounted(g: Dag, p: Progress, run: DagRun, t: nat)
    requires CountersOk(g, p, run) && t !in p.failed
    ensures CountersOk(g, p.(failed := p.failed + {t}), run.(failedCount := run.failedCount + 1, status := RunFailed))
  {
    DisjointSize(p.failed, {t});
    assert t in p.failed + {t};
  }

  lemma FailFits(v: RunView, t: nat)
    requires Fits(v) && v.duty == Nothing && t in v.p.rows && t !in v.p.Finished()
    ensures Fits(AfterFail(v, t))
  {
    var w := AfterFail(v, t);
    Unfinished(v, t);
    TaskFailed(v.g, v.p, t);
    FailCounted(v.g, v.p, v.run, t);
    assert w.cleaned == 0 && w.busy;
  }

  /** The task count is reached by the last success only. */
  lemma LastSuccess(v: RunView, t: nat)
    requires Fits(v) && t in v.p.rows && t !in v.p.Finished()
    ensures |v.p.succeeded + {t}| == v.run.successfulCount + 1
    ensures |v.g.tasks| == v.run.successfulCount + 1 <==> v.p.succeeded + {t} == v.g.tasks
  {
    DisjointSize(v.p.succeeded, {t});
    SubsetSize(v.p.succeeded + {t}, v.g.tasks);
  }

  lemma SuccessCounted(v: RunView, t: nat, next: seq<nat>)
    requires Fits(v) && t in v.p.rows && t !in v.p.Finished()
    ensures var w := AfterSuccess(v, t, next); CountersOk(w.g, w.p, w.run)
  {
    LastSuccess(v, t);
    if v.p.failed != {} {
      var f :| f in v.p.failed;
      assert f in v.g.tasks && f !in v.p.succeeded + {t};
    }
  }

  lemma SuccessFits(v: RunView, t: nat, next: seq<nat>)
    requires Fits(v) && v.duty == Nothing && t in v.p.rows && t !in v.p.Finished()
    requires Distinct(next) && Elements(next) == Ready(v.g, v.p.(succeeded := v.p.succeeded + {t}))
    ensures Fits(AfterSuccess(v, t, next))
  {
    var w := AfterSuccess(v, t, next);
    Unfinished(v, t);
    TaskSucceeded(v.g, v.p, t, next);
    SuccessCounted(v, t, next);
    if next != [] {
      assert next[0] in Elements(next);
      ReadyMeansIncomplete(w.g, w.p, w.run, next[0]);
    }
  }

  lemma ReadyMeansIncomplete(g: Dag, p: Progress, run: DagRun, t: nat)
    requires Exclusive(p) && p.rows <= g.tasks && CountersOk(g, p, run) && t in Ready(g, p)
    ensures !Complete(g, run)
  {
    DoneByCount(g, p);
  }

  /** What is to be enqueued is what is ready. */
  lemma DutyIsReady(v: RunView, next: seq<nat>)
    requires Fits(v) && v.duty == if next == [] then Nothing else MustEnqueue(next)
    ensures Elements(next) == Ready(v.g, v.p)
  {
    assert Prompt(v.g, v.p, v.duty) && DutyFits(v.g, v.p, v.duty);
  }

  lemma SuspendFits(v: RunView, t: nat, found: seq<nat>)
    requires Fits(v) && v.duty == MustSuspendBelow(t) && v.busy && ValidDag(v.g)
    requires Distinct(found) && Elements(found) == Orphans(v.g, v.p.rows, t)
    ensures Fits(AfterSuspend(v, found))
  {
    OrphansSuspended(v.g, v.p, t);
    DistinctSize(found);
    DisjointSize(v.p.suspended, Elements(found));
    assert v.cleaned == 0;
  }

  lemma CheckFits(v: RunView)
    requires Fits(v) && v.duty == Nothing && v.busy
    ensures Fits(AfterCheck(v))
  {
  }

  // ----- What it gives -----

  lemma SuspendedCause(g: Dag, p: Progress, t: nat) returns (d: nat)
    requires Justified(g, p) && t in p.suspended
    ensures (t, d) in g.needs && d in p.failed + p.suspended
  {
    assert Blocked(g, p, t);
    d :| d in DepsOf(g, t) && d in p.failed + p.suspended;
  }

  /** Without a failure nothing is suspended. */
  lemma SuspendedMeansFailed(g: Dag, p: Progress)
    requires Justified(g, p) && ValidDag(g) && p.failed == {}
    ensures p.suspended == {}
  {
    if p.suspended != {} {
      var m := MinimalMember(g.needs, p.suspended);
      var d := SuspendedCause(g, p, m);
    }
  }

  /** A run that waits for nothing is complete and has a verdict. */
  lemma WaitingForNothing(v: RunView)
    requires Fits(v) && v.duty == Nothing && ValidDag(v.g) && Roots(v.g) <= v.p.rows <= v.p.Finished()
    ensures v.p.Finished() == v.g.tasks && Complete(v.g, v.run) && v.run.status != RunRunning
  {
    NoStuckRun(v.g, v.p);
    DoneByCount(v.g, v.p);
    if v.p.failed == {} {
      SuspendedMeansFailed(v.g, v.p);
    }
  }

  lemma CleanedIff(v: RunView)
    requires Fits(v)
    ensures v.cleaned == if v.p.Finished() == v.g.tasks && !v.busy then 1 else 0
  {
    DoneByCount(v.g, v.p);
  }

  /** The verdict is what the tasks say, and never both. */
  lemma Verdict(v: RunView)
    requires Fits(v)
    ensures v.run.status == RunSuccess <==> v.p.succeeded == v.g.tasks && v.p.failed == {}
    ensures v.run.status == RunFailed <==> v.p.failed != {}
    ensures v.p.succeeded == v.g.tasks ==> v.p.failed == {}
    ensures v.p.succeeded == v.g.tasks <==> v.run.successfulCount >= |v.g.tasks|
  {
    SubsetSize(v.p.succeeded, v.g.tasks);
    forall f | f in v.p.failed ensures v.p.succeeded != v.g.tasks {
      assert f in v.g.tasks && f !in v.p.succeeded;
    }
  }

  /** As the counts only grow, a verdict stays. */
  lemma VerdictKept(v: RunView, w: RunView)
    requires Fits(v) && Fits(w) && v.g == w.g && v.run.status != RunRunning
    requires v.run.successfulCount <= w.run.successfulCount && v.run.failedCount <= w.run.failedCount
    ensures w.run.status == v.run.status
  {
    Verdict(v);
    Verdict(w);
  }
}
