/** What the progress of one run keeps whatever ids successes pass to the last query: weaker than `Fits`,
    but enough to say when a run that waits for nothing is over, and what its status means. */
module LooseProgress {
  import opened Prelude
  import opened Graphs
  import opened Tables
  import opened RunProgress

  /** What the completion check compares with the number of tasks. */
  function Outcomes(run: DagRun): nat {
    run.successfulCount + run.failedCount + run.suspendedCount
  }

  ghost predicate OwnTasks(v: RunView) {
    v.p.Finished() <= v.p.rows <= v.g.tasks && Todo(v.duty) <= v.g.tasks
  }

  ghost predicate StatusOk(v: RunView) {
    && (v.run.status == RunRunning <==> v.run.failedCount == 0 && v.run.successfulCount < |v.g.tasks|)
    && (v.run.status == RunSuccess ==> v.run.successfulCount >= |v.g.tasks|)
    && (v.run.status == RunFailed ==> v.run.failedCount > 0)
  }

  /** The workspace goes at most once, and only when the outcomes have reached the number of tasks. */
  ghost predicate CleanedOk(v: RunView) {
    && v.cleaned <= 1
    && (v.cleaned == 1 ==> Outcomes(v.run) >= |v.g.tasks| && (v.busy ==> Outcomes(v.run) > |v.g.tasks|))
  }

  ghost predicate Held(v: RunView) {
    && OwnTasks(v) && StatusOk(v) && CleanedOk(v) && Contained(v.g, v.p, v.duty)
    && (v.duty.MustSuspendBelow? ==> v.busy && v.duty.task in v.p.failed)
    && (v.p.suspended != {} ==> v.p.failed != {})
  }

  // ----- Every step keeps it -----

  lemma NewRunHeld(g: Dag, name: string, dagId: nat)
    requires g.tasks != {}
    ensures Held(NewRun(g, name, dagId))
  {
  }

  lemma InsertHeld(v: RunView, t: nat)
    requires Held(v) && t in v.g.tasks
    ensures Held(AfterInsert(v, t))
  {
  }

  lemma EnqueueHeld(v: RunView, todo: seq<nat>)
    requires Held(v) && v.duty == MustEnqueue(todo) && todo != []
    ensures Held(AfterEnqueue(v, todo))
  {
    assert todo[0] in Elements(todo) && Elements(todo[1..]) <= Elements(todo);
  }

  lemma SuccessHeld(v: RunView, t: nat, next: seq<nat>)
    requires Held(v) && v.duty == Nothing && t in v.p.rows && Elements(next) <= v.g.tasks
    ensures Held(AfterSuccess(v, t, next))
  {
  }

  lemma FailHeld(v: RunView, t: nat)
    requires Held(v) && v.duty == Nothing && t in v.p.rows
    ensures Held(AfterFail(v, t))
  {
  }

  /** Either search closes the gap that the failure has opened. */
  lemma SuspendContains(g: Dag, p: Progress, failed: nat, found: set<nat>)
    requires Contained(g, p, MustSuspendBelow(failed)) && ValidDag(g)
    requires found == Orphans(g, p.rows, failed) || found == RowlessOrphans(g, p.rows, failed)
    ensures Contained(g, p.(rows := p.rows + found, suspended := p.suspended + found), Nothing)
  {
    var q := p.(rows := p.rows + found, suspended := p.suspended + found);
    forall e | e in g.needs && e.1 in q.failed + q.suspended ensures e.0 in q.rows {
      if e.0 !in p.rows && (e.1 == failed || e.1 in found) {
        BelowFound(g, p.rows, failed, e.0, e.1);
      }
    }
  }

  /** What depends on an orphan, or on the failed task, and has no row is an orphan too. */
  lemma BelowFound(g: Dag, rows: set<nat>, failed: nat, t: nat, d: nat)
    requires ValidDag(g) && (t, d) in g.needs && t !in rows
    ensures d == failed || d in Orphans(g, rows, failed) ==> t in Orphans(g, rows, failed)
    ensures d == failed || d in RowlessOrphans(g, rows, failed) ==> t in RowlessOrphans(g, rows, failed)
  {
    assert (t, d).0 in g.tasks;
    EdgeReaches(g.needs, t, d);
    if d in Orphans(g, rows, failed) {
      ReachesTransitive(g.needs, t, d, failed);
    }
    if d == failed || d in RowlessOrphans(g, rows, failed) {
      ExtendRowlessWalk(g, rows, t, d, failed);
    }
  }

  lemma SuspendHeld(v: RunView, failed: nat, found: seq<nat>)
    requires Held(v) && v.duty == MustSuspendBelow(failed) && ValidDag(v.g)
    requires Elements(found) == Orphans(v.g, v.p.rows, failed)
             || Elements(found) == RowlessOrphans(v.g, v.p.rows, failed)
    ensures Held(AfterSuspend(v, found))
  {
    SuspendContains(v.g, v.p, failed, Elements(found));
  }

  lemma CheckHeld(v: RunView)
    requires Held(v) && v.duty == Nothing && v.busy
    ensures Held(AfterCheck(v))
  {
  }

  // ----- What it gives -----

  /** A task without a row whose dependencies all have rows, and finished, is ready, or one of them has
      failed or was suspended. */
  lemma MissingHasCause(g: Dag, p: Progress, m: nat) returns (d: nat)
    requires m in g.tasks - p.rows && DepsOf(g, m) != {} && m !in Ready(g, p) && DepsOf(g, m) <= p.Finished()
    ensures (m, d) in g.needs && d in p.failed + p.suspended
  {
    d :| d in DepsOf(g, m) && d !in p.succeeded;
  }

  lemma DependenciesOutside(g: Dag, rows: set<nat>, m: nat)
    requires ValidDag(g) && Successors(g.needs, m) !! g.tasks - rows
    ensures DepsOf(g, m) <= rows
  {
    forall d | d in DepsOf(g, m) ensures d in rows {
      assert (m, d).1 in g.tasks;
    }
  }

  /** Any table whose starting tasks have rows and whose rows' tasks have all finished: the run is over,
      exactly if nothing is ready and nothing is left below a failed or suspended task. */
  lemma OverIff(g: Dag, p: Progress)
    requires ValidDag(g) && Roots(g) <= p.rows && p.rows == p.Finished()
    ensures g.tasks <= p.Finished() <==> Ready(g, p) == {} && Contained(g, p, Nothing)
  {
    if Ready(g, p) == {} && Contained(g, p, Nothing) {
      var missing := g.tasks - p.rows;
      if missing != {} {
        var m := MinimalMember(g.needs, missing);
        DependenciesOutside(g, p.rows, m);
        var d := MissingHasCause(g, p, m);
      }
      assert forall t :: t in g.tasks ==> t !in missing;
    }
  }

  // ----- As long as no task has ended twice -----

  /** What an exclusive, ordered run keeps in addition: causes for all suspensions, and a workspace that is
      gone once the run is over. */
  ghost predicate Clean(v: RunView) {
    Justified(v.g, v.p) && (Complete(v.g, v.run) && !v.busy ==> v.cleaned == 1)
  }

  /** Each outcome was counted, and once. */
  ghost predicate CountedOnce(v: RunView) {
    Exclusive(v.p) && Outcomes(v.run) == |v.p.Finished()|
  }

  lemma JustifiedGrows(g: Dag, p: Progress, q: Progress)
    requires Justified(g, p) && q.suspended == p.suspended && p.failed <= q.failed
    ensures Justified(g, q)
  {
    forall t | t in q.suspended ensures Blocked(g, q, t) {
      assert Blocked(g, p, t);
    }
  }

  /** If something may run next, the success was not the last outcome. */
  lemma MoreToCome(v: RunView, t: nat)
    requires Held(v) && Justified(v.g, v.p) && CountedOnce(v) && t in v.g.tasks
    requires DepsOf(v.g, t) <= v.p.succeeded && t !in v.p.succeeded && t !in v.p.failed
    ensures !Complete(v.g, v.run)
  {
    SubsetSize(v.p.Finished(), v.g.tasks);
    NotBlocked(v.g, v.p, t);
    assert t !in v.p.suspended;
  }

  lemma NotBlocked(g: Dag, p: Progress, t: nat)
    requires Exclusive(p) && DepsOf(g, t) <= p.succeeded
    ensures !Blocked(g, p, t)
  {
  }

  lemma SuccessClean(v: RunView, t: nat, next: seq<nat>)
    requires Held(v) && Clean(v) && v.duty == Nothing && t in v.p.rows && Elements(next) <= v.g.tasks
    requires var w := AfterSuccess(v, t, next);
             CountedOnce(w) && forall x :: x in next ==>
                 DepsOf(w.g, x) <= w.p.succeeded && x !in w.p.succeeded && x !in w.p.failed
    ensures Clean(AfterSuccess(v, t, next))
  {
    var w := AfterSuccess(v, t, next);
    SuccessHeld(v, t, next);
    JustifiedGrows(v.g, v.p, w.p);
    if next != [] {
      assert next[0] in Elements(next);
      MoreToCome(w, next[0]);
    }
  }

  lemma FailClean(v: RunView, t: nat)
    requires Clean(v)
    ensures Clean(AfterFail(v, t))
  {
    JustifiedGrows(v.g, v.p, AfterFail(v, t).p);
  }

  lemma InsertClean(v: RunView, t: nat)
    requires Clean(v)
    ensures Clean(AfterInsert(v, t))
  {
    JustifiedGrows(v.g, v.p, AfterInsert(v, t).p);
  }

  lemma EnqueueClean(v: RunView, todo: seq<nat>)
    requires Clean(v) && todo != []
    ensures Clean(AfterEnqueue(v, todo))
  {
    JustifiedGrows(v.g, v.p, AfterEnqueue(v, todo).p);
  }

  lemma SuspendClean(v: RunView, failed: nat, found: seq<nat>)
    requires Held(v) && Clean(v) && v.duty == MustSuspendBelow(failed) && ValidDag(v.g)
    requires Ordered(v.g, v.p) && Exclusive(v.p)
    requires Elements(found) == Orphans(v.g, v.p.rows, failed)
             || Elements(found) == RowlessOrphans(v.g, v.p.rows, failed)
    ensures Clean(AfterSuspend(v, found))
  {
    SearchesAgree(v.g, v.p, failed);
    OrphansJustified(v.g, v.p, failed);
  }

  lemma CleanSearchesAgree(v: RunView, failed: nat)
    requires Held(v) && CountedOnce(v) && Ordered(v.g, v.p) && v.duty == MustSuspendBelow(failed)
    ensures RowlessOrphans(v.g, v.p.rows, failed) == Orphans(v.g, v.p.rows, failed)
  {
    SearchesAgree(v.g, v.p, failed);
  }

  lemma CheckClean(v: RunView)
    requires Held(v) && Clean(v) && v.busy
    ensures Clean(AfterCheck(v))
  {
    JustifiedGrows(v.g, v.p, AfterCheck(v).p);
  }

  lemma NewRunClean(g: Dag, name: string, dagId: nat)
    requires g.tasks != {}
    ensures Clean(NewRun(g, name, dagId))
  {
  }

  lemma CleanedOnceIff(v: RunView)
    requires Held(v) && Clean(v) && CountedOnce(v)
    ensures v.cleaned == if v.p.Finished() == v.g.tasks && !v.busy then 1 else 0
  {
    SubsetSize(v.p.Finished(), v.g.tasks);
  }
}
