/** The database managers: each operation as the statements of its transaction. The two backends differ
    in ClaimTasks, in the lease they write and in MarkConnectingTasksAsSuspended. */
module Managers {
  import opened Prelude
  import opened Graphs
  import opened DagTypes
  import opened Tables
  import opened RunProgress
  import opened RunnableTasks
  import opened Claims
  import opened Store
  import Catalogs
  import Leases
  import Suspension

  /** lease_expires_at: SQLite stores the whole second in which the lease ends, PostgreSQL adds the
      whole seconds of the lease to the current time. */
  function LeaseEnd(backend: Backend, now: int, ttl: nat): int {
    if backend == Sqlite then (now + ttl) / Leases.SECOND * Leases.SECOND else now + Leases.LeaseLength(ttl)
  }

  /** What that is, in numbers: on PostgreSQL the whole seconds of the lease from now on; on SQLite the last
      whole second before the lease is over. */
  lemma LeaseEndMeans(backend: Backend, now: int, ttl: nat)
    ensures backend == Postgres ==> LeaseEnd(backend, now, ttl) == now + ttl / 1_000_000_000 * 1_000_000_000
    ensures backend == Sqlite ==>
              && LeaseEnd(backend, now, ttl) % 1_000_000_000 == 0
              && now + ttl - 1_000_000_000 < LeaseEnd(backend, now, ttl) <= now + ttl
  {
    if backend == Sqlite {
      WholeSeconds(now + ttl);
    }
  }

  lemma WholeSeconds(time: int)
    ensures (time / 1_000_000_000 * 1_000_000_000) % 1_000_000_000 == 0
    ensures time - 1_000_000_000 < time / 1_000_000_000 * 1_000_000_000 <= time
  {
  }

  /** after is row, claimed by the worker under a lease written at time now. */
  ghost predicate IsLeased(row: TaskRun, after: TaskRun, worker: string, backend: Backend, now: int, ttl: nat) {
    && after.claim.Some? && after == row.(claim := Some(Claim(worker, after.claim.value.leaseExpiresAt)))
    && (backend == Postgres ==> after.claim.value.leaseExpiresAt == now + ttl / 1_000_000_000 * 1_000_000_000)
    && (backend == Sqlite ==>
          && after.claim.value.leaseExpiresAt % 1_000_000_000 == 0
          && now + ttl - 1_000_000_000 < after.claim.value.leaseExpiresAt <= now + ttl)
  }

  /** On PostgreSQL such a row is where the timing of leases starts: its worker keeps the claim against
      everybody else exactly if its renewals are late by less than the slack. */
  lemma LeasedIsProtectedIff(row: TaskRun, after: TaskRun, worker: string, now: int, ttl: nat, delay: int)
    requires row.status == Pending && IsLeased(row, after, worker, Postgres, now, ttl)
    ensures (forall trace :: Leases.OnTime(trace, worker, now, ttl, delay, 0, now) ==>
               ClaimedBy(Leases.ApplyAll(after, ttl, trace), worker)) <==>
            delay <= ttl / 1_000_000_000 * 1_000_000_000 - ttl / 2
  {
    assert after == Leases.JustClaimed(row, worker, now, ttl);
    Leases.ProtectedIffWithinSlack(row, worker, now, ttl, delay);
    if delay > ttl / 1_000_000_000 * 1_000_000_000 - ttl / 2 {
      var trace := Leases.LateRenewalLosesClaim(row, worker, now, ttl, delay);
    }
  }

  lemma ClaimedRows(rows: seq<TaskRun>, after: seq<TaskRun>, claims: seq<nat>, worker: string, backend: Backend,
                    now: int, ttl: nat)
    requires forall i :: i in claims ==> i < |rows| && Claimable(backend, rows[i], now)
    requires after == ClaimRows(rows, Elements(claims), worker, LeaseEnd(backend, now, ttl))
    ensures |after| == |rows|
    ensures forall i :: 0 <= i < |rows| ==>
              if i in claims then IsLeased(rows[i], after[i], worker, backend, now, ttl) else after[i] == rows[i]
    ensures backend == Postgres ==>
              forall i :: i in claims ==>
                after[i] == Leases.JustClaimed(rows[i], worker, now, ttl) ==
                Leases.Apply(rows[i], ttl, Leases.At(now, Leases.ClaimMany(worker)))
  {
    LeaseEndMeans(backend, now, ttl);
  }

  /** A recovered row: an expired claim of a pending row is cleared, every other row is the same. */
  ghost predicate IsRecovered(row: TaskRun, after: TaskRun, now: int) {
    after == if row.status == Pending && row.claim.Some? && row.claim.value.leaseExpiresAt <= now
             then TaskRun(row.runId, row.taskId, Pending, None) else row
  }

  /** The newest version of a DAG: each insert under a name makes a newer version. */
  ghost predicate IsLatest(dags: seq<DagVersion>, name: string, d: nat) {
    d < |dags| && dags[d].name == name && forall i :: d < i < |dags| ==> dags[i].name != name
  }

  /** The update of RecoverExpiredLeases, row by row, and the number of rows it affects. */
  method ClearExpired(rows: seq<TaskRun>, now: int) returns (after: seq<TaskRun>, released: nat)
    ensures after == RecoverRows(rows, now)
    ensures released == |set i | 0 <= i < |rows| && Recovered(rows[i], now) != rows[i]|
  {
    after, released := rows, 0;
    ghost var changed: set<int> := {};
    for i := 0 to |rows|
      invariant |after| == |rows| && forall k :: 0 <= k < |rows| ==>
                after[k] == if k < i then Recovered(rows[k], now) else rows[k]
      invariant changed == set k | 0 <= k < i && Recovered(rows[k], now) != rows[k]
      invariant released == |changed|
    {
      var row := rows[i];
      if row.status == Pending && row.claim.Some? && row.claim.value.leaseExpiresAt <= now {
        after := after[i := row.(claim := None)];
        released, changed := released + 1, changed + {i};
      }
    }
  }

  /** A starting task by the tables: one of the version that no Dependencies row is of. */
  lemma RootsByRows(c: Catalog, dagId: nat, t: nat)
    ensures t in Roots(DagOf(c, dagId)) <==>
            && t < |c.tasks| && c.tasks[t].dagId == dagId
            && forall i :: 0 <= i < |c.deps| ==> c.deps[i].taskId != t
  {
    if t in TasksOf(c, dagId) {
      DepsAreRows(c, dagId, t);
      if i :| 0 <= i < |c.deps| && c.deps[i].taskId == t {
        assert c.deps[i].dependsOn in DepsOf(DagOf(c, dagId), t);
      }
    }
  }

  class DAGManager {
    const backend: Backend
    var catalog: Catalog
    var taskRuns: seq<TaskRun>
    var dagRuns: seq<DagRun>

    ghost function Contents(): Db
      reads this
    {
      Db(taskRuns, dagRuns)
    }

    /** The schema's foreign keys hold. */
    ghost predicate Valid()
      reads this
    {
      && WellFormed(catalog) && Keyed(catalog, Contents())
      && forall i :: 0 <= i < |taskRuns| ==> taskRuns[i].taskId < |catalog.tasks|
    }

    constructor (backend: Backend)
      ensures Valid() && this.backend == backend
      ensures catalog == Catalog([], [], []) && Contents() == Db([], [])
    {
      this.backend := backend;
      catalog := Catalog([], [], []);
      taskRuns := [];
      dagRuns := [];
    }

    /** Rolls back exactly if a dependency names no task. What ValidateDAG has accepted keeps the
        catalog well-formed. */
    method InsertDAG(name: string, specs: seq<TaskSpec>) returns (ok: bool)
      requires Valid()
      modifies this`catalog
      ensures ok <==> DependenciesExist(specs)
      ensures if ok then Catalogs.Inserted(old(catalog), catalog, name, specs) else catalog == old(catalog)
      ensures ok ==>
                && catalog.dags == old(catalog).dags + [DagVersion(name, |specs|)]
                && |catalog.tasks| == |old(catalog).tasks| + |specs|
                && catalog.tasks[..|old(catalog).tasks|] == old(catalog).tasks
                && forall i :: 0 <= i < |specs| ==>
                     catalog.tasks[|old(catalog).tasks| + i] ==
                     DagTask(|old(catalog).dags|, specs[i].name,
                             if specs[i].taskRef.Some? then specs[i].taskRef.value.version else 1)
      ensures Accepted(specs) ==>
                && Valid()
                && forall d :: 0 <= d < |old(catalog).dags| ==> DagOf(catalog, d) == DagOf(old(catalog), d)
    {
      var inserted := Catalogs.InsertDag(catalog, name, specs);
      ok := inserted.Some?;
      if ok {
        Catalogs.InsertOnlyAdds(catalog, inserted.value, name, specs);
        if Accepted(specs) {
          Catalogs.InsertKeepsWellFormed(catalog, inserted.value, name, specs);
        }
        catalog := inserted.value;
      }
    }

    // ----- Starting a run -----

    /** dagNameToDagId. */
    method DagNameToDagId(name: string) returns (dagId: Option<nat>)
      ensures dagId.Some? ==> IsLatest(catalog.dags, name, dagId.value)
      ensures dagId.None? ==> forall i :: 0 <= i < |catalog.dags| ==> catalog.dags[i].name != name
    {
      for i := |catalog.dags| downto 0
        invariant forall k :: i <= k < |catalog.dags| ==> catalog.dags[k].name != name
      {
        if catalog.dags[i].name == name {
          return Some(i);
        }
      }
      return None;
    }

    /** An existing run of that name is returned as it is. */
    method CreateDAGRun(name: string, dagName: string) returns (runId: Option<nat>)
      requires Valid()
      modifies this`dagRuns
      ensures Valid()
      ensures runId.None? <==> forall i :: 0 <= i < |catalog.dags| ==> catalog.dags[i].name != dagName
      ensures runId.None? ==> dagRuns == old(dagRuns)
      ensures runId.Some? ==> runId.value < |dagRuns| && dagRuns[runId.value].name == name
      ensures runId.Some? ==>
                if FindRun(old(dagRuns), name).Some? then runId == FindRun(old(dagRuns), name)
                    && dagRuns == old(dagRuns)
                else exists d :: IsLatest(catalog.dags, dagName, d) && Contents() == AddRun(old(Contents()), name, d)
      ensures runId.Some? && (forall i :: 0 <= i < |old(dagRuns)| ==> old(dagRuns)[i].name != name) ==>
                && runId.value == |old(dagRuns)| && |dagRuns| == |old(dagRuns)| + 1
                && dagRuns[..|old(dagRuns)|] == old(dagRuns)
                && IsLatest(catalog.dags, dagName, dagRuns[runId.value].dagId)
                && dagRuns[runId.value] == DagRun(name, dagRuns[runId.value].dagId, RunRunning, 0, 0, 0)
      ensures (exists i :: 0 <= i < |old(dagRuns)| && old(dagRuns)[i].name == name) ==> dagRuns == old(dagRuns)
    {
      var dagId := DagNameToDagId(dagName);
      if dagId.None? {
        return None;
      }
      runId := FindRun(dagRuns, name);
      if runId.None? {
        runId := Some(|dagRuns|);
        dagRuns := dagRuns + [DagRun(name, dagId.value, RunRunning, 0, 0, 0)];
        assert Contents() == AddRun(old(Contents()), name, dagId.value);
      }
    }

    /** The tasks without dependencies of the latest version, if the run is of that version. */
    method GetStartingTasks(dagName: string, runId: nat) returns (tasks: seq<nat>)
      requires Valid()
      ensures Distinct(tasks)
      ensures forall t :: t in tasks <==>
                && runId < |dagRuns| && IsLatest(catalog.dags, dagName, dagRuns[runId].dagId)
                && t in Roots(DagOf(catalog, dagRuns[runId].dagId))
      ensures forall t: nat :: t in tasks <==>
                && runId < |dagRuns| && IsLatest(catalog.dags, dagName, dagRuns[runId].dagId)
                && t < |catalog.tasks| && catalog.tasks[t].dagId == dagRuns[runId].dagId
                && forall i :: 0 <= i < |catalog.deps| ==> catalog.deps[i].taskId != t
    {
      tasks := [];
      var dagId := DagNameToDagId(dagName);
      if dagId.None? || runId >= |dagRuns| || dagRuns[runId].dagId != dagId.value {
        return;
      }
      for t := 0 to |catalog.tasks|
        invariant Distinct(tasks)
        invariant forall x :: x in tasks <==> x < t && x in Roots(DagOf(catalog, dagId.value))
      {
        assert t !in tasks;
        if catalog.tasks[t].dagId == dagId.value && DepsOf(DagOf(catalog, dagId.value), t) == {} {
          tasks := tasks + [t];
        }
      }
      forall t: nat { RootsByRows(catalog, dagId.value, t); }
    }

    method TaskRunExists(runId: nat, taskId: nat) returns (found: bool)
      ensures found <==> taskId in TasksIn(taskRuns, runId)
      ensures found <==> exists i :: 0 <= i < |taskRuns| && taskRuns[i].runId == runId && taskRuns[i].taskId == taskId
    {
      for i := 0 to |taskRuns|
        invariant forall k :: 0 <= k < i ==> taskRuns[k].runId != runId || taskRuns[k].taskId != taskId
      {
        if taskRuns[i].runId == runId && taskRuns[i].taskId == taskId {
          return true;
        }
      }
      return false;
    }

    predicate Known(runId: nat, taskId: nat)
      reads this
    {
      runId < |dagRuns| && taskId < |catalog.tasks|
    }

    /** PostgreSQL refuses a row whose run or task does not exist; SQLite is not told to. */
    method AddPendingTaskRun(runId: nat, taskId: nat) returns (taskRunId: Option<nat>)
      requires Valid()
      modifies this`taskRuns
      ensures taskRunId.None? <==> backend == Postgres && !Known(runId, taskId)
      ensures taskRunId.Some? <==> backend == Sqlite || (runId < |dagRuns| && taskId < |catalog.tasks|)
      ensures taskRunId.None? ==> taskRuns == old(taskRuns)
      ensures taskRunId.Some? ==>
              && Contents() == AddPending(old(Contents()), runId, taskId)
              && taskRunId.value == |old(taskRuns)|
      ensures taskRunId.Some? ==> taskRuns == old(taskRuns) + [TaskRun(runId, taskId, Pending, None)]
      ensures Known(runId, taskId) || taskRunId.None? ==> Valid()
    {
      if backend == Postgres && !Known(runId, taskId) {
        return None;
      }
      taskRunId := Some(|taskRuns|);
      taskRuns := taskRuns + [TaskRun(runId, taskId, Pending, None)];
    }

    // ----- Claims -----

    /** Up to limit rows that are up for claiming, each once; fewer only if there are no more. Passed over
        are rows that are scheduled for later and, on PostgreSQL, rows that another transaction has locked. */
    method ClaimTasks(limit: nat, workerId: string, now: int, leaseTTL: nat, passedOver: set<nat>)
      returns (claims: seq<nat>)
      requires Valid()
      modifies this`taskRuns
      ensures Valid() && Distinct(claims) && |claims| <= limit
      ensures forall i :: i in claims ==>
              && i < |old(taskRuns)| && i !in passedOver
              && Claimable(backend, old(taskRuns)[i], now)
      ensures |claims| < limit ==>
                forall i: nat :: i < |old(taskRuns)| ==>
                  i in passedOver || !Claimable(backend, old(taskRuns)[i], now) || i in claims
      ensures taskRuns == ClaimRows(old(taskRuns), Elements(claims), workerId, LeaseEnd(backend, now, leaseTTL))
      ensures forall i :: i in claims ==> old(taskRuns)[i].status == Pending
      ensures backend == Postgres ==> forall i :: i in claims ==>
                old(taskRuns)[i].claim.None? || old(taskRuns)[i].claim.value.leaseExpiresAt <= now
      ensures |claims| < limit ==> forall i: nat ::
                i < |old(taskRuns)| && old(taskRuns)[i].status == Pending && old(taskRuns)[i].claim.None? ==>
                  i in passedOver || i in claims
      ensures |claims| < limit ==> forall i: nat ::
                i < |old(taskRuns)| && old(taskRuns)[i].status == Pending && old(taskRuns)[i].claim.Some?
                && (backend == Sqlite || old(taskRuns)[i].claim.value.leaseExpiresAt <= now) ==>
                  i in passedOver || i in claims
      ensures |taskRuns| == |old(taskRuns)|
      ensures forall i :: 0 <= i < |taskRuns| ==>
                if i in claims then IsLeased(old(taskRuns)[i], taskRuns[i], workerId, backend, now, leaseTTL)
                else taskRuns[i] == old(taskRuns)[i]
      ensures backend == Postgres ==>
                forall i :: i in claims ==>
                  taskRuns[i] == Leases.JustClaimed(old(taskRuns)[i], workerId, now, leaseTTL) ==
                  Leases.Apply(old(taskRuns)[i], leaseTTL, Leases.At(now, Leases.ClaimMany(workerId)))
    {
      claims := SelectClaimable(limit, now, passedOver);
      WriteClaims(claims, workerId, LeaseEnd(backend, now, leaseTTL));
      ClaimedRows(old(taskRuns), taskRuns, claims, workerId, backend, now, leaseTTL);
    }

    /** The select, or the candidates of the update. */
    method SelectClaimable(limit: nat, now: int, passedOver: set<nat>) returns (claims: seq<nat>)
      ensures Distinct(claims) && |claims| <= limit
      ensures forall i :: i in claims ==>
                i < |taskRuns| && i !in passedOver && Claimable(backend, taskRuns[i], now)
      ensures |claims| < limit ==> forall i: nat ::
                i < |taskRuns| ==> i in passedOver || !Claimable(backend, taskRuns[i], now) || i in claims
    {
      claims := [];
      for i := 0 to |taskRuns|
        invariant Distinct(claims) && |claims| <= limit
        invariant forall k :: k in claims ==> k < i && k !in passedOver && Claimable(backend, taskRuns[k], now)
        invariant |claims| < limit ==> forall k: nat ::
                  k < i && k !in passedOver && Claimable(backend, taskRuns[k], now) ==> k in claims
      {
        if |claims| < limit && i !in passedOver && Claimable(backend, taskRuns[i], now) {
          claims := claims + [i];
        }
      }
    }

    /** The update. */
    method WriteClaims(claims: seq<nat>, workerId: string, lease: int)
      requires Valid() && forall i :: i in claims ==> i < |taskRuns|
      modifies this`taskRuns
      ensures Valid() && taskRuns == ClaimRows(old(taskRuns), Elements(claims), workerId, lease)
    {
      for n := 0 to |claims|
        invariant |taskRuns| == |old(taskRuns)|
        invariant forall i :: 0 <= i < |taskRuns| ==>
                    taskRuns[i] == if i in claims[..n] then WithClaim(old(taskRuns)[i], workerId, lease)
                                   else old(taskRuns)[i]
      {
        var id := claims[n];
        assert id in claims;
        taskRuns := taskRuns[id := taskRuns[id].(claim := Some(Claim(workerId, lease)))];
        assert claims[..n + 1] == claims[..n] + [id];
      }
      assert claims[..|claims|] == claims;
    }

    method ClaimTaskByID(taskRunId: nat, workerId: string, now: int, leaseTTL: nat) returns (ok: bool)
      requires Valid()
      modifies this`taskRuns
      ensures Valid() && (ok <==> taskRunId < |old(taskRuns)| && ClaimableById(old(taskRuns)[taskRunId], now))
      ensures taskRuns == if ok then old(taskRuns)[taskRunId :=
              WithClaim(old(taskRuns)[taskRunId], workerId, LeaseEnd(backend, now, leaseTTL))]
                          else old(taskRuns)
      ensures ok <==>
              && taskRunId < |old(taskRuns)| && old(taskRuns)[taskRunId].status == Pending
              && (old(taskRuns)[taskRunId].claim.None? || old(taskRuns)[taskRunId].claim.value.leaseExpiresAt <= now)
      ensures ok ==> IsLeased(old(taskRuns)[taskRunId], taskRuns[taskRunId], workerId, backend, now, leaseTTL)
      ensures ok && backend == Postgres ==>
                taskRuns[taskRunId] ==
                Leases.Apply(old(taskRuns)[taskRunId], leaseTTL, Leases.At(now, Leases.ClaimOne(workerId)))
    {
      LeaseEndMeans(backend, now, leaseTTL);
      ok := taskRunId < |taskRuns| && taskRuns[taskRunId].status == Pending
            && (taskRuns[taskRunId].claim.None? || taskRuns[taskRunId].claim.value.leaseExpiresAt <= now);
      if ok {
        taskRuns := taskRuns[taskRunId := taskRuns[taskRunId].(claim :=
            Some(Claim(workerId, LeaseEnd(backend, now, leaseTTL))))];
      }
    }

    /** No row updated is an error. */
    method RenewLease(taskRunId: nat, workerId: string, now: int, leaseTTL: nat) returns (ok: bool)
      requires Valid()
      modifies this`taskRuns
      ensures Valid() && (ok <==> taskRunId < |old(taskRuns)| && ClaimedBy(old(taskRuns)[taskRunId], workerId))
      ensures taskRuns == if ok then old(taskRuns)[taskRunId :=
              Renewed(old(taskRuns)[taskRunId], workerId, LeaseEnd(backend, now, leaseTTL))]
                          else old(taskRuns)
      ensures ok <==>
              && taskRunId < |old(taskRuns)| && old(taskRuns)[taskRunId].claim.Some?
              && old(taskRuns)[taskRunId].claim.value.worker == workerId
      ensures ok ==> IsLeased(old(taskRuns)[taskRunId], taskRuns[taskRunId], workerId, backend, now, leaseTTL)
      ensures ok && backend == Postgres ==>
                taskRuns[taskRunId] ==
                Leases.Apply(old(taskRuns)[taskRunId], leaseTTL, Leases.At(now, Leases.Renew(workerId)))
    {
      LeaseEndMeans(backend, now, leaseTTL);
      ok := taskRunId < |taskRuns| && taskRuns[taskRunId].claim.Some?
          && taskRuns[taskRunId].claim.value.worker == workerId;
      if ok {
        taskRuns := taskRuns[taskRunId := taskRuns[taskRunId].(claim :=
            Some(Claim(workerId, LeaseEnd(backend, now, leaseTTL))))];
      }
    }

    method FinalizeClaimToRunning(taskRunId: nat, workerId: string) returns (ok: bool)
      requires Valid()
      modifies this`taskRuns
      ensures Valid() && (ok <==> taskRunId < |old(taskRuns)| && ClaimedBy(old(taskRuns)[taskRunId], workerId))
      ensures taskRuns == if ok then old(taskRuns)[taskRunId := Finalised(old(taskRuns)[taskRunId], workerId)]
              else old(taskRuns)
      ensures ok <==>
              && taskRunId < |old(taskRuns)| && old(taskRuns)[taskRunId].claim.Some?
              && old(taskRuns)[taskRunId].claim.value.worker == workerId
      ensures ok ==> taskRuns == old(taskRuns)[taskRunId :=
                TaskRun(old(taskRuns)[taskRunId].runId, old(taskRuns)[taskRunId].taskId, Running, None)]
      ensures ok ==> forall now, ttl ::
                taskRuns[taskRunId] ==
                Leases.Apply(old(taskRuns)[taskRunId], ttl, Leases.At(now, Leases.Finalise(workerId)))
    {
      ok := taskRunId < |taskRuns| && taskRuns[taskRunId].claim.Some?
          && taskRuns[taskRunId].claim.value.worker == workerId;
      if ok {
        taskRuns := taskRuns[taskRunId := taskRuns[taskRunId].(status := Running, claim := None)];
      }
    }

    method RecoverExpiredLeases(now: int) returns (released: nat)
      requires Valid()
      modifies this`taskRuns
      ensures Valid() && taskRuns == RecoverRows(old(taskRuns), now)
      ensures released == |set i | 0 <= i < |old(taskRuns)| && Recovered(old(taskRuns)[i], now) != old(taskRuns)[i]|
      ensures |taskRuns| == |old(taskRuns)|
      ensures forall i :: 0 <= i < |taskRuns| ==> IsRecovered(old(taskRuns)[i], taskRuns[i], now)
      ensures forall i, ttl :: 0 <= i < |taskRuns| ==>
                taskRuns[i] == Leases.Apply(old(taskRuns)[i], ttl, Leases.At(now, Leases.Recover))
    {
      var rows;
      rows, released := ClearExpired(taskRuns, now);
      taskRuns := rows;
    }

    // ----- Outcomes -----

    /** getNextRunnableTasks, with the id the caller hands down: that of the task run. */
    method GetNextRunnableTasks(taskRunId: nat, runId: nat, dagId: nat) returns (ids: seq<nat>)
      ensures Distinct(ids) && Elements(ids) == RunnableIds(catalog, taskRuns, dagId, runId, taskRunId)
      ensures forall t, i :: t in ids && 0 <= i < |taskRuns|
                             && taskRuns[i].runId == runId && taskRuns[i].taskId == t ==>
                taskRuns[i].status == Pending || taskRuns[i].status == Suspended
      ensures forall t, i :: t in ids && 0 <= i < |taskRuns| && taskRuns[i].runId == taskRunId ==>
                taskRuns[i].taskId != t
    {
      var dependencyCounts := DependencyCounts(catalog, dagId);
      var metDependencies := MetDependencies(catalog, taskRuns, dagId, runId);
      ids := GetRunnableTasks(dependencyCounts, metDependencies, taskRuns, taskRunId);
      forall t | t in ids
        ensures forall i :: 0 <= i < |taskRuns| && taskRuns[i].runId == runId && taskRuns[i].taskId == t ==>
                  taskRuns[i].status == Pending || taskRuns[i].status == Suspended
        ensures forall i :: 0 <= i < |taskRuns| && taskRuns[i].runId == taskRunId ==> taskRuns[i].taskId != t
      {
        assert t in Elements(ids);
        ReturnedNotStarted(catalog, taskRuns, dagId, runId, taskRunId, t);
      }
    }

    /** None is the error for an unknown row, which rolls everything back. */
    method MarkSuccessAndGetNextTasks(taskRunId: nat) returns (next: Option<seq<nat>>)
      requires Valid()
      modifies this`taskRuns, this`dagRuns
      ensures Valid() && (next.Some? <==> taskRunId < |old(taskRuns)|)
      ensures next.None? ==> Contents() == old(Contents())
      ensures next.Some? ==>
                && Contents() == MarkSuccess(catalog, old(Contents()), taskRunId)
                && Distinct(next.value)
                && Elements(next.value) == NextIds(catalog, old(Contents()), taskRunId, taskRunId)
      ensures next.Some? ==>
                && taskRuns == old(taskRuns)[taskRunId := old(taskRuns)[taskRunId].(status := Success)]
                && var r := old(taskRuns)[taskRunId].runId;
                   var run := old(dagRuns)[r];
                   var all := catalog.dags[run.dagId].taskCount == run.successfulCount + 1;
                   && dagRuns == old(dagRuns)[r := run.(successfulCount := run.successfulCount + 1,
                                                        status := if all then RunSuccess else run.status)]
                   && (all ==> next.value == [])
                   && forall t, i :: t in next.value && 0 <= i < |taskRuns|
                                     && taskRuns[i].runId == r && taskRuns[i].taskId == t ==>
                        taskRuns[i].status == Pending || taskRuns[i].status == Suspended
    {
      if taskRunId >= |taskRuns| {
        return None;
      }
      var runId := taskRuns[taskRunId].runId;
      taskRuns := taskRuns[taskRunId := taskRuns[taskRunId].(status := Success)];
      dagRuns := dagRuns[runId := dagRuns[runId].(successfulCount := dagRuns[runId].successfulCount + 1)];
      if catalog.dags[dagRuns[runId].dagId].taskCount == dagRuns[runId].successfulCount {
        dagRuns := dagRuns[runId := dagRuns[runId].(status := RunSuccess)];
        return Some([]);
      }
      var ids := GetNextRunnableTasks(taskRunId, runId, dagRuns[runId].dagId);
      return Some(ids);
    }

    /** An unknown row is no error: nothing is updated. */
    method MarkTaskAsFailed(taskRunId: nat)
      requires Valid()
      modifies this`taskRuns, this`dagRuns
      ensures Valid()
      ensures Contents() == if taskRunId < |old(taskRuns)| then MarkFailed(catalog, old(Contents()), taskRunId)
              else old(Contents())
      ensures taskRunId < |old(taskRuns)| ==>
                && taskRuns == old(taskRuns)[taskRunId := old(taskRuns)[taskRunId].(status := Failed)]
                && var r := old(taskRuns)[taskRunId].runId;
                   var run := old(dagRuns)[r];
                   dagRuns == old(dagRuns)[r := run.(failedCount := run.failedCount + 1, status := RunFailed)]
      ensures taskRunId >= |old(taskRuns)| ==> taskRuns == old(taskRuns) && dagRuns == old(dagRuns)
    {
      if taskRunId < |taskRuns| {
        var runId := taskRuns[taskRunId].runId;
        taskRuns := taskRuns[taskRunId := taskRuns[taskRunId].(status := Failed)];
        dagRuns := dagRuns[runId := dagRuns[runId].(failedCount := dagRuns[runId].failedCount + 1,
            status := RunFailed)];
      }
    }

    function Name(t: nat): string
      reads this`catalog
    {
      if t < |catalog.tasks| then catalog.tasks[t].name else ""
    }

    /** What the backend's search finds. SQLite looks at the dependencies of the run's DAG version,
        PostgreSQL at those of the failed task, whatever version it is of. */
    ghost function Found(dagRunId: nat, taskRunId: nat): set<nat>
      reads this
      requires taskRunId < |taskRuns|
    {
      var start, rows := taskRuns[taskRunId].taskId, TasksIn(taskRuns, dagRunId);
      if backend == Sqlite then
        if dagRunId < |dagRuns| then RowlessOrphans(DagOf(catalog, dagRuns[dagRunId].dagId), rows, start) else {}
      else if start < |catalog.tasks| then Orphans(DagOf(catalog, catalog.tasks[start].dagId), rows, start) else {}
    }

    /** For a row of one of the run's own tasks, which is what the worker passes, that is what the run
        engine says. */
    lemma FoundInOwnVersion(dagRunId: nat, taskRunId: nat)
      requires dagRunId < |dagRuns| && taskRunId < |taskRuns|
      requires taskRuns[taskRunId].taskId in TasksOf(catalog, dagRuns[dagRunId].dagId)
      ensures Found(dagRunId, taskRunId) == SuspendedBy(catalog, Contents(), backend, dagRunId, taskRunId)
    {
    }

    method Search(dagRunId: nat, startingTask: nat) returns (updates: seq<nat>)
      requires Valid() && startingTask < |catalog.tasks|
      ensures Distinct(updates) && forall t :: t in updates ==> t < |catalog.tasks|
      ensures Elements(updates) ==
              if backend == Postgres then Orphans(DagOf(catalog, catalog.tasks[startingTask].dagId),
                  TasksIn(taskRuns, dagRunId), startingTask)
              else if dagRunId < |dagRuns| then RowlessOrphans(DagOf(catalog, dagRuns[dagRunId].dagId),
                  TasksIn(taskRuns, dagRunId), startingTask)
              else {}
    {
      updates := [];
      if backend == Postgres {
        updates := Suspension.RecursiveQuery(catalog, catalog.tasks[startingTask].dagId, TasksIn(taskRuns, dagRunId),
            startingTask);
      } else if dagRunId < |dagRuns| {
        updates := Suspension.StackSearch(catalog, dagRuns[dagRunId].dagId, TasksIn(taskRuns, dagRunId), startingTask);
      }
      forall t | t in updates ensures t < |catalog.tasks| {
        assert t in Elements(updates);
      }
    }

    /** Returns the names of the suspended tasks, for the webhooks; None is an error, which rolls back.
        An unknown row is an error on SQLite only, tasks to suspend in an unknown run on PostgreSQL only. */
    method MarkConnectingTasksAsSuspended(dagRunId: nat, taskRunId: nat)
      returns (names: Option<seq<string>>, ghost found: seq<nat>)
      requires Valid()
      modifies this`taskRuns, this`dagRuns
      ensures Valid()
      ensures Distinct(found) && Elements(found) == if taskRunId < |old(taskRuns)|
              then old(Found(dagRunId, taskRunId)) else {}
      ensures names.None? <==>
                if taskRunId >= |old(taskRuns)| then backend == Sqlite
                else backend == Postgres && dagRunId >= |old(dagRuns)| && found != []
      ensures names.None? || found == [] ==> Contents() == old(Contents())
      ensures names.Some? && found != [] ==>
              && dagRunId < |old(dagRuns)|
              && Contents() == Suspend(old(Contents()), dagRunId, found)
      ensures names.Some? ==> names.value == seq(|found|, i requires 0 <= i < |found| reads this => Name(found[i]))
      ensures names.Some? ==> |names.value| == |found| && forall i :: 0 <= i < |found| ==>
                found[i] < |catalog.tasks| && names.value[i] == catalog.tasks[found[i]].name
      ensures names.Some? && found != [] ==>
                && |taskRuns| == |old(taskRuns)| + |found| && taskRuns[..|old(taskRuns)|] == old(taskRuns)
                && (forall i :: 0 <= i < |found| ==>
                      taskRuns[|old(taskRuns)| + i] == TaskRun(dagRunId, found[i], Suspended, None))
                && dagRuns == old(dagRuns)[dagRunId := old(dagRuns)[dagRunId].(suspendedCount :=
                                old(dagRuns)[dagRunId].suspendedCount + |found|)]
    {
      found := [];
      if taskRunId >= |taskRuns| {
        return if backend == Sqlite then None else Some([]), found;
      }
      var updates := Search(dagRunId, taskRuns[taskRunId].taskId);
      found := updates;
      if updates == [] {
        return Some([]), found;
      }
      assert Elements(updates) != {} by {
        assert updates[0] in Elements(updates);
      }
      if dagRunId >= |dagRuns| {
        return None, found;
      }
      forall i | 0 <= i < |updates| ensures updates[i] < |catalog.tasks| {
        assert updates[i] in updates;
      }
      InsertSuspended(dagRunId, updates);
      var result := [];
      for i := 0 to |updates|
        invariant |result| == i && forall k :: 0 <= k < i ==> result[k] == Name(updates[k])
      {
        result := result + [Name(updates[i])];
      }
      names := Some(result);
    }

    /** The inserts and the counter. */
    method InsertSuspended(dagRunId: nat, updates: seq<nat>)
      requires Valid() && dagRunId < |dagRuns| && forall t :: t in updates ==> t < |catalog.tasks|
      modifies this`taskRuns, this`dagRuns
      ensures Valid() && Contents() == Suspend(old(Contents()), dagRunId, updates)
    {
      for i := 0 to |updates|
        invariant dagRuns == old(dagRuns) && taskRuns == old(taskRuns) + SuspendedRows(dagRunId, updates[..i])
      {
        taskRuns := taskRuns + [TaskRun(dagRunId, updates[i], Suspended, None)];
        assert SuspendedRows(dagRunId, updates[..i + 1]) ==
               SuspendedRows(dagRunId, updates[..i]) + [NewRow(dagRunId, updates[i], Suspended)];
      }
      assert updates[..|updates|] == updates;
      forall i | |old(taskRuns)| <= i < |taskRuns|
        ensures taskRuns[i].runId == dagRunId && taskRuns[i].taskId < |catalog.tasks|
      {
        assert updates[i - |old(taskRuns)|] in updates;
      }
      dagRuns := dagRuns[dagRunId := dagRuns[dagRunId].(suspendedCount :=
          dagRuns[dagRunId].suspendedCount + |updates|)];
    }

    /** None is the error for an unknown run. */
    method CheckIfAllTasksDone(dagRunId: nat) returns (done: Option<bool>)
      ensures done == if dagRunId < |dagRuns| then Some(AllTasksDone(catalog, Contents(), dagRunId)) else None
      ensures done.Some? ==>
                var run := dagRuns[dagRunId];
                done.value <==>
                  |set t | 0 <= t < |catalog.tasks| && catalog.tasks[t].dagId == run.dagId| ==
                  run.successfulCount + run.failedCount + run.suspendedCount
    {
      if dagRunId >= |dagRuns| {
        return None;
      }
      var taskCount := 0;
      ghost var counted: set<nat> := {};
      for t := 0 to |catalog.tasks|
        invariant counted == set x | 0 <= x < t && catalog.tasks[x].dagId == dagRuns[dagRunId].dagId
        invariant taskCount == |counted|
      {
        if catalog.tasks[t].dagId == dagRuns[dagRunId].dagId {
          taskCount, counted := taskCount + 1, counted + {t};
        }
      }
      assert counted == TasksOf(catalog, dagRuns[dagRunId].dagId);
      var run := dagRuns[dagRunId];
      return Some(taskCount == run.successfulCount + run.failedCount + run.suspendedCount);
    }
  }
}
