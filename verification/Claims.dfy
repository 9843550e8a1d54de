/** Claiming, renewing, recovering and finalising Task_Runs rows: the SQL updates of both backends,
    row by row. */
module Claims {
  import opened Prelude
  import opened Tables

  datatype Backend = Sqlite | Postgres

  predicate Expired(row: TaskRun, now: int) {
    row.claim.Some? && row.claim.value.leaseExpiresAt <= now
  }

  predicate ClaimedBy(row: TaskRun, worker: string) {
    row.claim.Some? && row.claim.value.worker == worker
  }

  /** The guard of ClaimTasks: SQLite does not look at an existing claim. */
  predicate Claimable(backend: Backend, row: TaskRun, now: int) {
    row.status == Pending && (backend == Sqlite || row.claim.None? || Expired(row, now))
  }

  /** The guard of ClaimTaskByID, the same on both backends. */
  predicate ClaimableById(row: TaskRun, now: int) {
    row.status == Pending && (row.claim.None? || Expired(row, now))
  }

  function WithClaim(row: TaskRun, worker: string, lease: int): TaskRun {
    row.(claim := Some(Claim(worker, lease)))
  }

  /** RenewLease touches the row only if the worker holds its claim. */
  function Renewed(row: TaskRun, worker: string, lease: int): TaskRun {
    if ClaimedBy(row, worker) then WithClaim(row, worker, lease) else row
  }

  /** FinalizeClaimToRunning: no test of the status. */
  function Finalised(row: TaskRun, worker: string): TaskRun {
    if ClaimedBy(row, worker) then row.(status := Running, claim := None) else row
  }

  /** RecoverExpiredLeases. */
  function Recovered(row: TaskRun, now: int): TaskRun {
    if Expired(row, now) && row.status == Pending then row.(claim := None) else row
  }

  function ClaimRows(rows: seq<TaskRun>, ids: set<nat>, worker: string, lease: int): seq<TaskRun> {
    seq(|rows|, i requires 0 <= i < |rows| => if i in ids then WithClaim(rows[i], worker, lease) else rows[i])
  }

  function RecoverRows(rows: seq<TaskRun>, now: int): seq<TaskRun> {
    seq(|rows|, i requires 0 <= i < |rows| => Recovered(rows[i], now))
  }
}

/** The claim protocol as a state machine, and what it guarantees under any interleaving. */
module ClaimProtocol {
  import opened Prelude
  import opened Tables
  import opened Claims

  /** What the workers can observe: a claim taken, a claim finalised. */
  datatype Event = Claimed(id: nat, worker: string) | MadeRunning(id: nat, worker: string)

  datatype State = State(rows: seq<TaskRun>, log: seq<Event>)

  /** Any worker may take any of these steps at any time. Outcomes may arrive before finalisation. */
  datatype Action =
    | Insert(runId: nat, taskId: nat, status: Status)
    | ClaimTasks(backend: Backend, ids: seq<nat>, worker: string, now: int, lease: int)
    | ClaimTaskByID(id: nat, worker: string, now: int, lease: int)
    | RenewLease(id: nat, worker: string, lease: int)
    | FinalizeClaimToRunning(id: nat, worker: string)
    | RecoverExpiredLeases(now: int)
    | MarkOutcome(id: nat, success: bool)

  predicate Enabled(s: State, a: Action) {
    match a
    case Insert(_, _, _) => true
    case ClaimTasks(backend, ids, _, now, _) => forall i :: i in ids ==>
        i < |s.rows| && Claimable(backend, s.rows[i], now)
    case ClaimTaskByID(id, _, now, _) => id < |s.rows| && ClaimableById(s.rows[id], now)
    case RenewLease(id, _, _) => id < |s.rows|
    case FinalizeClaimToRunning(id, _) => id < |s.rows|
    case RecoverExpiredLeases(_) => true
    case MarkOutcome(id, _) => id < |s.rows|
  }

  function Next(s: State, a: Action): State
    requires Enabled(s, a)
  {
    match a
    case Insert(runId, taskId, status) =>
      s.(rows := s.rows + [TaskRun(runId, taskId, status, None)])
    case ClaimTasks(_, ids, worker, _, lease) =>
      State(ClaimRows(s.rows, Elements(ids), worker, lease), s.log + ClaimEvents(ids, worker))
    case ClaimTaskByID(id, worker, _, lease) =>
      State(s.rows[id := WithClaim(s.rows[id], worker, lease)], s.log + [Claimed(id, worker)])
    case RenewLease(id, worker, lease) =>
      s.(rows := s.rows[id := Renewed(s.rows[id], worker, lease)])
    case FinalizeClaimToRunning(id, worker) =>
      State(s.rows[id := Finalised(s.rows[id], worker)],
            if ClaimedBy(s.rows[id], worker) then s.log + [MadeRunning(id, worker)] else s.log)
    case RecoverExpiredLeases(now) =>
      s.(rows := RecoverRows(s.rows, now))
    case MarkOutcome(id, success) =>
      s.(rows := s.rows[id := s.rows[id].(status := if success then Success else Failed)])
  }

  function ClaimEvents(ids: seq<nat>, worker: string): seq<Event> {
    seq(|ids|, i requires 0 <= i < |ids| => Claimed(ids[i], worker))
  }

  /** The steps in terms of single rows and events. Which rows a claim may take: */
  lemma GuardsAre(s: State, backend: Backend, ids: seq<nat>, id: nat, worker: string, now: int, lease: int)
    ensures Enabled(s, ClaimTasks(backend, ids, worker, now, lease)) <==>
            forall i :: i in ids ==>
              && i < |s.rows| && s.rows[i].status == Pending
              && (backend == Postgres ==> s.rows[i].claim.None? || s.rows[i].claim.value.leaseExpiresAt <= now)
    ensures Enabled(s, ClaimTaskByID(id, worker, now, lease)) <==>
              && id < |s.rows| && s.rows[id].status == Pending
              && (s.rows[id].claim.None? || s.rows[id].claim.value.leaseExpiresAt <= now)
  {
  }

  /** What a claim of many rows writes and shows. */
  lemma ClaimingIs(s: State, backend: Backend, ids: seq<nat>, worker: string, now: int, lease: int)
    requires Enabled(s, ClaimTasks(backend, ids, worker, now, lease))
    ensures var t := Next(s, ClaimTasks(backend, ids, worker, now, lease));
            && |t.rows| == |s.rows|
            && (forall i :: 0 <= i < |s.rows| ==>
                  t.rows[i] == if i in ids then s.rows[i].(claim := Some(Claim(worker, lease))) else s.rows[i])
            && |t.log| == |s.log| + |ids| && t.log[..|s.log|] == s.log
            && forall k :: 0 <= k < |ids| ==> t.log[|s.log| + k] == Claimed(ids[k], worker)
  {
  }

  /** What the worker that holds the claim of a row can do to it, and nobody else. */
  lemma HoldingIs(s: State, id: nat, worker: string, lease: int)
    requires id < |s.rows|
    ensures var row, holds := s.rows[id], s.rows[id].claim.Some? && s.rows[id].claim.value.worker == worker;
            && Next(s, RenewLease(id, worker, lease)) ==
               State(if holds then s.rows[id := row.(claim := Some(Claim(worker, lease)))] else s.rows, s.log)
            && Next(s, FinalizeClaimToRunning(id, worker)) ==
               if holds then State(s.rows[id := TaskRun(row.runId, row.taskId, Running, None)],
                                   s.log + [MadeRunning(id, worker)])
               else s
  {
    assert s.rows[id := s.rows[id]] == s.rows;
  }

  /** What recovery does: it takes expired claims off pending rows. */
  lemma RecoveringIs(s: State, now: int)
    ensures var t := Next(s, RecoverExpiredLeases(now));
            && t.log == s.log && |t.rows| == |s.rows|
            && forall i :: 0 <= i < |s.rows| ==>
                 t.rows[i] == if s.rows[i].status == Pending && s.rows[i].claim.Some?
                                 && s.rows[i].claim.value.leaseExpiresAt <= now
                              then TaskRun(s.rows[i].runId, s.rows[i].taskId, Pending, None) else s.rows[i]
  {
  }

  ghost predicate Runs(s: State, actions: seq<Action>, t: State)
    decreases |actions|
  {
    if actions == [] then s == t
    else Enabled(s, actions[0]) && Runs(Next(s, actions[0]), actions[1..], t)
  }

  /** The worker of the latest claim of row id. */
  function LatestClaimant(log: seq<Event>, id: nat): Option<string> {
    if log == [] then None
    else
      var last := log[|log| - 1];
      if last.Claimed? && last.id == id then Some(last.worker) else LatestClaimant(log[..|log| - 1], id)
  }

  lemma {:induction false} LatestClaimantIs(log: seq<Event>, id: nat, worker: string)
    ensures LatestClaimant(log, id) == Some(worker) <==>
            exists i :: 0 <= i < |log| && log[i] == Claimed(id, worker) && LastClaimOf(log, id, i)
  {
    if log != [] {
      var init, last := log[..|log| - 1], |log| - 1;
      LatestClaimantIs(init, id, worker);
      if log[last].Claimed? && log[last].id == id {
        assert LastClaimOf(log, id, last);
      } else if i :| 0 <= i < |init| && init[i] == Claimed(id, worker) && LastClaimOf(init, id, i) {
        assert log[i] == Claimed(id, worker) && LastClaimOf(log, id, i);
      } else if i :| 0 <= i < |log| && log[i] == Claimed(id, worker) && LastClaimOf(log, id, i) {
        assert init[i] == Claimed(id, worker) && LastClaimOf(init, id, i);
      }
    }
  }

  /** No claim of row id comes after event i. */
  ghost predicate LastClaimOf(log: seq<Event>, id: nat, i: nat) {
    forall k :: i < k < |log| ==> !(log[k].Claimed? && log[k].id == id)
  }

  predicate MadeRunningIn(log: seq<Event>, id: nat) {
    exists i :: 0 <= i < |log| && log[i].MadeRunning? && log[i].id == id
  }

  /** Each row is made running at most once, and by the worker of its latest claim. */
  ghost predicate AtMostOnce(log: seq<Event>) {
    && (forall i, j :: 0 <= i < j < |log| && log[i].MadeRunning? && log[j].MadeRunning? ==> log[i].id != log[j].id)
    && forall i :: 0 <= i < |log| && log[i].MadeRunning? ==> LatestClaimant(log[..i], log[i].id) == Some(log[i].worker)
  }

  ghost predicate RowFits(s: State, i: nat)
    requires i < |s.rows|
  {
    && (s.rows[i].claim.Some? ==> LatestClaimant(s.log, i) == Some(s.rows[i].claim.value.worker))
    && (MadeRunningIn(s.log, i) ==> s.rows[i].claim.None? && s.rows[i].status != Pending)
  }

  ghost predicate Inv(s: State) {
    && AtMostOnce(s.log)
    && (forall i :: 0 <= i < |s.rows| ==> RowFits(s, i))
    && forall i :: 0 <= i < |s.log| ==> s.log[i].id < |s.rows|
  }

  lemma {:induction false} LatestAfterClaims(log: seq<Event>, ids: seq<nat>, worker: string, id: nat)
    ensures LatestClaimant(log + ClaimEvents(ids, worker), id) == if id in ids then Some(worker)
            else LatestClaimant(log, id)
    ensures MadeRunningIn(log + ClaimEvents(ids, worker), id) == MadeRunningIn(log, id)
  {
    if ids == [] {
      assert log + ClaimEvents(ids, worker) == log;
    } else {
      var init := ids[..|ids| - 1];
      LatestAfterClaims(log, init, worker, id);
      var longer, shorter := log + ClaimEvents(ids, worker), log + ClaimEvents(init, worker);
      assert longer == shorter + [Claimed(ids[|ids| - 1], worker)];
      assert longer[..|longer| - 1] == shorter;
      assert forall i :: 0 <= i < |shorter| ==> longer[i] == shorter[i];
      assert ids == init + [ids[|ids| - 1]];
    }
  }

  lemma ClaimsKeepLog(log: seq<Event>, ids: seq<nat>, worker: string)
    requires AtMostOnce(log)
    ensures AtMostOnce(log + ClaimEvents(ids, worker))
  {
    var longer := log + ClaimEvents(ids, worker);
    forall i | 0 <= i < |longer| && longer[i].MadeRunning?
      ensures i < |log| && longer[i] == log[i] && longer[..i] == log[..i]
    {
    }
  }

  lemma FinaliseKeepsLog(log: seq<Event>, id: nat, worker: string)
    requires AtMostOnce(log) && !MadeRunningIn(log, id) && LatestClaimant(log, id) == Some(worker)
    ensures AtMostOnce(log + [MadeRunning(id, worker)])
    ensures forall i :: LatestClaimant(log + [MadeRunning(id, worker)], i) == LatestClaimant(log, i)
    ensures forall i :: MadeRunningIn(log + [MadeRunning(id, worker)], i) <==> i == id || MadeRunningIn(log, i)
  {
    var longer := log + [MadeRunning(id, worker)];
    assert longer[..|log|] == log;
    assert longer[|log|] == MadeRunning(id, worker);
    forall i | 0 <= i < |log| ensures longer[..i] == log[..i] && longer[i] == log[i] {}
  }

  lemma ClaimTasksKeeps(s: State, t: State, ids: seq<nat>, worker: string, lease: int)
    requires Inv(s) && forall i :: i in ids ==> i < |s.rows| && s.rows[i].status == Pending
    requires t.rows == ClaimRows(s.rows, Elements(ids), worker, lease) && t.log == s.log + ClaimEvents(ids, worker)
    ensures Inv(t)
  {
    ClaimsKeepLog(s.log, ids, worker);
    forall i | 0 <= i < |t.log| ensures t.log[i].id < |t.rows| {
      if i >= |s.log| {
        assert t.log[i].id == ids[i - |s.log|];
        assert ids[i - |s.log|] in ids;
      }
    }
    forall i | 0 <= i < |t.rows| ensures RowFits(t, i) {
      LatestAfterClaims(s.log, ids, worker, i);
      assert RowFits(s, i);
    }
  }

  lemma FinaliseKeeps(s: State, id: nat, worker: string)
    requires Inv(s) && id < |s.rows|
    ensures Inv(Next(s, FinalizeClaimToRunning(id, worker)))
  {
    var t := Next(s, FinalizeClaimToRunning(id, worker));
    assert RowFits(s, id);
    if ClaimedBy(s.rows[id], worker) {
      FinaliseKeepsLog(s.log, id, worker);
    }
    forall i | 0 <= i < |t.rows| ensures RowFits(t, i) {
      assert RowFits(s, i);
    }
  }

  lemma StepKeeps(s: State, a: Action)
    requires Inv(s) && Enabled(s, a)
    ensures Inv(Next(s, a))
    ensures NoReturnToPending(s.rows, Next(s, a).rows)
  {
    var t := Next(s, a);
    match a {
      case ClaimTasks(_, ids, worker, _, lease) =>
        ClaimTasksKeeps(s, t, ids, worker, lease);
      case ClaimTaskByID(id, worker, _, lease) =>
        assert ClaimEvents([id], worker) == [Claimed(id, worker)];
        assert t.rows == ClaimRows(s.rows, Elements([id]), worker, lease);
        ClaimTasksKeeps(s, t, [id], worker, lease);
      case FinalizeClaimToRunning(id, worker) =>
        FinaliseKeeps(s, id, worker);
      case _ =>
        forall i | 0 <= i < |t.rows| ensures RowFits(t, i) {
          assert i < |s.rows| ==> RowFits(s, i);
        }
    }
  }

  /** Rows keep their place, and one that has left pending stays out of it. */
  ghost predicate NoReturnToPending(before: seq<TaskRun>, after: seq<TaskRun>) {
    && |before| <= |after|
    && forall i :: 0 <= i < |before| && after[i].status == Pending ==> before[i].status == Pending
  }

  lemma {:induction false} RunKeeps(s: State, actions: seq<Action>, t: State)
    requires Inv(s) && Runs(s, actions, t)
    ensures Inv(t) && NoReturnToPending(s.rows, t.rows)
    decreases |actions|
  {
    if actions != [] {
      StepKeeps(s, actions[0]);
      RunKeeps(Next(s, actions[0]), actions[1..], t);
    }
  }

  /** On either backend, whatever the workers do and in whatever order: finalisation succeeds at most
      once per row, only for the worker of the latest claim, and no row returns to pending. */
  lemma FinalisedAtMostOnce(actions: seq<Action>, more: seq<Action>, t: State, u: State)
    requires Runs(State([], []), actions, t) && Runs(t, more, u)
    ensures AtMostOnce(u.log)
    ensures NoReturnToPending(t.rows, u.rows)
  {
    RunKeeps(State([], []), actions, t);
    RunKeeps(t, more, u);
  }
}
