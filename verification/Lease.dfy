/** Lease timing on PostgreSQL: how late renewals may land without the claim being lost
    (ClaimTasks, ClaimTaskByID, RenewLease, RecoverExpiredLeases; processClaim's ticker). */
module Leases {
  import opened Prelude
  import opened Tables
  import opened Claims

  /** Durations are in nanoseconds. */
  const SECOND: nat := 1_000_000_000

  /** The whole seconds of the lease; the fraction is dropped. */
  function LeaseLength(ttl: nat): nat {
    ttl / SECOND * SECOND
  }

  /** The period of the renewal ticker. */
  function Half(ttl: nat): nat {
    ttl / 2
  }

  datatype Op =
    | ClaimMany(worker: string)
    | ClaimOne(worker: string)
    | Recover
    | Renew(worker: string)
    | Finalise(worker: string)

  /** An update of the row, at the database's time. */
  datatype Timed = At(time: int, op: Op)

  function Apply(row: TaskRun, ttl: nat, e: Timed): TaskRun {
    match e.op
    case ClaimMany(worker) =>
      if Claimable(Postgres, row, e.time) then WithClaim(row, worker, e.time + LeaseLength(ttl)) else row
    case ClaimOne(worker) =>
      if ClaimableById(row, e.time) then WithClaim(row, worker, e.time + LeaseLength(ttl)) else row
    case Recover => Recovered(row, e.time)
    case Renew(worker) => Renewed(row, worker, e.time + LeaseLength(ttl))
    case Finalise(worker) => Finalised(row, worker)
  }

  function ApplyAll(row: TaskRun, ttl: nat, trace: seq<Timed>): TaskRun
    decreases |trace|
  {
    if trace == [] then row else ApplyAll(Apply(row, ttl, trace[0]), ttl, trace[1..])
  }

  /** The n-th tick after a claim at time start; tick 0 is the claim itself. */
  function Tick(start: int, ttl: nat, n: nat): int {
    if n == 0 then start else Tick(start, ttl, n - 1) + Half(ttl)
  }

  /** The ticks of a ticker of half the lease time. */
  lemma {:induction false} TickIs(start: int, ttl: nat, n: nat)
    ensures Tick(start, ttl, n) == start + n * (ttl / 2)
  {
    if n > 0 {
      TickIs(start, ttl, n - 1);
      assert n * (ttl / 2) == (n - 1) * (ttl / 2) + ttl / 2;
    }
  }

  /** The trace is in time order, worker's n+1-st renewal lands at its tick or less than `delay` later,
      and nothing happens after that while it is still missing. Other workers do what they like. */
  ghost predicate OnTime(trace: seq<Timed>, worker: string, start: int, ttl: nat, delay: int, n: nat, now: int)
    decreases |trace|
  {
    trace != [] ==>
      && now <= trace[0].time < Tick(start, ttl, n + 1) + delay
      && (trace[0].op == Renew(worker) ==> Tick(start, ttl, n + 1) <= trace[0].time)
      && trace[0].op != Finalise(worker)
      && OnTime(trace[1..], worker, start, ttl, delay, if trace[0].op == Renew(worker) then n + 1 else n, trace[0].time)
  }

  function JustClaimed(row: TaskRun, worker: string, start: int, ttl: nat): TaskRun {
    row.(status := Pending, claim := Some(Claim(worker, start + LeaseLength(ttl))))
  }

  lemma {:induction false} RenewalsKeepClaim(row: TaskRun, trace: seq<Timed>, worker: string, start: int, ttl: nat,
        delay: int, n: nat, now: int)
    requires OnTime(trace, worker, start, ttl, delay, n, now) && delay <= LeaseLength(ttl) - Half(ttl)
    requires row.status == Pending && ClaimedBy(row, worker)
    requires row.claim.value.leaseExpiresAt >= Tick(start, ttl, n) + LeaseLength(ttl)
    ensures ApplyAll(row, ttl, trace).status == Pending && ClaimedBy(ApplyAll(row, ttl, trace), worker)
    decreases |trace|
  {
    if trace != [] {
      RenewalsKeepClaim(Apply(row, ttl, trace[0]), trace[1..], worker, start, ttl, delay,
                        if trace[0].op == Renew(worker) then n + 1 else n, trace[0].time);
    }
  }

  /** Every schedule with renewals less than `delay` late leaves the claim with its worker. */
  ghost predicate Protects(row: TaskRun, worker: string, start: int, ttl: nat, delay: int) {
    forall trace :: OnTime(trace, worker, start, ttl, delay, 0, start) ==>
      ClaimedBy(ApplyAll(JustClaimed(row, worker, start, ttl), ttl, trace), worker)
  }

  /** A competitor at the very moment the lease runs out takes the claim, which is on time for a
      delay beyond the slack. */
  lemma LateRenewalLosesClaim(row: TaskRun, worker: string, start: int, ttl: nat, delay: int)
    returns (trace: seq<Timed>)
    requires delay > LeaseLength(ttl) - Half(ttl)
    ensures OnTime(trace, worker, start, ttl, delay, 0, start)
    ensures !ClaimedBy(ApplyAll(JustClaimed(row, worker, start, ttl), ttl, trace), worker)
  {
    var thief := worker + "'";
    trace := [At(start + LeaseLength(ttl), ClaimMany(thief))];
    assert trace[1..] == [];
    assert Tick(start, ttl, 1) == Tick(start, ttl, 0) + Half(ttl);
    assert |thief| != |worker|;
    var claimed := JustClaimed(row, worker, start, ttl);
    assert ApplyAll(claimed, ttl, trace) == ApplyAll(Apply(claimed, ttl, trace[0]), ttl, trace[1..]);
  }

  /** The admissible lateness is exactly the whole seconds of the lease minus half the lease time. */
  lemma ProtectedIffWithinSlack(row: TaskRun, worker: string, start: int, ttl: nat, delay: int)
    ensures Protects(row, worker, start, ttl, delay) <==> delay <= LeaseLength(ttl) - Half(ttl)
    ensures Protects(row, worker, start, ttl, delay) <==> delay <= ttl / 1_000_000_000 * 1_000_000_000 - ttl / 2
  {
    var claimed := JustClaimed(row, worker, start, ttl);
    if delay <= LeaseLength(ttl) - Half(ttl) {
      forall trace | OnTime(trace, worker, start, ttl, delay, 0, start)
        ensures ClaimedBy(ApplyAll(claimed, ttl, trace), worker)
      {
        RenewalsKeepClaim(claimed, trace, worker, start, ttl, delay, 0, start);
      }
    } else {
      var trace := LateRenewalLosesClaim(row, worker, start, ttl, delay);
      if Protects(row, worker, start, ttl, delay) {
        ProtectsTrace(row, worker, start, ttl, delay, trace);
      }
    }
  }

  lemma ProtectsTrace(row: TaskRun, worker: string, start: int, ttl: nat, delay: int, trace: seq<Timed>)
    requires Protects(row, worker, start, ttl, delay) && OnTime(trace, worker, start, ttl, delay, 0, start)
    ensures ClaimedBy(ApplyAll(JustClaimed(row, worker, start, ttl), ttl, trace), worker)
  {
  }

  /** A worker on time finalises its claim: whatever the others tried in between. */
  lemma OnTimeWorkerFinalises(row: TaskRun, worker: string, start: int, ttl: nat, delay: int, trace: seq<Timed>,
        end: int)
    requires OnTime(trace, worker, start, ttl, delay, 0, start) && delay <= LeaseLength(ttl) - Half(ttl)
    ensures Apply(ApplyAll(JustClaimed(row, worker, start, ttl), ttl, trace), ttl,
            At(end, Finalise(worker))).status == Running
  {
    RenewalsKeepClaim(JustClaimed(row, worker, start, ttl), trace, worker, start, ttl, delay, 0, start);
  }

  /** There is any slack at all exactly for leases of a second or more. */
  lemma SlackPositiveIff(ttl: nat)
    ensures LeaseLength(ttl) - Half(ttl) > 0 <==> ttl >= SECOND
  {
    if ttl < SECOND {
      assert ttl / SECOND == 0;
    } else {
      var q := ttl / SECOND;
      assert ttl < q * SECOND + SECOND;
      assert q >= 1;
      assert q * SECOND >= SECOND;
    }
  }
}
