/** The in-memory queue: a slice with a head index (controller/internal/queue/memory.go).
    One call is one pass through the method's critical section. */
module MemoryQueues {
  import opened Prelude
  import opened Fifo

  class MemoryQueue<E> {
    var data: seq<Option<E>>
    var head: nat
    /** The one-slot notify channel holds a token. */
    var notify: bool

    /** Popped slots are nil and only they are; the head index stays small. */
    ghost predicate Valid()
      reads this
    {
      && head <= |data|
      && (forall i :: 0 <= i < |data| ==> (data[i].None? <==> i < head))
      && (head <= 1024 || head <= |data| - head)
    }

    ghost function Contents(): seq<E>
      requires Valid()
      reads this
    {
      seq(|data| - head, i requires 0 <= i < |data| - head reads this requires Valid() => data[head + i].value)
    }

    constructor ()
      ensures Valid() && Contents() == [] && !notify
    {
      data, head, notify := [], 0, false;
    }

    method PushBatch(values: seq<E>)
      requires Valid()
      modifies this
      ensures Valid() && notify
      ensures Contents() == old(Contents()) + values
    {
      data := data + seq(|values|, i requires 0 <= i < |values| => Some(values[i]));
      notify := true;
    }

    /** None when nothing is available, which is where the caller goes to wait. */
    method TryPopBatch(count: nat) returns (r: Option<seq<E>>)
      requires Valid()
      modifies this
      ensures Valid() && notify == old(notify)
      ensures r.None? <==> old(Contents()) == []
      ensures r.Some? ==> r.value == old(Contents())[..Least(count, |old(Contents())|)]
      ensures Contents() == old(Contents())[Least(count, |old(Contents())|)..]
    {
      ghost var was := Contents();
      var available := |data| - head;
      if available == 0 {
        return None;
      }
      var n := if count > available then available else count;
      var res: seq<E> := [];
      for i := 0 to n
        invariant |data| == old(|data|) && head == old(head) && notify == old(notify)
        invariant forall k :: 0 <= k < |data| ==> data[k] == old(data)[k]
        invariant res == was[..i]
      {
        res := res + [data[head + i].value];
      }
      for i := 0 to n
        invariant |data| == old(|data|) && head == old(head) && notify == old(notify)
        invariant forall k :: 0 <= k < |data| ==>
                    data[k] == if head <= k < head + i then None else old(data)[k]
      {
        data := data[head + i := None];
      }
      head := head + n;
      assert forall k :: head <= k < |data| ==> data[k] == old(data)[k];
      if head > 1024 && head * 2 > |data| {
        data := data[head..];
        head := 0;
      }
      return Some(res);
    }

    method Size() returns (n: nat)
      requires Valid()
      ensures n == |Contents()|
    {
      return |data| - head;
    }
  }
}

/** Wake-ups of consumers blocked on an empty queue, through the one-slot notify channel. */
module QueueWakeUp {
  import opened Fifo

  /** waiting consumers have seen an empty queue, released the lock and not yet been woken. */
  datatype State = State(size: nat, token: bool, waiting: nat)

  datatype Action =
    | Push(n: nat)
    | Check(count: nat)
    | Wake
    | GiveUp

  function Initial(): State {
    State(0, false, 0)
  }

  predicate Enabled(consumers: nat, s: State, a: Action) {
    match a
    case Push(_) => true
    case Check(_) => s.waiting < consumers
    case Wake => s.waiting > 0 && s.token
    case GiveUp => s.waiting > 0
  }

  function Next(consumers: nat, s: State, a: Action): State
    requires Enabled(consumers, s, a)
  {
    match a
    case Push(n) => s.(size := s.size + n, token := true)
    case Check(count) =>
      if s.size == 0 then s.(waiting := s.waiting + 1) else s.(size := s.size - Least(count, s.size))
    case Wake => s.(token := false, waiting := s.waiting - 1)
    case GiveUp => s.(waiting := s.waiting - 1)
  }

  ghost predicate Runs(consumers: nat, s: State, actions: seq<Action>, t: State)
    decreases |actions|
  {
    if actions == [] then s == t
    else Enabled(consumers, s, actions[0]) && Runs(consumers, Next(consumers, s, actions[0]), actions[1..], t)
  }

  /** Somebody sleeps, events are there, and no token will wake the sleeper. */
  predicate LostWakeUp(s: State) {
    s.waiting > 0 && !s.token && s.size > 0
  }

  lemma {:induction false} OneConsumerKeeps(s: State, actions: seq<Action>, t: State)
    requires Runs(1, s, actions, t) && s.waiting <= 1 && !LostWakeUp(s)
    ensures !LostWakeUp(t)
    decreases |actions|
  {
    if actions != [] {
      OneConsumerKeeps(Next(1, s, actions[0]), actions[1..], t);
    }
  }

  lemma {:induction false} NoConsumerKeeps(s: State, actions: seq<Action>, t: State)
    requires Runs(0, s, actions, t) && s.waiting == 0
    ensures t.waiting == 0
    decreases |actions|
  {
    if actions != [] {
      NoConsumerKeeps(Next(0, s, actions[0]), actions[1..], t);
    }
  }

  /** Two sleepers, one batch of two, one token: the second sleeper is forgotten. */
  lemma TwoConsumersLose(consumers: nat) returns (actions: seq<Action>, t: State)
    requires consumers >= 2
    ensures Runs(consumers, Initial(), actions, t) && LostWakeUp(t)
  {
    t := State(1, false, 1);
    var s4 := State(2, false, 1);
    var a4 := [Check(1)];
    assert a4[1..] == [];
    assert Runs(consumers, s4, a4, t);
    var a3 := [Wake] + a4;
    assert a3[1..] == a4;
    assert Runs(consumers, State(2, true, 2), a3, t);
    var a2 := [Push(2)] + a3;
    assert a2[1..] == a3;
    assert Runs(consumers, State(0, false, 2), a2, t);
    var a1 := [Check(1)] + a2;
    assert a1[1..] == a2;
    assert Runs(consumers, State(0, false, 1), a1, t);
    actions := [Check(1)] + a1;
    assert actions[1..] == a1;
  }

  ghost predicate NeverLoses(consumers: nat) {
    forall actions, t :: Runs(consumers, Initial(), actions, t) ==> !LostWakeUp(t)
  }

  lemma NeverLosesAt(consumers: nat, actions: seq<Action>, t: State)
    requires NeverLoses(consumers) && Runs(consumers, Initial(), actions, t)
    ensures !LostWakeUp(t)
  {
  }

  /** The channel is enough exactly for a single consumer, which is how each worker uses it. */
  lemma NoLostWakeUpIff(consumers: nat)
    ensures NeverLoses(consumers) <==> consumers <= 1
  {
    if consumers >= 2 {
      var actions, t := TwoConsumersLose(consumers);
      if NeverLoses(consumers) {
        NeverLosesAt(consumers, actions, t);
      }
    } else {
      forall actions, t | Runs(consumers, Initial(), actions, t) ensures !LostWakeUp(t) {
        if consumers == 1 {
          OneConsumerKeeps(Initial(), actions, t);
        } else {
          NoConsumerKeeps(Initial(), actions, t);
        }
      }
    }
  }
}
