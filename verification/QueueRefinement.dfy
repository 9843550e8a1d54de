/** Both queues behind one interface give the same answers, those of the abstract queue. */
module QueueRefinement {
  import opened Prelude
  import opened Fifo
  import opened MemoryQueues
  import opened PebbleQueues

  /** One operation on the in-memory queue. */
  method OnMemory<E>(q: MemoryQueue<E>, op: Op<E>) returns (reply: Answer<E>)
    requires q.Valid()
    modifies q
    ensures q.Valid()
    ensures reply == Reply(old(q.Contents()), op) && q.Contents() == After(old(q.Contents()), op)
  {
    match op
    case PushBatch(values) =>
      q.PushBatch(values);
      reply := Done;
    case PopBatch(count) =>
      var r := q.TryPopBatch(count);
      reply := if r.Some? then Answer.Popped(r.value) else Answer.WouldBlock;
    case Size =>
      var n := q.Size();
      reply := Count(n);
  }

  /** One operation on the persistent queue. */
  method OnPebble<E>(q: PebbleQueue<E>, op: Op<E>) returns (reply: Answer<E>)
    requires q.Valid()
    modifies q
    ensures q.Valid()
    ensures reply == Reply(old(q.Contents()), op) && q.Contents() == After(old(q.Contents()), op)
  {
    match op
    case PushBatch(values) =>
      q.PushBatch(values);
      reply := Done;
    case PopBatch(count) =>
      var results, outcome := q.TryPopBatch(count);
      reply := if outcome == Taken then Answer.Popped(results) else Answer.WouldBlock;
    case Size =>
      var n := q.Size();
      reply := Count(n.value);
  }

  /** The same operation on both. */
  method OnBoth<E>(memory: MemoryQueue<E>, pebble: PebbleQueue<E>, op: Op<E>)
    returns (reply: Answer<E>, other: Answer<E>)
    requires memory.Valid() && pebble.Valid() && memory.Contents() == pebble.Contents()
    modifies memory, pebble
    ensures memory.Valid() && pebble.Valid()
    ensures reply == other == Reply(old(memory.Contents()), op)
    ensures memory.Contents() == pebble.Contents() == After(old(memory.Contents()), op)
  {
    reply := OnMemory(memory, op);
    other := OnPebble(pebble, op);
  }

  lemma RepliesCons<E>(s: seq<E>, op: Op<E>, ops: seq<Op<E>>)
    ensures Replies(s, [op] + ops) == [Reply(s, op)] + Replies(After(s, op), ops)
    ensures Final(s, [op] + ops) == Final(After(s, op), ops)
  {
    assert ([op] + ops)[1..] == ops;
  }

  lemma {:induction false} RepliesAppend<E>(s: seq<E>, ops: seq<Op<E>>, op: Op<E>)
    ensures Replies(s, ops + [op]) == Replies(s, ops) + [Reply(Final(s, ops), op)]
    ensures Final(s, ops + [op]) == After(Final(s, ops), op)
    decreases |ops|
  {
    if ops == [] {
      assert ops + [op] == [op] + [];
      RepliesCons(s, op, []);
    } else {
      var first, rest := ops[0], ops[1..];
      RepliesAppend(After(s, first), rest, op);
      RepliesCons(s, first, rest);
      RepliesCons(s, first, rest + [op]);
      assert ops == [first] + rest && ops + [op] == [first] + (rest + [op]);
    }
  }

  /** Any sequence of operations, run on both queues in lockstep from equal contents. */
  method Lockstep<E>(memory: MemoryQueue<E>, pebble: PebbleQueue<E>, ops: seq<Op<E>>)
    returns (fromMemory: seq<Answer<E>>, fromPebble: seq<Answer<E>>)
    requires memory.Valid() && pebble.Valid() && memory.Contents() == pebble.Contents()
    modifies memory, pebble
    ensures fromMemory == fromPebble == Replies(old(memory.Contents()), ops)
    ensures memory.Valid() && pebble.Valid()
    ensures memory.Contents() == pebble.Contents() == Final(old(memory.Contents()), ops)
  {
    ghost var start, now := memory.Contents(), memory.Contents();
    fromMemory, fromPebble := [], [];
    for i := 0 to |ops|
      invariant memory.Valid() && pebble.Valid()
      invariant memory.Contents() == pebble.Contents() == now
      invariant fromMemory == fromPebble == Replies(start, ops[..i]) && now == Final(start, ops[..i])
    {
      RepliesUpTo(start, ops, i);
      var reply, other := OnBoth(memory, pebble, ops[i]);
      now := After(now, ops[i]);
      fromMemory, fromPebble := fromMemory + [reply], fromPebble + [other];
    }
    assert ops[..|ops|] == ops;
  }

  lemma RepliesUpTo<E>(s: seq<E>, ops: seq<Op<E>>, i: nat)
    requires i < |ops|
    ensures Replies(s, ops[..i + 1]) == Replies(s, ops[..i]) + [Reply(Final(s, ops[..i]), ops[i])]
    ensures Final(s, ops[..i + 1]) == After(Final(s, ops[..i]), ops[i])
  {
    RepliesAppend(s, ops[..i], ops[i]);
    assert ops[..i + 1] == ops[..i] + [ops[i]];
  }
}
