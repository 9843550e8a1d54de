/** The queue both implementations are supposed to be (controller/internal/queue/queue.go). */
module Fifo {
  datatype Op<E> = PushBatch(values: seq<E>) | PopBatch(count: nat) | Size

  /** WouldBlock stands for a pop that finds nothing and waits. */
  datatype Answer<E> = Done | Popped(values: seq<E>) | WouldBlock | Count(n: nat)

  function Least(a: nat, b: nat): nat {
    if a <= b then a else b
  }

  /** Cutting a sequence after `count` elements, or at its end. */
  lemma CutAtLeast<E>(s: seq<E>, count: nat)
    ensures |s[..Least(count, |s|)]| == (if count <= |s| then count else |s|)
    ensures s[..Least(count, |s|)] + s[Least(count, |s|)..] == s
  {
  }

  function After<E>(s: seq<E>, op: Op<E>): seq<E> {
    match op
    case PushBatch(values) => s + values
    case PopBatch(count) => s[Least(count, |s|)..]
    case Size => s
  }

  function Reply<E>(s: seq<E>, op: Op<E>): Answer<E> {
    match op
    case PushBatch(_) => Done
    case PopBatch(count) => if s == [] then WouldBlock else Popped(s[..Least(count, |s|)])
    case Size => Count(|s|)
  }

  /** A pop hands out the first `count` elements, or all there are, and leaves the rest. */
  lemma PopIs<E>(s: seq<E>, count: nat)
    ensures s == [] ==> Reply(s, PopBatch(count)) == WouldBlock && After(s, PopBatch(count)) == []
    ensures s != [] ==>
              && Reply(s, PopBatch(count)).Popped?
              && |Reply(s, PopBatch(count)).values| == (if count <= |s| then count else |s|)
              && Reply(s, PopBatch(count)).values + After(s, PopBatch(count)) == s
  {
  }

  function Replies<E>(s: seq<E>, ops: seq<Op<E>>): seq<Answer<E>>
    decreases |ops|
  {
    if ops == [] then [] else [Reply(s, ops[0])] + Replies(After(s, ops[0]), ops[1..])
  }

  /** Everything ever pushed by ops. */
  function AllPushed<E>(ops: seq<Op<E>>): seq<E> {
    if ops == [] then [] else
    (if ops[0].PushBatch? then ops[0].values else []) + AllPushed(ops[1..])
  }

  /** Everything ever handed out in replies. */
  function AllPopped<E>(replies: seq<Answer<E>>): seq<E> {
    if replies == [] then [] else
    (if replies[0].Popped? then replies[0].values else []) + AllPopped(replies[1..])
  }

  function Final<E>(s: seq<E>, ops: seq<Op<E>>): seq<E>
    decreases |ops|
  {
    if ops == [] then s else Final(After(s, ops[0]), ops[1..])
  }

  lemma Regroup<E>(first: seq<E>, next: seq<E>, s: seq<E>, pushed: seq<E>, popped: seq<E>, left: seq<E>, later: seq<E>)
    requires first + next == s + pushed && popped + left == next + later
    ensures (first + popped) + left == s + (pushed + later)
  {
    assert (first + popped) + left == first + (popped + left) == first + (next + later) == (first + next) + later;
    assert (s + pushed) + later == s + (pushed + later);
  }

  /** Over any run, what was popped followed by what is left is what was there followed by what
      was pushed: nothing is lost, duplicated or reordered. */
  lemma {:induction false} Conservation<E>(s: seq<E>, ops: seq<Op<E>>)
    ensures AllPopped(Replies(s, ops)) + Final(s, ops) == s + AllPushed(ops)
    decreases |ops|
  {
    if ops != [] {
      var next := After(s, ops[0]);
      Conservation(next, ops[1..]);
      var replies := Replies(s, ops);
      assert replies[1..] == Replies(next, ops[1..]);
      var first := if replies[0].Popped? then replies[0].values else [];
      var pushed := if ops[0].PushBatch? then ops[0].values else [];
      Regroup(first, next, s, pushed, AllPopped(replies[1..]), Final(s, ops), AllPushed(ops[1..]));
    }
  }
}
