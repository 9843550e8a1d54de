/** The queue over a key-value store (controller/internal/queue/pebble.go). One call is one pass
    through the method's critical section; a batch commits all its writes at once. */
module PebbleQueues {
  import opened Prelude
  import opened Decimals
  import opened Fifo
  import opened KeyedLogs

  /** The topic, a colon and the padded number. */
  function EventKey(topic: string, n: nat): string {
    topic + ":" + Padded(n)
  }

  function TopicLayout(topic: string): Layout {
    Layout((n: nat) => EventKey(topic, n), topic + ":head", topic + ":tail")
  }

  lemma EventKeyAfterColon(topic: string, n: nat)
    ensures |EventKey(topic, n)| > |topic| + 1 && EventKey(topic, n)[|topic| + 1..] == Padded(n)
  {
    assert EventKey(topic, n) == (topic + ":") + Padded(n);
  }

  lemma EventKeyIsNoCounter(topic: string, n: nat)
    ensures EventKey(topic, n) != topic + ":head" && EventKey(topic, n) != topic + ":tail"
  {
    EventKeyAfterColon(topic, n);
    assert (topic + ":head")[|topic| + 1..] == "head" && (topic + ":tail")[|topic| + 1..] == "tail";
    assert IsDigit(Padded(n)[0]);
  }

  lemma EventKeyReadsBack(topic: string, i: nat, j: nat)
    requires EventKey(topic, i) == EventKey(topic, j)
    ensures i == j
  {
    EventKeyAfterColon(topic, i);
    EventKeyAfterColon(topic, j);
    PaddedValue(i);
    PaddedValue(j);
  }

  /** The eight-column format is injective on all naturals, also beyond eight digits, and no
      event's key is a counter's. */
  lemma TopicLayoutSound(topic: string)
    ensures Sound(TopicLayout(topic))
  {
    var l := TopicLayout(topic);
    forall i: nat, j: nat | l.key(i) == l.key(j) ensures i == j {
      EventKeyReadsBack(topic, i, j);
    }
    forall i: nat ensures l.key(i) != l.headKey && l.key(i) != l.tailKey {
      EventKeyIsNoCounter(topic, i);
    }
    assert l.headKey[|topic| + 1] == 'h' && l.tailKey[|topic| + 1] == 't';
  }

  datatype PopOutcome = Taken | Empty | Failed

  class PebbleQueue<E> {
    /** The keys of the queue's topic. */
    const keys: Layout
    var store: Store<E>
    /** The one-slot notify channel holds a token. */
    var notify: bool
    var lastCommittedHead: nat

    ghost predicate Valid()
      reads this
    {
      Sound(keys) && WellFormed(store, keys) && lastCommittedHead == Head(store, keys)
    }

    ghost function Contents(): seq<E>
      requires Valid()
      reads this
    {
      StoredEvents(store, keys)
    }

    constructor (keys: Layout, store: Store<E>, head: nat)
      ensures this.keys == keys && this.store == store && lastCommittedHead == head && !notify
    {
      this.keys, this.store, notify, lastCommittedHead := keys, store, false, head;
    }

    /** The loop of a push: the events go under the numbers after start. */
    method WriteEvents(start: nat, values: seq<E>) returns (tail: nat, batch: Store<E>)
      ensures tail == start + |values| && batch == Written(store, keys.key, start, values)
    {
      tail, batch := start, store;
      for i := 0 to |values|
        invariant tail == start + i && batch == Written(store, keys.key, start, values[..i])
      {
        tail := tail + 1;
        batch := batch[keys.key(tail) := Event(values[i])];
        assert values[..i + 1][..i] == values[..i];
      }
      assert values[..|values|] == values;
    }

    /** One batch writes the events and the tail that covers them; a tail that cannot be read counts
        as 0. */
    method PushBatch(values: seq<E>)
      modifies this
      ensures notify && lastCommittedHead == old(lastCommittedHead) && store == Pushed(old(store), keys, values)
      ensures old(Valid()) ==> Valid() && Contents() == old(Contents()) + values
    {
      var tail, batch := WriteEvents(Tail(store, keys), values);
      if Valid() {
        PushAppends(store, keys, values);
      }
      store := batch[keys.tailKey := Text(FormatUint(tail))];
      notify := true;
    }

    /** The loop of a pop: reads the committed store, deletes in the batch, stops at a missing or
        unreadable event. */
    method TakeEvents(start: nat, n: nat) returns (results: seq<E>, batch: Store<E>, missing: bool)
      ensures missing <==> Take(store, keys.key, start, n).None?
      ensures !missing ==>
              && Take(store, keys.key, start, n) == Some(results)
              && batch == Deleted(store, keys.key, start, n)
    {
      results, batch := [], store;
      for i := 0 to n
        invariant batch == Deleted(store, keys.key, start, i)
        invariant Take(store, keys.key, start, i) == Some(results)
      {
        var event := EventAt(store, keys.key, start + (i + 1));
        if event.None? {
          if Take(store, keys.key, start, n).Some? {
            TakeIsReadable(store, keys.key, start, n);
            assert false;
          }
          return results, batch, true;
        }
        TakeNext(store, keys.key, start, i + 1);
        results := results + [event.value];
        batch := batch - {keys.key(start + (i + 1))};
      }
      missing := false;
    }

    /** A missing event ends the pop with an error, the store untouched; in a well-formed store that
        cannot happen. */
    method TryPopBatch(count: nat) returns (results: seq<E>, outcome: PopOutcome)
      modifies this
      ensures notify == old(notify)
      ensures outcome != Taken ==> store == old(store) && lastCommittedHead == old(lastCommittedHead)
      ensures old(Valid()) ==>
                && Valid()
                && outcome == (if old(Contents()) == [] then Empty else Taken)
                && results == old(Contents())[..Least(count, |old(Contents())|)]
                && Contents() == old(Contents())[Least(count, |old(Contents())|)..]
    {
      var head, tail := Head(store, keys), Tail(store, keys);
      if tail <= head {
        return [], Empty;
      }
      var n := if count > tail - head then tail - head else count;
      if Valid() {
        StoredFront(store, keys, n);
        PopTakesFront(store, keys, n);
      }
      var batch, missing;
      results, batch, missing := TakeEvents(head, n);
      if missing {
        return results, Failed;
      }
      store := batch[keys.headKey := Text(FormatUint(head + n))];
      lastCommittedHead := head + n;
      return results, Taken;
    }

    /** An unreadable counter is an error. */
    method Size() returns (n: Option<int>)
      ensures n.None? <==> GetCounter(store, keys.headKey).None? || GetCounter(store, keys.tailKey).None?
      ensures Valid() ==> n == Some(|Contents()|)
    {
      var head := GetCounter(store, keys.headKey);
      if head.None? {
        return None;
      }
      var tail := GetCounter(store, keys.tailKey);
      if tail.None? {
        return None;
      }
      var size: int := tail.value;
      size := size - head.value;
      return Some(size);
    }
  }

  /** Opens a queue on whatever store the disk holds: refused exactly when a counter cannot be
      read. Reopening the store of a queue changes nothing; a tail behind the head makes an empty queue. */
  method NewPebbleQueue<E>(topic: string, store: Store<E>) returns (q: PebbleQueue?<E>)
    ensures q == null <==>
              GetCounter(store, topic + ":head").None? || GetCounter(store, topic + ":tail").None?
    ensures q != null ==>
              && fresh(q) && q.keys == TopicLayout(topic)
              && q.store == Repair(store, q.keys)
              && q.lastCommittedHead == Head(q.store, q.keys) <= Tail(q.store, q.keys)
    ensures q != null && WellFormed(store, TopicLayout(topic)) ==>
              q.Valid() && q.Contents() == StoredEvents(store, TopicLayout(topic))
    ensures q != null && Tail(store, TopicLayout(topic)) < Head(store, TopicLayout(topic)) ==>
            q.Valid() && q.Contents() == []
  {
    var keys := TopicLayout(topic);
    var head, tail := GetCounter(store, keys.headKey), GetCounter(store, keys.tailKey);
    if head.None? || tail.None? {
      return null;
    }
    TopicLayoutSound(topic);
    RepairOrdersCounters(store, keys);
    var repaired := store;
    if tail.value < head.value {
      repaired := repaired[keys.tailKey := Text(FormatUint(head.value))];
    }
    q := new PebbleQueue(keys, repaired, head.value);
  }
}
