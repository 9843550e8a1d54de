/** A log of events in a key-value store, each under the key of its number, between a head and a
    tail counter. Nothing here depends on how the keys are spelt, only on their being different. */
module KeyedLogs {
  import opened Prelude
  import opened Decimals

  /** A stored value: a counter's text, or the encoding of an event. */
  datatype Stored<E> = Text(text: string) | Event(event: E)

  type Store<E> = map<string, Stored<E>>

  ghost predicate Apart(key: nat -> string) {
    forall i, j {:trigger key(i), key(j)} :: key(i) == key(j) ==> i == j
  }

  /** k is no event's key. */
  ghost predicate Foreign(key: nat -> string, k: string) {
    forall i :: key(i) != k
  }

  ghost predicate SameAt<E>(a: Store<E>, b: Store<E>, k: string) {
    (k in a <==> k in b) && (k in a ==> a[k] == b[k])
  }

  /** The event stored under number n, if there is one and it can be read. */
  function EventAt<E>(store: Store<E>, key: nat -> string, n: nat): Option<E> {
    if key(n) in store && store[key(n)].Event? then Some(store[key(n)].event) else None
  }

  /** The n events after head in order; None if one of them is missing or unreadable. */
  function Take<E>(store: Store<E>, key: nat -> string, head: nat, n: nat): (r: Option<seq<E>>)
    ensures r.Some? ==> |r.value| == n
  {
    if n == 0 then Some([])
    else
      var earlier, event := Take(store, key, head, n - 1), EventAt(store, key, head + n);
      if earlier.Some? && event.Some? then Some(earlier.value + [event.value]) else None
  }

  ghost predicate Holds<E>(store: Store<E>, key: nat -> string, n: nat, head: nat, tail: nat) {
    head < n <= tail ==> EventAt(store, key, n).Some?
  }

  /** Readable events sit under the numbers after head up to tail. */
  ghost predicate Window<E>(store: Store<E>, key: nat -> string, head: nat, tail: nat) {
    head <= tail && forall n: nat :: Holds(store, key, n, head, tail)
  }

  lemma {:induction false} TakeWindow<E>(store: Store<E>, key: nat -> string, head: nat, tail: nat, from: nat, n: nat)
    requires Window(store, key, head, tail) && head <= from <= from + n <= tail
    ensures Take(store, key, from, n).Some?
  {
    if n > 0 {
      TakeWindow(store, key, head, tail, from, n - 1);
      assert Holds(store, key, from + n, head, tail);
    }
  }

  lemma {:induction false} TakeSame<E>(a: Store<E>, b: Store<E>, key: nat -> string, head: nat, n: nat)
    requires forall k: nat :: head < k <= head + n ==> EventAt(a, key, k) == EventAt(b, key, k)
    ensures Take(a, key, head, n) == Take(b, key, head, n)
  {
    if n > 0 {
      TakeSame(a, b, key, head, n - 1);
      assert EventAt(a, key, head + n) == EventAt(b, key, head + n);
    }
  }

  lemma {:induction false} TakeSplit<E>(store: Store<E>, key: nat -> string, head: nat, m: nat, n: nat)
    ensures Take(store, key, head, m + n).Some? <==>
              Take(store, key, head, m).Some? && Take(store, key, head + m, n).Some?
    ensures Take(store, key, head, m + n).Some? ==>
              Take(store, key, head, m + n).value ==
                  Take(store, key, head, m).value + Take(store, key, head + m, n).value
  {
    if n > 0 {
      TakeSplit(store, key, head, m, n - 1);
      assert head + m + n == head + (m + n);
    }
  }

  lemma TakeFront<E>(store: Store<E>, key: nat -> string, head: nat, tail: nat, n: nat)
    requires Window(store, key, head, tail) && n <= tail - head
    ensures Take(store, key, head, tail - head).Some?
    ensures Take(store, key, head, n) == Some(Take(store, key, head, tail - head).value[..n])
    ensures Take(store, key, head + n, tail - (head + n)) == Some(Take(store, key, head, tail - head).value[n..])
  {
    var left := tail - head - n;
    TakeWindow(store, key, head, tail, head, n + left);
    TakeSplit(store, key, head, n, left);
    assert n + left == tail - head && left == tail - (head + n);
  }

  lemma {:induction false} TakeReads<E>(store: Store<E>, key: nat -> string, head: nat, values: seq<E>)
    requires forall k: nat :: head < k <= head + |values| ==> EventAt(store, key, k) == Some(values[k - head - 1])
    ensures Take(store, key, head, |values|) == Some(values)
  {
    if values != [] {
      var last := |values| - 1;
      TakeReads(store, key, head, values[..last]);
      assert EventAt(store, key, head + |values|) == Some(values[last]);
      assert values == values[..last] + [values[last]];
    }
  }

  lemma TakeNext<E>(store: Store<E>, key: nat -> string, head: nat, n: nat)
    requires n > 0 && EventAt(store, key, head + n).Some? && Take(store, key, head, n - 1).Some?
    ensures Take(store, key, head, n) == Some(Take(store, key, head, n - 1).value
            + [EventAt(store, key, head + n).value])
    ensures Deleted(store, key, head, n) == Deleted(store, key, head, n - 1) - {key(head + n)}
  {
  }

  lemma {:induction false} TakeIsReadable<E>(store: Store<E>, key: nat -> string, head: nat, n: nat)
    requires Take(store, key, head, n).Some?
    ensures forall i: nat :: head < i <= head + n ==> EventAt(store, key, i).Some?
  {
    if n > 0 {
      TakeIsReadable(store, key, head, n - 1);
    }
  }

  // ----- What a push and a pop do to the log -----

  function Written<E>(store: Store<E>, key: nat -> string, tail: nat, values: seq<E>): Store<E> {
    if values == [] then store else
    var last := |values| - 1;
    Written(store, key, tail, values[..last])[key(tail + |values|) := Event(values[last])]
  }

  function Deleted<E>(store: Store<E>, key: nat -> string, head: nat, n: nat): Store<E> {
    if n == 0 then store else Deleted(store, key, head, n - 1) - {key(head + n)}
  }

  lemma {:induction false} WrittenElsewhere<E>(store: Store<E>, key: nat -> string, tail: nat, values: seq<E>,
        k: string)
    requires Foreign(key, k)
    ensures SameAt(store, Written(store, key, tail, values), k)
  {
    if values != [] {
      WrittenElsewhere(store, key, tail, values[..|values| - 1], k);
    }
  }

  lemma {:induction false} DeletedElsewhere<E>(store: Store<E>, key: nat -> string, head: nat, n: nat, k: string)
    requires Foreign(key, k)
    ensures SameAt(store, Deleted(store, key, head, n), k)
  {
    if n > 0 {
      DeletedElsewhere(store, key, head, n - 1, k);
    }
  }

  lemma WriteElsewhere<E>(store: Store<E>, key: nat -> string, k: string, v: Stored<E>, head: nat, tail: nat)
    requires Foreign(key, k) && Window(store, key, head, tail)
    ensures Window(store[k := v], key, head, tail)
    ensures Take(store[k := v], key, head, tail - head) == Take(store, key, head, tail - head)
  {
    var after := store[k := v];
    forall n: nat ensures Holds(after, key, n, head, tail) {
      assert Holds(store, key, n, head, tail);
    }
    TakeSame(after, store, key, head, tail - head);
  }

  lemma {:induction false} WrittenAt<E>(store: Store<E>, key: nat -> string, tail: nat, values: seq<E>, k: nat)
    requires Apart(key)
    ensures var after := Written(store, key, tail, values);
            if tail < k <= tail + |values| then EventAt(after, key, k) == Some(values[k - tail - 1])
            else SameAt(store, after, key(k))
  {
    if values != [] {
      WrittenAt(store, key, tail, values[..|values| - 1], k);
      assert key(k) == key(tail + |values|) ==> k == tail + |values|;
    }
  }

  lemma {:induction false} DeletedAt<E>(store: Store<E>, key: nat -> string, head: nat, n: nat, k: nat)
    requires Apart(key)
    ensures var after := Deleted(store, key, head, n);
            if head < k <= head + n then key(k) !in after else SameAt(store, after, key(k))
  {
    if n > 0 {
      DeletedAt(store, key, head, n - 1, k);
      assert key(k) == key(head + n) ==> k == head + n;
    }
  }

  lemma WrittenWindow<E>(store: Store<E>, key: nat -> string, head: nat, tail: nat, values: seq<E>)
    requires Apart(key) && Window(store, key, head, tail)
    ensures Window(Written(store, key, tail, values), key, head, tail + |values|)
  {
    var after, tail' := Written(store, key, tail, values), tail + |values|;
    forall k: nat ensures Holds(after, key, k, head, tail') {
      assert Holds(store, key, k, head, tail);
      WrittenAt(store, key, tail, values, k);
    }
  }

  lemma TakeAppended<E>(store: Store<E>, after: Store<E>, key: nat -> string, head: nat, tail: nat, values: seq<E>)
    requires head <= tail && Take(store, key, head, tail - head).Some?
    requires forall k: nat :: head < k <= tail ==> EventAt(after, key, k) == EventAt(store, key, k)
    requires forall k: nat :: tail < k <= tail + |values| ==> EventAt(after, key, k) == Some(values[k - tail - 1])
    ensures Take(after, key, head, tail - head + |values|) == Some(Take(store, key, head, tail - head).value + values)
  {
    TakeSame(after, store, key, head, tail - head);
    TakeReads(after, key, tail, values);
    TakeSplit(after, key, head, tail - head, |values|);
  }

  lemma WrittenEvents<E>(store: Store<E>, key: nat -> string, head: nat, tail: nat, values: seq<E>)
    requires Apart(key) && Window(store, key, head, tail)
    ensures Take(store, key, head, tail - head).Some?
    ensures Take(Written(store, key, tail, values), key, head, tail - head + |values|)
              == Some(Take(store, key, head, tail - head).value + values)
  {
    var after := Written(store, key, tail, values);
    TakeWindow(store, key, head, tail, head, tail - head);
    forall k: nat | tail < k <= tail + |values| ensures EventAt(after, key, k) == Some(values[k - tail - 1]) {
      WrittenAt(store, key, tail, values, k);
    }
    forall k: nat | head < k <= tail ensures EventAt(after, key, k) == EventAt(store, key, k) {
      WrittenAt(store, key, tail, values, k);
    }
    TakeAppended(store, after, key, head, tail, values);
  }

  lemma DeletedEvents<E>(store: Store<E>, key: nat -> string, head: nat, tail: nat, n: nat)
    requires Apart(key) && Window(store, key, head, tail) && n <= tail - head
    ensures var after := Deleted(store, key, head, n);
            && Window(after, key, head + n, tail)
            && Take(after, key, head + n, tail - (head + n)) == Take(store, key, head + n, tail - (head + n))
  {
    var after, head' := Deleted(store, key, head, n), head + n;
    forall k: nat ensures Holds(after, key, k, head', tail) {
      assert Holds(store, key, k, head, tail);
      DeletedAt(store, key, head, n, k);
    }
    forall k: nat | head' < k <= tail ensures EventAt(after, key, k) == EventAt(store, key, k) {
      DeletedAt(store, key, head, n, k);
    }
    TakeSame(after, store, key, head', tail - head');
  }

  // ----- A log between two counters -----

  /** Which keys a queue uses. */
  datatype Layout = Layout(key: nat -> string, headKey: string, tailKey: string)

  ghost predicate Sound(l: Layout) {
    Apart(l.key) && Foreign(l.key, l.headKey) && Foreign(l.key, l.tailKey) && l.headKey != l.tailKey
  }

  /** The number a text of digits stands for. */
  function ParseUint(text: string): Option<nat> {
    if text != [] && AllDigits(text) then Some(Value(text)) else None
  }

  /** getCounter: a missing key counts as 0, a text that is no number is an error. */
  function GetCounter<E>(store: Store<E>, k: string): Option<nat> {
    if k !in store then Some(0) else if store[k].Text? then ParseUint(store[k].text) else None
  }

  /** Callers that drop getCounter's error go on with 0. */
  function Head<E>(store: Store<E>, l: Layout): nat {
    var head := GetCounter(store, l.headKey);
    if head.Some? then head.value else 0
  }

  function Tail<E>(store: Store<E>, l: Layout): nat {
    var tail := GetCounter(store, l.tailKey);
    if tail.Some? then tail.value else 0
  }

  /** The store of a queue: readable counters and a window of events between them. */
  ghost predicate WellFormed<E>(store: Store<E>, l: Layout) {
    && GetCounter(store, l.headKey).Some?
    && GetCounter(store, l.tailKey).Some?
    && Window(store, l.key, Head(store, l), Tail(store, l))
  }

  /** The queue a well-formed store stands for. */
  ghost function StoredEvents<E>(store: Store<E>, l: Layout): (s: seq<E>)
    requires WellFormed(store, l)
    ensures |s| == Tail(store, l) - Head(store, l)
    ensures Take(store, l.key, Head(store, l), Tail(store, l) - Head(store, l)) == Some(s)
  {
    var head, tail := Head(store, l), Tail(store, l);
    TakeWindow(store, l.key, head, tail, head, tail - head);
    Take(store, l.key, head, tail - head).value
  }

  lemma WriteCounter<E>(store: Store<E>, k: string, n: nat)
    ensures GetCounter(store[k := Text(FormatUint(n))], k) == Some(n)
  {
    FormatValue(n);
  }

  /** The store after one batch that writes the events and then the tail that covers them. */
  function Pushed<E>(store: Store<E>, l: Layout, values: seq<E>): Store<E> {
    Written(store, l.key, Tail(store, l), values)[l.tailKey := Text(FormatUint(Tail(store, l) + |values|))]
  }

  /** The store after one batch that deletes the first n events and then moves the head past them. */
  function Popped<E>(store: Store<E>, l: Layout, n: nat): Store<E> {
    Deleted(store, l.key, Head(store, l), n)[l.headKey := Text(FormatUint(Head(store, l) + n))]
  }

  /** Writing the tail closes the batch of a push. */
  lemma CommitTail<E>(written: Store<E>, l: Layout, head: nat, tail: nat, n: nat)
    requires Sound(l) && Window(written, l.key, head, tail) && GetCounter(written, l.headKey) == Some(head)
    requires n == tail - head
    ensures var after := written[l.tailKey := Text(FormatUint(tail))];
            && WellFormed(after, l) && Head(after, l) == head && Tail(after, l) == tail
            && Some(StoredEvents(after, l)) == Take(written, l.key, head, n)
  {
    WriteCounter(written, l.tailKey, tail);
    WriteElsewhere(written, l.key, l.tailKey, Text(FormatUint(tail)), head, tail);
  }

  /** Writing the head closes the batch of a pop. */
  lemma CommitHead<E>(deleted: Store<E>, l: Layout, head: nat, tail: nat)
    requires Sound(l) && Window(deleted, l.key, head, tail) && GetCounter(deleted, l.tailKey) == Some(tail)
    ensures var after := deleted[l.headKey := Text(FormatUint(head))];
            && WellFormed(after, l) && Head(after, l) == head && Tail(after, l) == tail
            && Some(StoredEvents(after, l)) == Take(deleted, l.key, head, tail - head)
  {
    WriteCounter(deleted, l.headKey, head);
    WriteElsewhere(deleted, l.key, l.headKey, Text(FormatUint(head)), head, tail);
  }

  lemma PushKeeps<E>(store: Store<E>, l: Layout, head: nat, tail: nat, values: seq<E>, n: nat)
    requires Sound(l) && WellFormed(store, l) && head == Head(store, l) && tail == Tail(store, l)
    requires n == tail - head + |values|
    ensures var after := Pushed(store, l, values);
            && WellFormed(after, l) && Head(after, l) == head && Tail(after, l) == tail + |values|
            && Some(StoredEvents(after, l)) == Take(Written(store, l.key, tail, values), l.key, head, n)
  {
    var written := Written(store, l.key, tail, values);
    WrittenWindow(store, l.key, head, tail, values);
    WrittenElsewhere(store, l.key, tail, values, l.headKey);
    CommitTail(written, l, head, tail + |values|, n);
  }

  lemma PushAppends<E>(store: Store<E>, l: Layout, values: seq<E>)
    requires Sound(l) && WellFormed(store, l)
    ensures WellFormed(Pushed(store, l, values), l)
    ensures StoredEvents(Pushed(store, l, values), l) == StoredEvents(store, l) + values
    ensures Head(Pushed(store, l, values), l) == Head(store, l)
  {
    var head, tail := Head(store, l), Tail(store, l);
    WrittenEvents(store, l.key, head, tail, values);
    PushKeeps(store, l, head, tail, values, tail - head + |values|);
  }

  lemma StoredFront<E>(store: Store<E>, l: Layout, n: nat)
    requires WellFormed(store, l) && n <= |StoredEvents(store, l)|
    ensures Take(store, l.key, Head(store, l), n) == Some(StoredEvents(store, l)[..n])
    ensures Take(store, l.key, Head(store, l) + n, Tail(store, l) - (Head(store, l) + n)) ==
            Some(StoredEvents(store, l)[n..])
  {
    TakeFront(store, l.key, Head(store, l), Tail(store, l), n);
  }

  lemma PopKeeps<E>(store: Store<E>, l: Layout, head: nat, tail: nat, n: nat)
    requires Sound(l) && WellFormed(store, l) && head == Head(store, l) && tail == Tail(store, l) && n <= tail - head
    ensures var after := Popped(store, l, n);
            && WellFormed(after, l) && Head(after, l) == head + n && Tail(after, l) == tail
            && Some(StoredEvents(after, l)) == Take(store, l.key, head + n, tail - (head + n))
  {
    var deleted := Deleted(store, l.key, head, n);
    DeletedEvents(store, l.key, head, tail, n);
    DeletedElsewhere(store, l.key, head, n, l.tailKey);
    CommitHead(deleted, l, head + n, tail);
  }

  lemma PopTakesFront<E>(store: Store<E>, l: Layout, n: nat)
    requires Sound(l) && WellFormed(store, l) && n <= |StoredEvents(store, l)|
    ensures WellFormed(Popped(store, l, n), l)
    ensures StoredEvents(Popped(store, l, n), l) == StoredEvents(store, l)[n..]
    ensures Head(Popped(store, l, n), l) == Head(store, l) + n
  {
    StoredFront(store, l, n);
    PopKeeps(store, l, Head(store, l), Tail(store, l), n);
  }

  function Repair<E>(store: Store<E>, l: Layout): Store<E> {
    if Tail(store, l) < Head(store, l) then store[l.tailKey := Text(FormatUint(Head(store, l)))] else store
  }

  lemma EmptyWindow<E>(store: Store<E>, key: nat -> string, head: nat)
    ensures Window(store, key, head, head)
  {
  }

  /** Counter repair leaves a well-formed store alone, and where the tail was behind the head it leaves
      an empty queue. */
  lemma RepairOrdersCounters<E>(store: Store<E>, l: Layout)
    requires Sound(l)
    ensures WellFormed(store, l) ==> Repair(store, l) == store
    ensures Head(Repair(store, l), l) == Head(store, l)
    ensures Head(Repair(store, l), l) <= Tail(Repair(store, l), l)
    ensures GetCounter(store, l.headKey).Some? && Tail(store, l) < Head(store, l) ==>
              WellFormed(Repair(store, l), l) && StoredEvents(Repair(store, l), l) == []
  {
    WriteCounter(store, l.tailKey, Head(store, l));
    EmptyWindow(Repair(store, l), l.key, Head(store, l));
  }
}
