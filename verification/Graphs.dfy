/** Finite directed graphs as sets of edges: reachability, cycles, topological orders, and
    the invariant of a three-colour depth-first search. */
module Graphs {
  import opened Prelude

  ghost predicate IsWalk<T>(e: set<(T, T)>, p: seq<T>) {
    forall i :: 0 <= i < |p| - 1 ==> (p[i], p[i + 1]) in e
  }

  ghost predicate IsWalkBetween<T>(e: set<(T, T)>, p: seq<T>, a: T, b: T) {
    |p| >= 2 && p[0] == a && p[|p| - 1] == b && IsWalk(e, p)
  }

  /** b can be reached from a along one edge or more. */
  ghost predicate Reaches<T(!new)>(e: set<(T, T)>, a: T, b: T) {
    exists p :: IsWalkBetween(e, p, a, b)
  }

  ghost predicate Acyclic<T(!new)>(e: set<(T, T)>) {
    forall a :: !Reaches(e, a, a)
  }

  function Successors<T>(e: set<(T, T)>, a: T): set<T> {
    set x | x in e && x.0 == a :: x.1
  }

  lemma EdgeReaches<T(!new)>(e: set<(T, T)>, a: T, b: T)
    requires (a, b) in e
    ensures Reaches(e, a, b)
  {
    assert IsWalkBetween(e, [a, b], a, b);
  }

  lemma ReachesTransitive<T(!new)>(e: set<(T, T)>, a: T, b: T, c: T)
    requires Reaches(e, a, b) && Reaches(e, b, c)
    ensures Reaches(e, a, c)
  {
    var p :| IsWalkBetween(e, p, a, b);
    var q :| IsWalkBetween(e, q, b, c);
    var r := p + q[1..];
    forall i | 0 <= i < |r| - 1
      ensures (r[i], r[i + 1]) in e
    {
      if i < |p| - 1 {
        assert (p[i], p[i + 1]) in e;
      } else {
        var j := i - (|p| - 1);
        assert r[i] == q[j] && r[i + 1] == q[j + 1];
      }
    }
    assert IsWalkBetween(e, r, a, c);
  }

  lemma ReachesFirstStep<T(!new)>(e: set<(T, T)>, a: T, b: T) returns (c: T)
    requires Reaches(e, a, b)
    ensures (a, c) in e && (c == b || Reaches(e, c, b))
  {
    var p :| IsWalkBetween(e, p, a, b);
    c := p[1];
    assert (p[0], p[0 + 1]) in e;
    if |p| > 2 {
      var q := p[1..];
      forall i | 0 <= i < |q| - 1
        ensures (q[i], q[i + 1]) in e
      {
        assert (p[i + 1], p[i + 1 + 1]) in e;
      }
      assert IsWalkBetween(e, q, c, b);
    }
  }

  lemma ReachesMonotone<T(!new)>(e: set<(T, T)>, f: set<(T, T)>, a: T, b: T)
    requires e <= f && Reaches(e, a, b)
    ensures Reaches(f, a, b)
  {
    var p :| IsWalkBetween(e, p, a, b);
    assert IsWalkBetween(f, p, a, b);
  }

  /** A walk that starts at a successor-closed set's member never leaves the set. */
  lemma ClosedStays<T(!new)>(e: set<(T, T)>, s: set<T>, a: T, b: T)
    requires forall x :: x in s ==> Successors(e, x) <= s
    requires a in s && Reaches(e, a, b)
    ensures b in s
  {
    var p :| IsWalkBetween(e, p, a, b);
    var i := 0;
    while i < |p| - 1
      invariant 0 <= i < |p|
      invariant p[i] in s
    {
      assert (p[i], p[i + 1]) in e;
      assert p[i + 1] in Successors(e, p[i]);
      i := i + 1;
    }
  }

  /** In an acyclic graph every non-empty finite set has a member none of whose successors
      is in the set. */
  lemma {:induction false} MinimalMember<T(!new)>(e: set<(T, T)>, s: set<T>) returns (m: T)
    requires Acyclic(e) && s != {}
    ensures m in s && Successors(e, m) !! s
    decreases |s|
  {
    var x :| x in s;
    var below := set y | y in s && Reaches(e, x, y);
    if below == {} {
      m := x;
      forall y | y in Successors(e, x) ensures y !in s {
        EdgeReaches(e, x, y);
        assert y in s ==> y in below;
      }
    } else {
      assert below <= s - {x};
      SubsetSize(below, s - {x});
      m := MinimalMember(e, below);
      forall y | y in Successors(e, m) ensures y !in s {
        EdgeReaches(e, m, y);
        ReachesTransitive(e, x, m, y);
      }
    }
  }

  /** order lists exactly the nodes, each once, every successor before its predecessor. */
  ghost predicate IsTopologicalOrder<T(!new)>(e: set<(T, T)>, nodes: set<T>, order: seq<T>) {
    && Distinct(order)
    && (forall n :: n in order <==> n in nodes)
    && forall i, j :: 0 <= i < |order| && 0 <= j < |order| && (order[i], order[j]) in e ==> j < i
  }

  lemma {:induction false} TopologicalOrder<T(!new)>(e: set<(T, T)>, nodes: set<T>) returns (order: seq<T>)
    requires Acyclic(e)
    ensures IsTopologicalOrder(e, nodes, order)
    decreases |nodes|
  {
    if nodes == {} {
      order := [];
    } else {
      var m := MinimalMember(e, nodes);
      var rest := TopologicalOrder(e, nodes - {m});
      order := [m] + rest;
      forall i, j | 0 <= i < |order| && 0 <= j < |order| && (order[i], order[j]) in e
        ensures j < i
      {
        assert j > 0 ==> order[j] == rest[j - 1] && rest[j - 1] in rest;
        assert order[j] in nodes;
        if i > 0 && j > 0 {
          assert (rest[i - 1], rest[j - 1]) in e;
        }
      }
    }
  }

  /** The converse: an order of that shape rules out a cycle among the nodes. */
  lemma OrderMeansAcyclic<T(!new)>(e: set<(T, T)>, nodes: set<T>, order: seq<T>, a: T)
    requires IsTopologicalOrder(e, nodes, order)
    requires forall x :: x in e ==> x.0 in nodes && x.1 in nodes
    ensures !Reaches(e, a, a)
  {
    if Reaches(e, a, a) {
      var p :| IsWalkBetween(e, p, a, a);
      assert (p[0], p[0 + 1]) in e;
      var start :| 0 <= start < |order| && order[start] == a;
      var at, i := start, 0;
      while i < |p| - 1
        invariant 0 <= i < |p|
        invariant 0 <= at < |order| && order[at] == p[i]
        invariant at <= start && (i > 0 ==> at < start)
      {
        assert (p[i], p[i + 1]) in e;
        var next :| 0 <= next < |order| && order[next] == p[i + 1];
        at, i := next, i + 1;
      }
    }
  }

  // ----- Three-colour depth-first search -----

  /** What a depth-first search keeps. grey is the recursion stack as a walk; the black nodes
      (visited and off the stack) are closed under successors and lie on no cycle. */
  ghost predicate DfsInvariant<T(!new)>(e: set<(T, T)>, visited: set<T>, grey: seq<T>) {
    && Distinct(grey)
    && (forall n :: n in grey ==> n in visited)
    && IsWalk(e, grey)
    && (forall n :: n in visited && n !in grey ==> Blackened(e, visited, grey, Successors(e, n)))
    && forall n :: n in visited && n !in grey ==> !Reaches(e, n, n)
  }

  ghost predicate Blackened<T>(e: set<(T, T)>, visited: set<T>, grey: seq<T>, s: set<T>) {
    forall n :: n in s ==> n in visited && n !in grey
  }

  /** n may be visited next: it is a root of the search or a successor of the stack's top. */
  ghost predicate MayVisit<T>(e: set<(T, T)>, grey: seq<T>, n: T) {
    grey == [] || (grey[|grey| - 1], n) in e
  }

  lemma DfsPush<T(!new)>(e: set<(T, T)>, visited: set<T>, grey: seq<T>, n: T)
    requires DfsInvariant(e, visited, grey) && n !in visited && MayVisit(e, grey, n)
    ensures DfsInvariant(e, visited + {n}, grey + [n])
  {
    forall b | b in visited + {n} && b !in grey + [n]
      ensures Blackened(e, visited + {n}, grey + [n], Successors(e, b)) && !Reaches(e, b, b)
    {
      assert b in visited && b !in grey;
      assert Blackened(e, visited, grey, Successors(e, b));
    }
  }

  /** Meeting a node of the stack again closes a cycle. */
  lemma DfsHit<T(!new)>(e: set<(T, T)>, visited: set<T>, grey: seq<T>, n: T)
    requires DfsInvariant(e, visited, grey) && n in grey && MayVisit(e, grey, n)
    ensures !Acyclic(e)
  {
    var i :| 0 <= i < |grey| && grey[i] == n;
    var p := grey[i..] + [n];
    forall k | 0 <= k < |p| - 1
      ensures (p[k], p[k + 1]) in e
    {
      if k < |grey| - i - 1 {
        assert (grey[i + k], grey[i + k + 1]) in e;
      } else {
        assert p[k] == grey[|grey| - 1] && p[k + 1] == n;
      }
    }
    assert IsWalkBetween(e, p, n, n);
    assert Reaches(e, n, n);
  }

  /** Leaving a node whose successors are all black keeps the invariant. */
  lemma DfsPop<T(!new)>(e: set<(T, T)>, visited: set<T>, grey: seq<T>, n: T)
    requires DfsInvariant(e, visited, grey + [n])
    requires Blackened(e, visited, grey + [n], Successors(e, n))
    ensures DfsInvariant(e, visited, grey)
    ensures n in visited && n !in grey
  {
    var all := grey + [n];
    assert all[|grey|] == n;
    assert n in all;
    forall i | 0 <= i < |grey| ensures grey[i] == all[i] {}
    if Reaches(e, n, n) {
      var c := ReachesFirstStep(e, n, n);
      assert c in Successors(e, n);
      var black := set b | b in visited && b !in all;
      forall x | x in black ensures Successors(e, x) <= black {
        assert Blackened(e, visited, all, Successors(e, x));
      }
      assert c in black;
      if c != n {
        ClosedStays(e, black, c, n);
      }
    }
    forall b | b in visited && b !in grey
      ensures Blackened(e, visited, grey, Successors(e, b)) && !Reaches(e, b, b)
    {
      if b != n {
        assert b !in all;
        assert Blackened(e, visited, all, Successors(e, b));
      }
    }
    forall i | 0 <= i < |grey| - 1 ensures (grey[i], grey[i + 1]) in e {
      assert (all[i], all[i + 1]) in e;
    }
  }

  /** Once every node with an outgoing edge is black, there is no cycle. */
  lemma DfsDone<T(!new)>(e: set<(T, T)>, visited: set<T>)
    requires DfsInvariant(e, visited, [])
    requires forall x :: x in e ==> x.0 in visited
    ensures Acyclic(e)
  {
    forall a ensures Reaches(e, a, a) ==> a in visited {
      if Reaches(e, a, a) {
        var c := ReachesFirstStep(e, a, a);
        assert (a, c).0 in visited;
      }
    }
  }
}
