/**
 * What the breadth-first and depth-first iterators share (iterator/iterator.go): the labels a
 * step adds to the frontier, and the reachability facts both traversals rely on.
 */
module Iterators {
  import opened Vertices
  import opened Grafik
  import opened Paths

  /** No label occurs twice. */
  ghost predicate NoDup<T>(s: seq<T>)
  {
    forall i, j | 0 <= i < j < |s| :: s[i] != s[j]
  }

  /** The labels of a sequence, as a set. */
  function Elems<T>(s: seq<T>): set<T>
  {
    set x | x in s
  }

  /** A listing of distinct labels that covers a set holds each of its elements once. */
  lemma {:induction false} ListingMultiset<T>(ls: seq<T>, keys: set<T>)
    requires forall i | 0 <= i < |ls| :: ls[i] in keys
    requires forall l | l in keys :: exists i | 0 <= i < |ls| :: ls[i] == l
    requires NoDup(ls)
    ensures multiset(ls) == multiset(keys)
    decreases |ls|
  {
    if |ls| > 0 {
      var x := ls[|ls| - 1];
      var init := ls[..|ls| - 1];
      assert ls == init + [x];
      forall l | l in keys - {x}
        ensures exists i | 0 <= i < |init| :: init[i] == l
      {
        var i :| 0 <= i < |ls| && ls[i] == l;
        assert init[i] == l;
      }
      ListingMultiset(init, keys - {x});
      assert keys == (keys - {x}) + {x};
    } else {
      assert forall l | l in keys :: false;
    }
  }

  /** In a sequence without duplicates, some label lies past the first `k` exactly when `k` is short of the end. */
  lemma PendingIffUnyielded<T>(s: seq<T>, k: int)
    requires 0 <= k <= |s|
    ensures NoDup(s) ==> (k < |s| <==> Elems(s) - Elems(s[..k]) != {})
  {
    if k < |s| && NoDup(s) {
      assert s[k] in Elems(s) - Elems(s[..k]);
    } else if k == |s| {
      assert s[..k] == s;
    }
  }

  /**
   * The labels a traversal step adds, in neighbor order: each neighbor not yet visited, once,
   * at its first occurrence. Marking a label visited as it is added keeps later duplicates out.
   */
  function Unvisited<T>(ns: seq<T>, visited: set<T>): (r: seq<T>)
    ensures NoDup(r)
    ensures forall x | x in r :: x in ns && x !in visited
    ensures forall x | x in ns && x !in visited :: x in r
  {
    if ns == [] then []
    else
      var r0 := Unvisited(ns[..|ns| - 1], visited);
      var x := ns[|ns| - 1];
      assert forall y | y in ns :: y in ns[..|ns| - 1] || y == x;
      if x in visited || x in r0 then r0 else r0 + [x]
  }

  /** One more neighbor step from a reachable vertex reaches a stored vertex. */
  lemma ReachableStep<T(!new)>(vs: VertexMap<T>, s: T, u: T, n: T)
    requires Reachable(vs, s, u) && Adjacent(vs, u, n) && n in vs
    ensures Reachable(vs, s, n)
  {
    var p :| IsWalkFromTo(vs, p, s, u);
    assert (p + [n])[..|p|] == p;
    assert IsWalkFromTo(vs, p + [n], s, n);
  }

  /** A stored start vertex reaches itself. */
  lemma ReachableStart<T(!new)>(vs: VertexMap<T>, s: T)
    requires s in vs
    ensures Reachable(vs, s, s)
  {
    assert IsWalkFromTo(vs, [s], s, s);
  }

  /** A set that holds the start and every stored neighbor of its members holds the whole walk. */
  lemma {:induction false} WalkStaysInClosed<T>(vs: VertexMap<T>, closed: set<T>, p: seq<T>)
    requires IsWalk(vs, p) && p[0] in closed
    requires forall x, n | x in closed && Adjacent(vs, x, n) :: n in closed
    ensures p[|p| - 1] in closed
  {
    if |p| > 1 {
      var q := p[..|p| - 1];
      assert IsWalk(vs, q);
      WalkStaysInClosed(vs, closed, q);
      assert Adjacent(vs, q[|q| - 1], p[|p| - 1]);
    }
  }

  /** A set that holds the start and is closed under the neighbor relation holds every reachable vertex. */
  lemma ClosedContainsReachable<T(!new)>(vs: VertexMap<T>, s: T, closed: set<T>)
    requires s in closed
    requires forall x, n | x in closed && Adjacent(vs, x, n) :: n in closed
    ensures forall v | Reachable(vs, s, v) :: v in closed
  {
    forall v | Reachable(vs, s, v)
      ensures v in closed
    {
      var p :| IsWalkFromTo(vs, p, s, v);
      WalkStaysInClosed(vs, closed, p);
    }
  }

  /** A sequence without duplicates whose labels lie in a set is no longer than the set. */
  lemma {:induction false} NoDupBound<T>(s: seq<T>, bound: set<T>)
    requires NoDup(s) && Elems(s) <= bound
    ensures |s| <= |bound|
  {
    if s != [] {
      var x := s[|s| - 1];
      var q := s[..|s| - 1];
      assert Elems(q) <= bound - {x} by {
        forall y | y in Elems(q)
          ensures y in bound - {x}
        {
          var k :| 0 <= k < |q| && q[k] == y;
          assert s[k] == y;
        }
      }
      NoDupBound(q, bound - {x});
    }
  }
}
