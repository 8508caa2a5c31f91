/**
 * The breadth-first iterator (iterator/breadth_first_iterator.go). The queue is never shrunk:
 * `head` is the slot of the label yielded last, so `queue[..head + 1]` is what has been yielded
 * and `queue[head + 1..]` what is still waiting. A label is marked visited when it is queued.
 */
module BreadthFirst {
  import opened Wrappers
  import opened Vertices
  import opened Grafik
  import opened Paths
  import opened Iterators

  /** Some walk from `s` to `v` takes at most `k` neighbor steps. */
  ghost predicate WithinHops<T(!new)>(vs: VertexMap<T>, s: T, v: T, k: nat)
  {
    exists p :: IsWalkFromTo(vs, p, s, v) && |p| <= k + 1
  }

  /** Below any step count that suffices lies a least one. */
  lemma {:induction false} LeastHops<T(!new)>(vs: VertexMap<T>, s: T, v: T, k: nat)
    requires WithinHops(vs, s, v, k)
    ensures exists m: nat :: WithinHops(vs, s, v, m) && forall j: nat | j < m :: !WithinHops(vs, s, v, j)
    decreases k
  {
    if exists j: nat :: j < k && WithinHops(vs, s, v, j) {
      var j: nat :| j < k && WithinHops(vs, s, v, j);
      LeastHops(vs, s, v, j);
    }
  }

  /** The hop distance from `s` to `v`: the fewest neighbor steps of any walk between them. */
  ghost function Hops<T(!new)>(vs: VertexMap<T>, s: T, v: T): nat
    requires Reachable(vs, s, v)
  {
    var p :| IsWalkFromTo(vs, p, s, v);
    assert WithinHops(vs, s, v, |p| - 1);
    LeastHops(vs, s, v, |p| - 1);
    var m: nat :| WithinHops(vs, s, v, m) && forall j: nat | j < m :: !WithinHops(vs, s, v, j);
    m
  }

  /** Some walk from `s` to `v` takes Hops steps, and none takes fewer. */
  lemma HopsLeast<T(!new)>(vs: VertexMap<T>, s: T, v: T)
    requires Reachable(vs, s, v)
    ensures WithinHops(vs, s, v, Hops(vs, s, v))
    ensures forall j: nat | j < Hops(vs, s, v) :: !WithinHops(vs, s, v, j)
  {
  }

  /** Only the start itself is zero steps away. */
  lemma HopsZero<T(!new)>(vs: VertexMap<T>, s: T, v: T)
    requires Reachable(vs, s, v)
    ensures Hops(vs, s, v) == 0 <==> v == s
  {
    HopsLeast(vs, s, v);
    if v == s {
      assert IsWalkFromTo(vs, [s], s, s);
      assert WithinHops(vs, s, v, 0);
    }
  }

  /** One neighbor step adds at most one to the hop distance. */
  lemma HopsStep<T(!new)>(vs: VertexMap<T>, s: T, u: T, n: T)
    requires Reachable(vs, s, u) && Adjacent(vs, u, n) && n in vs
    ensures Reachable(vs, s, n) && Hops(vs, s, n) <= Hops(vs, s, u) + 1
  {
    HopsLeast(vs, s, u);
    var p :| IsWalkFromTo(vs, p, s, u) && |p| <= Hops(vs, s, u) + 1;
    assert (p + [n])[..|p|] == p;
    assert IsWalkFromTo(vs, p + [n], s, n);
    assert WithinHops(vs, s, n, Hops(vs, s, u) + 1);
    HopsLeast(vs, s, n);
  }

  /** A vertex other than the start has a neighbor-predecessor exactly one step closer. */
  lemma HopsPred<T(!new)>(vs: VertexMap<T>, s: T, y: T) returns (x: T)
    requires Reachable(vs, s, y) && Hops(vs, s, y) > 0
    ensures Reachable(vs, s, x) && Adjacent(vs, x, y) && Hops(vs, s, x) + 1 == Hops(vs, s, y)
  {
    var k := Hops(vs, s, y);
    HopsLeast(vs, s, y);
    var p :| IsWalkFromTo(vs, p, s, y) && |p| <= k + 1;
    HopsZero(vs, s, y);
    assert |p| > 1;
    var q := p[..|p| - 1];
    x := q[|q| - 1];
    assert IsWalkFromTo(vs, q, s, x);
    assert Adjacent(vs, p[|p| - 2], p[|p| - 1]);
    assert WithinHops(vs, s, x, k - 1);
    HopsLeast(vs, s, x);
    HopsStep(vs, s, x, y);
  }

  /**
   * Hop distances never decrease along `q`, and the labels past slot `h`, those still waiting,
   * span at most two adjacent distances: none is more than one step farther than another.
   */
  ghost predicate Levelled<T(!new)>(vs: VertexMap<T>, s: T, q: seq<T>, h: int)
    requires -1 <= h
    requires forall l | l in q :: Reachable(vs, s, l)
  {
    && (forall i, j {:trigger Hops(vs, s, q[i]), Hops(vs, s, q[j])} | 0 <= i < j < |q| ::
         Hops(vs, s, q[i]) <= Hops(vs, s, q[j]))
    && (forall i, j {:trigger Hops(vs, s, q[i]), Hops(vs, s, q[j])} | h < i < j < |q| ::
         Hops(vs, s, q[j]) <= Hops(vs, s, q[i]) + 1)
  }

  /**
   * When slot `h` comes up, every vertex no farther from the start than its label has already
   * been queued: its predecessor one step closer sits before slot `h`, and was expanded.
   */
  lemma {:induction false} Covered<T(!new)>(vs: VertexMap<T>, s: T, q: seq<T>, v0: set<T>, h: int, y: T)
    requires 0 <= h < |q| && q[0] == s && v0 == Elems(q)
    requires forall l | l in q :: l in vs && Reachable(vs, s, l)
    requires forall i, j | 0 <= i < j < |q| :: Hops(vs, s, q[i]) <= Hops(vs, s, q[j])
    requires forall i | 0 <= i < h :: forall n | n in vs[q[i]].neighbors :: n in v0
    requires Reachable(vs, s, y) && Hops(vs, s, y) <= Hops(vs, s, q[h])
    ensures y in v0
    decreases Hops(vs, s, y)
  {
    HopsZero(vs, s, y);
    if y != s {
      var x := HopsPred(vs, s, y);
      Covered(vs, s, q, v0, h, x);
      var i :| 0 <= i < |q| && q[i] == x;
      assert i < h;
      assert y in vs[q[i]].neighbors;
    }
  }

  /**
   * Expanding slot `h`, whose label is `u`, keeps the queue in level order: a neighbor not yet
   * queued is exactly one step farther than `u`, so no farther than anything queued before it.
   */
  lemma LevelStep<T(!new)>(vs: VertexMap<T>, s: T, q0: seq<T>, v0: set<T>, h: int, added: seq<T>)
    requires 0 <= h < |q0| && q0[0] == s && v0 == Elems(q0)
    requires forall l | l in q0 :: l in vs && Reachable(vs, s, l)
    requires forall i | 0 <= i < h :: forall n | n in vs[q0[i]].neighbors :: n in v0
    requires Levelled(vs, s, q0, h - 1)
    requires forall x | x in added :: x in vs && x !in v0 && x in vs[q0[h]].neighbors
    ensures forall l | l in q0 + added :: Reachable(vs, s, l)
    ensures Levelled(vs, s, q0 + added, h)
  {
    var u := q0[h];
    var q := q0 + added;
    forall x | x in added
      ensures Reachable(vs, s, x) && Hops(vs, s, x) == Hops(vs, s, u) + 1
    {
      HopsStep(vs, s, u, x);
      if Hops(vs, s, x) <= Hops(vs, s, u) {
        Covered(vs, s, q0, v0, h, x);
        assert false;
      }
    }
    forall i | 0 <= i < |q0|
      ensures Hops(vs, s, q0[i]) <= Hops(vs, s, u) + 1
    {
      if i < h {
        assert Hops(vs, s, q0[i]) <= Hops(vs, s, q0[h]);
      } else if h < i {
        assert Hops(vs, s, q0[i]) <= Hops(vs, s, q0[h]) + 1;
      }
    }
    assert forall l | l in q :: l in q0 || l in added;
    forall i, j | 0 <= i < j < |q|
      ensures Hops(vs, s, q[i]) <= Hops(vs, s, q[j])
    {
      if j >= |q0| {
        assert q[j] == added[j - |q0|];
        if i < |q0| {
          assert q[i] == q0[i];
        } else {
          assert q[i] == added[i - |q0|];
        }
      } else {
        assert q[i] == q0[i] && q[j] == q0[j];
      }
    }
    forall i, j | h < i < j < |q|
      ensures Hops(vs, s, q[j]) <= Hops(vs, s, q[i]) + 1
    {
      assert Hops(vs, s, u) <= Hops(vs, s, q[i]) by {
        assert q[h] == u;
      }
      if j < |q0| {
        assert q[j] == q0[j];
      } else {
        assert q[j] == added[j - |q0|];
      }
    }
  }

  class BreadthFirstIterator<T(==,!new)> {
    const graph: Graph<T>
    const start: T
    var visited: set<T>
    var queue: seq<T>
    var head: int

    /**
     * The queue starts with the start label, has no duplicates, holds exactly the visited
     * labels, and only stored vertices reachable from the start; every neighbor of a yielded
     * label has been queued; the queue is in level order (see Levelled).
     */
    ghost predicate Valid()
      reads this, graph
    {
      && graph.Valid() && NeighborsStored(graph.vertices)
      && 0 < |queue| && -1 <= head < |queue| && queue[0] == start
      && NoDup(queue) && visited == Elems(queue)
      && (forall l | l in queue :: l in graph.vertices && Reachable(graph.vertices, start, l))
      && (forall i | 0 <= i <= head :: forall n | n in graph.vertices[queue[i]].neighbors :: n in visited)
      && Levelled(graph.vertices, start, queue, head)
    }

    /** A new iterator has queued the start label and yielded nothing. */
    constructor (g: Graph<T>, s: T)
      ensures graph == g && start == s
      ensures queue == [s] && head == -1 && visited == {s}
      ensures s in g.vertices && g.Valid() && NeighborsStored(g.vertices) ==> Valid()
    {
      graph := g;
      start := s;
      queue := [s];
      head := -1;
      visited := {s};
      new;
      if s in g.vertices {
        ReachableStart(g.vertices, s);
      }
    }

    /** True while some queued label has not been yielded. */
    function HasNext(): bool
      reads this
    {
      head < |queue| - 1
    }

    /** HasNext holds exactly while some visited label has not yet been yielded. */
    lemma HasNextIffUnyielded()
      requires Valid()
      ensures HasNext() <==> visited - Elems(queue[..head + 1]) != {}
    {
      PendingIffUnyielded(queue, head + 1);
    }

    /**
     * Yields the vertex of the next queued label and queues its unvisited neighbors in
     * neighbor order, marking them visited; None, with no change, when nothing is waiting.
     */
    method Next() returns (r: Option<Vertex<T>>)
      requires Valid()
      modifies this
      ensures Valid()
      ensures !old(HasNext()) ==> r.None? && queue == old(queue) && head == old(head) && visited == old(visited)
      ensures old(HasNext()) ==>
        && head == old(head) + 1
        && queue[head] in graph.vertices
        && r == Some(graph.vertices[queue[head]])
        && queue == old(queue) + Unvisited(graph.vertices[queue[head]].neighbors, old(visited))
        && visited == old(visited) + Elems(Unvisited(graph.vertices[queue[head]].neighbors, old(visited)))
    {
      if !HasNext() {
        return None;
      }
      head := head + 1;
      var current := graph.GetVertexByLabel(queue[head]);
      var neighbors := current.value.Neighbors();
      ghost var q0, v0 := queue, visited;
      ghost var u := queue[head];
      assert neighbors == graph.vertices[u].neighbors;
      EnqueueUnvisited(neighbors);
      NextKeepsValid(q0, v0, u);
      return current;
    }

    /** Queues and marks, in order, each label of `neighbors` not yet visited. */
    method EnqueueUnvisited(neighbors: seq<T>)
      modifies this
      ensures head == old(head)
      ensures queue == old(queue) + Unvisited(neighbors, old(visited))
      ensures visited == old(visited) + Elems(Unvisited(neighbors, old(visited)))
    {
      var i := 0;
      while i < |neighbors|
        invariant 0 <= i <= |neighbors| && head == old(head)
        invariant queue == old(queue) + Unvisited(neighbors[..i], old(visited))
        invariant visited == old(visited) + Elems(Unvisited(neighbors[..i], old(visited)))
      {
        var n := neighbors[i];
        assert neighbors[..i + 1][..i] == neighbors[..i];
        if n !in visited {
          visited := visited + {n};
          queue := queue + [n];
        }
        i := i + 1;
      }
      assert neighbors[..|neighbors|] == neighbors;
    }

    /** The state Next leaves behind satisfies the invariant. */
    lemma NextKeepsValid(q0: seq<T>, v0: set<T>, u: T)
      requires graph.Valid() && NeighborsStored(graph.vertices)
      requires 0 <= head < |q0| && q0[0] == start && q0[head] == u
      requires NoDup(q0) && v0 == Elems(q0)
      requires forall l | l in q0 :: l in graph.vertices && Reachable(graph.vertices, start, l)
      requires forall i | 0 <= i < head :: forall n | n in graph.vertices[q0[i]].neighbors :: n in v0
      requires Levelled(graph.vertices, start, q0, head - 1)
      requires queue == q0 + Unvisited(graph.vertices[u].neighbors, v0)
      requires visited == v0 + Elems(Unvisited(graph.vertices[u].neighbors, v0))
      ensures Valid()
    {
      var added := Unvisited(graph.vertices[u].neighbors, v0);
      assert WellKeyed(graph.vertices, graph.edges);
      forall l | l in added
        ensures l in graph.vertices && Reachable(graph.vertices, start, l)
      {
        ReachableStep(graph.vertices, start, u, l);
      }
      assert NoDup(queue) by {
        forall i, j | 0 <= i < j < |queue|
          ensures queue[i] != queue[j]
        {
          if j >= |q0| && i < |q0| {
            assert queue[j] in added && queue[i] in v0;
          }
        }
      }
      forall i | 0 <= i <= head
        ensures forall n | n in graph.vertices[queue[i]].neighbors :: n in visited
      {
        assert queue[i] == q0[i];
      }
      LevelStep(graph.vertices, start, q0, v0, head, added);
    }

    /**
     * Applies `f` to each remaining vertex in queue order and stops at, and returns, the
     * first error; None once every queued label has been yielded.
     */
    method Iterate<E>(f: Vertex<T> -> Option<E>) returns (err: Option<E>)
      requires Valid()
      modifies this
      ensures Valid() && old(head) <= head && old(queue) <= queue
      ensures forall i | old(head) < i < head :: f(graph.vertices[queue[i]]).None?
      ensures err.None? ==> !HasNext() && (old(head) < head ==> f(graph.vertices[queue[head]]).None?)
      ensures err.Some? ==> old(head) < head && err == f(graph.vertices[queue[head]])
    {
      ghost var h0 := head;
      while HasNext()
        invariant Valid() && h0 <= head && old(queue) <= queue
        invariant forall i | h0 < i <= head :: f(graph.vertices[queue[i]]).None?
        decreases |graph.vertices| - head
      {
        NoDupBound(queue, graph.vertices.Keys);
        var e := Step(f);
        if e.Some? {
          return e;
        }
      }
      return None;
    }

    /** One round of Iterate: yields the next vertex and applies `f` to it. */
    method Step<E>(f: Vertex<T> -> Option<E>) returns (e: Option<E>)
      requires Valid() && HasNext()
      modifies this
      ensures Valid() && head == old(head) + 1 && old(queue) <= queue
      ensures queue[head] in graph.vertices && e == f(graph.vertices[queue[head]])
    {
      var v := Next();
      e := f(v.value);
    }

    /** Restores the state of a new iterator. */
    method Reset()
      modifies this
      ensures queue == [start] && head == -1 && visited == {start}
      ensures start in graph.vertices && graph.Valid() && NeighborsStored(graph.vertices) ==> Valid()
    {
      queue := [start];
      head := -1;
      visited := {start};
      if start in graph.vertices {
        ReachableStart(graph.vertices, start);
      }
    }

    /**
     * Once nothing is waiting, the labels yielded are exactly the vertices reachable from the
     * start, each once, in level order: never a vertex fewer steps from the start after one
     * more steps away.
     */
    lemma Exhausted()
      requires Valid() && !HasNext()
      ensures NoDup(queue)
      ensures forall v | v in graph.vertices :: v in queue <==> Reachable(graph.vertices, start, v)
      ensures forall l | l in queue :: Reachable(graph.vertices, start, l)
      ensures forall i, j | 0 <= i < j < |queue| ::
        Hops(graph.vertices, start, queue[i]) <= Hops(graph.vertices, start, queue[j])
    {
      assert WellKeyed(graph.vertices, graph.edges);
      forall x, n | x in visited && Adjacent(graph.vertices, x, n)
        ensures n in visited
      {
        var i :| 0 <= i < |queue| && queue[i] == x;
      }
      assert queue[0] in visited;
      ClosedContainsReachable(graph.vertices, start, visited);
    }
  }

  /** Fails with ErrVertexDoesNotExist unless the start label is stored. */
  method NewBreadthFirstIterator<T(==,!new)>(g: Graph<T>, start: T) returns (r: Result<BreadthFirstIterator<T>, Error>)
    ensures r.Err? <==> start !in g.vertices
    ensures r.Err? ==> r.error == ErrVertexDoesNotExist
    ensures r.Ok? ==> fresh(r.value) && r.value.graph == g && r.value.start == start
    ensures r.Ok? ==> r.value.queue == [start] && r.value.head == -1 && r.value.visited == {start}
    ensures r.Ok? && g.Valid() && NeighborsStored(g.vertices) ==> r.value.Valid()
  {
    var v := g.GetVertexByLabel(start);
    if v.None? {
      return Err(ErrVertexDoesNotExist);
    }
    var it := new BreadthFirstIterator(g, start);
    return Ok(it);
  }
}
