/**
 * The depth-first iterator (iterator/depth_first_iterator.go). A label is marked visited when
 * it is pushed, so each label is pushed, and later yielded, at most once. The ghost field
 * `emitted` records the labels yielded so far.
 */
module DepthFirst {
  import opened Wrappers
  import opened Vertices
  import opened Grafik
  import opened Paths
  import opened Iterators

  class DepthFirstIterator<T(==,!new)> {
    const graph: Graph<T>
    const start: T
    var visited: set<T>
    var stack: seq<T>
    ghost var emitted: seq<T>

    /**
     * Yielded and stacked labels never repeat and together make up the visited set, which
     * holds the start and only stored vertices reachable from it; every neighbor of a yielded
     * label has been visited.
     */
    ghost predicate Valid()
      reads this, graph
    {
      Traversal(graph.vertices, graph.edges, start, visited, emitted, stack)
    }

    /** A new iterator has pushed the start label and yielded nothing. */
    constructor (g: Graph<T>, s: T)
      ensures graph == g && start == s
      ensures stack == [s] && visited == {s} && emitted == []
      ensures s in g.vertices && g.Valid() && NeighborsStored(g.vertices) ==> Valid()
    {
      graph := g;
      start := s;
      stack := [s];
      visited := {s};
      emitted := [];
      new;
      if s in g.vertices {
        ReachableStart(g.vertices, s);
        assert emitted + stack == [s];
      }
    }

    /** True while the stack is not empty. */
    function HasNext(): bool
      reads this
    {
      |stack| > 0
    }

    /** HasNext holds exactly while some visited label has not yet been yielded. */
    lemma HasNextIffUnyielded()
      requires Valid()
      ensures HasNext() <==> visited - Elems(emitted) != {}
    {
      PendingIffUnyielded(emitted + stack, |emitted|);
      assert (emitted + stack)[..|emitted|] == emitted;
    }

    /**
     * Pops the top label, pushes its unvisited neighbors in neighbor order, marking them
     * visited, and yields its vertex; None, with no change, when the stack is empty.
     */
    method Next() returns (r: Option<Vertex<T>>)
      requires Valid()
      modifies this
      ensures Valid()
      ensures !old(HasNext()) ==> r.None? && stack == old(stack) && visited == old(visited) && emitted == old(emitted)
      ensures old(HasNext()) ==>
        var top := old(stack)[|old(stack)| - 1];
        && top in graph.vertices
        && r == Some(graph.vertices[top])
        && emitted == old(emitted) + [top]
        && stack == old(stack)[..|old(stack)| - 1] + Unvisited(graph.vertices[top].neighbors, old(visited))
        && visited == old(visited) + Elems(Unvisited(graph.vertices[top].neighbors, old(visited)))
    {
      if !HasNext() {
        return None;
      }
      var top := stack[|stack| - 1];
      assert top in emitted + stack;
      ghost var all0 := emitted + stack;
      stack := stack[..|stack| - 1];
      var current := graph.GetVertexByLabel(top);
      var neighbors := current.value.Neighbors();
      assert neighbors == graph.vertices[top].neighbors;
      ghost var e0, s0, v0 := emitted, stack, visited;
      assert all0 == e0 + s0 + [top];
      PushUnvisited(neighbors);
      emitted := emitted + [top];
      NextKeepsValid(e0, s0, v0, top);
      return current;
    }

    /** Pushes and marks, in order, each label of `neighbors` not yet visited. */
    method PushUnvisited(neighbors: seq<T>)
      modifies this
      ensures emitted == old(emitted)
      ensures stack == old(stack) + Unvisited(neighbors, old(visited))
      ensures visited == old(visited) + Elems(Unvisited(neighbors, old(visited)))
    {
      var i := 0;
      while i < |neighbors|
        invariant 0 <= i <= |neighbors| && emitted == old(emitted)
        invariant stack == old(stack) + Unvisited(neighbors[..i], old(visited))
        invariant visited == old(visited) + Elems(Unvisited(neighbors[..i], old(visited)))
      {
        var n := neighbors[i];
        assert neighbors[..i + 1][..i] == neighbors[..i];
        if n !in visited {
          stack := stack + [n];
          visited := visited + {n};
        }
        i := i + 1;
      }
      assert neighbors[..|neighbors|] == neighbors;
    }

    /** The state Next leaves behind satisfies the invariant. */
    lemma NextKeepsValid(e0: seq<T>, s0: seq<T>, v0: set<T>, u: T)
      requires graph.Valid() && NeighborsStored(graph.vertices)
      requires start in v0
      requires NoDup(e0 + s0 + [u]) && v0 == Elems(e0 + s0 + [u])
      requires forall l | l in v0 :: l in graph.vertices && Reachable(graph.vertices, start, l)
      requires forall e | e in e0 :: forall n | n in graph.vertices[e].neighbors :: n in v0
      requires emitted == e0 + [u]
      requires stack == s0 + Unvisited(graph.vertices[u].neighbors, v0)
      requires visited == v0 + Elems(Unvisited(graph.vertices[u].neighbors, v0))
      ensures Valid()
    {
      StepFacts(graph.vertices, graph.edges, start, e0, s0, v0, u);
    }

    /**
     * Applies `f` to each vertex the traversal yields from here on and stops at, and returns,
     * the first error; None once the stack is empty.
     */
    method Iterate<E>(f: Vertex<T> -> Option<E>) returns (err: Option<E>)
      requires Valid()
      modifies this
      ensures Valid() && old(emitted) <= emitted
      ensures forall i | |old(emitted)| <= i < |emitted| - 1 :: emitted[i] in graph.vertices && f(graph.vertices[emitted[i]]).None?
      ensures err.None? ==> !HasNext() && (|old(emitted)| < |emitted| ==> f(graph.vertices[emitted[|emitted| - 1]]).None?)
      ensures err.Some? ==> |old(emitted)| < |emitted| && err == f(graph.vertices[emitted[|emitted| - 1]])
    {
      while HasNext()
        invariant Valid() && old(emitted) <= emitted
        invariant forall i | |old(emitted)| <= i < |emitted| :: emitted[i] in graph.vertices && f(graph.vertices[emitted[i]]).None?
        decreases |graph.vertices| - |emitted|
      {
        NoDupBound(emitted + stack, graph.vertices.Keys);
        var v := Next();
        var e := f(v.value);
        if e.Some? {
          return e;
        }
      }
      return None;
    }

    /** Restores the state of a new iterator. */
    method Reset()
      modifies this
      ensures stack == [start] && visited == {start} && emitted == []
      ensures start in graph.vertices && graph.Valid() && NeighborsStored(graph.vertices) ==> Valid()
    {
      stack := [start];
      visited := {start};
      emitted := [];
      if start in graph.vertices {
        ReachableStart(graph.vertices, start);
        assert emitted + stack == [start];
      }
    }

    /**
     * Once the stack is empty, the labels yielded are exactly the vertices reachable from the
     * start, each once, so there are at most as many as there are vertices.
     */
    lemma Exhausted()
      requires Valid() && !HasNext()
      ensures NoDup(emitted) && |emitted| <= |graph.vertices|
      ensures forall v | v in graph.vertices :: v in emitted <==> Reachable(graph.vertices, start, v)
    {
      assert emitted + stack == emitted;
      assert WellKeyed(graph.vertices, graph.edges);
      forall x, n | x in visited && Adjacent(graph.vertices, x, n)
        ensures n in visited
      {
      }
      ClosedContainsReachable(graph.vertices, start, visited);
      NoDupBound(emitted, graph.vertices.Keys);
    }
  }

  /**
   * The invariant of the iterator on its parts: yielded and stacked labels never repeat and
   * together make up the visited set, which holds the start and only stored vertices
   * reachable from it; every neighbor of a yielded label has been visited.
   */
  ghost predicate Traversal<T(!new)>(vs: VertexMap<T>, es: EdgeMap<T>, start: T, visited: set<T>,
                                     emitted: seq<T>, stack: seq<T>)
  {
    && WellKeyed(vs, es) && NeighborsStored(vs)
    && start in visited
    && NoDup(emitted + stack) && visited == Elems(emitted + stack)
    && (forall l | l in visited :: l in vs && Reachable(vs, start, l))
    && (forall e | e in emitted :: forall n | n in vs[e].neighbors :: n in visited)
  }

  /**
   * One step of the traversal: after popping `u` and pushing its unvisited neighbors, the
   * invariant holds with `u` yielded.
   */
  lemma StepFacts<T(!new)>(vs: VertexMap<T>, es: EdgeMap<T>, start: T, e0: seq<T>, s0: seq<T>, v0: set<T>, u: T)
    requires WellKeyed(vs, es) && NeighborsStored(vs) && start in v0
    requires NoDup(e0 + s0 + [u]) && v0 == Elems(e0 + s0 + [u])
    requires forall l | l in v0 :: l in vs && Reachable(vs, start, l)
    requires forall e | e in e0 :: forall n | n in vs[e].neighbors :: n in v0
    ensures u in vs
    ensures var added := Unvisited(vs[u].neighbors, v0);
      Traversal(vs, es, start, v0 + Elems(added), e0 + [u], s0 + added)
  {
    assert u in v0;
    var added := Unvisited(vs[u].neighbors, v0);
    assert forall e | e in e0 :: e in v0;
    StepReaches(vs, es, start, e0, v0, u);
    assert forall x | x in added :: x !in Elems(e0 + s0 + [u]);
    MoveToEmitted(e0, s0, u, added);
  }

  /** The labels added by a step are reachable, and the yielded labels stay closed under neighbors. */
  lemma StepReaches<T(!new)>(vs: VertexMap<T>, es: EdgeMap<T>, start: T, e0: seq<T>, v0: set<T>, u: T)
    requires WellKeyed(vs, es) && NeighborsStored(vs) && u in v0
    requires forall l | l in v0 :: l in vs && Reachable(vs, start, l)
    requires forall e | e in e0 :: e in v0
    requires forall e | e in e0 :: forall n | n in vs[e].neighbors :: n in v0
    ensures u in vs
    ensures var visited := v0 + Elems(Unvisited(vs[u].neighbors, v0));
      && (forall l | l in visited :: l in vs && Reachable(vs, start, l))
      && (forall e | e in e0 + [u] :: forall n | n in vs[e].neighbors :: n in visited)
  {
    var added := Unvisited(vs[u].neighbors, v0);
    var visited := v0 + Elems(added);
    forall l | l in visited
      ensures l in vs && Reachable(vs, start, l)
    {
      if l !in v0 {
        assert l in added;
        ReachableStep(vs, start, u, l);
      }
    }
    forall e | e in e0 + [u]
      ensures forall n | n in vs[e].neighbors :: n in visited
    {
      if e != u {
        assert e in e0;
      }
    }
  }

  /**
   * Moving the popped label `u` from the top of the stack to the end of the yielded labels and
   * pushing the new labels `added` keeps every label once and adds exactly `added`.
   */
  lemma MoveToEmitted<T>(e0: seq<T>, s0: seq<T>, u: T, added: seq<T>)
    requires NoDup(e0 + s0 + [u]) && NoDup(added)
    requires forall x | x in added :: x !in Elems(e0 + s0 + [u])
    ensures NoDup((e0 + [u]) + (s0 + added))
    ensures Elems((e0 + [u]) + (s0 + added)) == Elems(e0 + s0 + [u]) + Elems(added)
  {
    var old_ := e0 + s0 + [u];
    var all := (e0 + [u]) + (s0 + added);
    assert all == e0 + [u] + s0 + added;
    assert forall x | x in all :: x in old_ || x in added;
    assert forall x | x in old_ :: x in all;
    forall i, j | 0 <= i < j < |all|
      ensures all[i] != all[j]
    {
      var m := |e0| + |s0| + 1;
      if j >= m && i < m {
        assert all[j] in added;
        assert all[i] in old_;
      } else if j < m {
        var k := |e0|;
        var oi := if i < k then i else if i == k then m - 1 else i - 1;
        var oj := if j < k then j else if j == k then m - 1 else j - 1;
        assert all[i] == old_[oi] && all[j] == old_[oj] && oi != oj;
      } else {
        assert all[i] == added[i - m] && all[j] == added[j - m];
      }
    }
  }

  /** Fails with ErrVertexDoesNotExist unless the start label is stored. */
  method NewDepthFirstIterator<T(==,!new)>(g: Graph<T>, start: T) returns (r: Result<DepthFirstIterator<T>, Error>)
    ensures r.Err? <==> start !in g.vertices
    ensures r.Err? ==> r.error == ErrVertexDoesNotExist
    ensures r.Ok? ==> fresh(r.value) && r.value.graph == g && r.value.start == start
    ensures r.Ok? ==> r.value.stack == [start] && r.value.visited == {start} && r.value.emitted == []
    ensures r.Ok? && g.Valid() && NeighborsStored(g.vertices) ==> r.value.Valid()
  {
    var v := g.GetVertexByLabel(start);
    if v.None? {
      return Err(ErrVertexDoesNotExist);
    }
    var it := new DepthFirstIterator(g, start);
    return Ok(it);
  }
}
