/**
 * The invariants behind both variants of the pathfinder (pathfinder/dijkstra_pathfinder.go):
 * every finite distance is witnessed by a walk, and the heap of the standard variant holds an
 * entry for every reached, unvisited vertex. The lemmas here carry the standard variant's loop
 * invariant through one pop and one edge relaxation.
 */
module DijkstraInvariants {
  import opened Grafik
  import opened Paths

  /** Every finite distance of `d` is the weight of the walk `wit[v]` from `s`. */
  ghost predicate Witnessed<T>(vs: VertexMap<T>, es: EdgeMap<T>, s: T, d: map<T, Dist>, wit: map<T, seq<T>>)
  {
    forall v {:trigger wit[v]} {:trigger v in wit} | v in d && d[v].Finite? :: v in wit && IsWalkFromTo(vs, wit[v], s, v) && WalkWeight(es, wit[v]) == d[v].value
  }

  lemma WitnessedAttained<T(!new)>(vs: VertexMap<T>, es: EdgeMap<T>, s: T, d: map<T, Dist>, wit: map<T, seq<T>>)
    requires Witnessed(vs, es, s, d, wit)
    ensures Attained(vs, es, s, d)
  {
    forall v | v in d && d[v].Finite?
      ensures exists p :: IsWalkFromTo(vs, p, s, v) && WalkWeight(es, p) == d[v].value
    {
      assert IsWalkFromTo(vs, wit[v], s, v);
    }
  }

  /** A settled distance stays settled in a map that records the same distance for it. */
  lemma SettledSame<T(!new)>(vs: VertexMap<T>, es: EdgeMap<T>, s: T, d1: map<T, Dist>, d2: map<T, Dist>, x: T)
    requires SettledOptimal(vs, es, s, d1, x) && x in d2 && d2[x] == d1[x]
    ensures SettledOptimal(vs, es, s, d2, x)
  {
  }

  /** Every heap entry names a vertex with a finite distance no larger than the entry's priority. */
  ghost predicate HeapSound<T>(contents: multiset<(T, real)>, d: map<T, Dist>)
  {
    forall e {:trigger contents[e]} | e in contents :: e.0 in d && d[e.0].Finite? && d[e.0].value <= e.1
  }

  /** Every unvisited vertex with a finite distance has an entry at exactly that distance. */
  ghost predicate HeapComplete<T>(contents: multiset<(T, real)>, d: map<T, Dist>, visited: set<T>)
  {
    forall v {:trigger contents[(v, d[v].value)]} | v in d && v !in visited && d[v].Finite? :: (v, d[v].value) in contents
  }

  /** The distance of `n` is no larger than through its neighbor `u`. */
  ghost predicate RelaxedEdge<T>(es: EdgeMap<T>, d: map<T, Dist>, u: T, n: T)
  {
    u in d && n in d && d[n].AtMost(d[u].Plus(EdgeWeight(es, u, n)))
  }

  /**
   * The ghost view of the standard variant's state: what the heap holds, the tentative
   * distance of every vertex and, for each finite one, a walk of that weight.
   */
  datatype Tentative<T> = Tentative(heap: multiset<(T, real)>, dist: map<T, Dist>, walks: map<T, seq<T>>)

  /** The state after the distance of `v` is lowered to `nd` through `u` and `(v, nd)` is pushed. */
  ghost function Lowered<T>(st: Tentative<T>, u: T, v: T, nd: real): (r: Tentative<T>)
    requires u in st.walks
    ensures r.dist.Keys == st.dist.Keys + {v} && r.dist[v] == Finite(nd)
    ensures r.heap == st.heap + multiset{(v, nd)}
  {
    Tentative(st.heap + multiset{(v, nd)}, st.dist[v := Finite(nd)], st.walks[v := st.walks[u] + [v]])
  }

  /** The invariant of the standard variant's main loop, over the parts of its state. */
  ghost predicate StandardFacts<T(!new)>(vs: VertexMap<T>, es: EdgeMap<T>, s: T, heap: multiset<(T, real)>,
                                         d: map<T, Dist>, wit: map<T, seq<T>>, visited: set<T>)
  {
    && s in vs && d.Keys == vs.Keys && visited <= vs.Keys
    && HeapSound(heap, d) && HeapComplete(heap, d, visited)
    && (forall x {:trigger RelaxedFrom(vs, es, d, visited, x)} | x in visited :: RelaxedFrom(vs, es, d, visited, x))
    && Witnessed(vs, es, s, d, wit)
    && d[s] == Finite(0.0)
    && (s !in visited ==> visited == {} && heap == multiset{(s, 0.0)})
    && (NonNegative(es) ==> forall x {:trigger SettledOptimal(vs, es, s, d, x)} | x in visited :: SettledOptimal(vs, es, s, d, x))
  }

  /** The invariant of the standard variant's main loop. */
  ghost predicate StandardInv<T(!new)>(vs: VertexMap<T>, es: EdgeMap<T>, s: T, st: Tentative<T>, visited: set<T>)
  {
    match st
    case Tentative(heap, d, wit) => StandardFacts(vs, es, s, heap, d, wit, visited)
  }

  /**
   * The state while the edges of the popped vertex `u` (popped at priority `p`) are relaxed,
   * over the parts of the state: the first `done` neighbors of `u` are no farther than through it. A
   * `stale` pop is one of a vertex visited before, whose edges are already relaxed.
   */
  ghost predicate RelaxFacts<T(!new)>(vs: VertexMap<T>, es: EdgeMap<T>, s: T, heap: multiset<(T, real)>,
                                      d: map<T, Dist>, wit: map<T, seq<T>>, visited: set<T>,
                                      u: T, p: real, stale: bool, done: nat)
  {
    && s in vs && s in visited && u in visited && d.Keys == vs.Keys && visited <= vs.Keys
    && HeapSound(heap, d) && HeapComplete(heap, d, visited)
    && (forall x {:trigger RelaxedFrom(vs, es, d, visited, x)} | x in visited && (x != u || stale) :: RelaxedFrom(vs, es, d, visited, x))
    && Witnessed(vs, es, s, d, wit)
    && d[s] == Finite(0.0)
    && d[u].Finite? && d[u].value <= p && (!stale ==> d[u].value == p)
    && (NonNegative(es) ==> forall x {:trigger SettledOptimal(vs, es, s, d, x)} | x in visited :: SettledOptimal(vs, es, s, d, x))
    && done <= |vs[u].neighbors|
    && (forall k {:trigger vs[u].neighbors[k]} | 0 <= k < done && vs[u].neighbors[k] !in visited ::
          RelaxedEdge(es, d, u, vs[u].neighbors[k]))
  }

  /** The state while the edges of the popped vertex `u` are relaxed. */
  ghost predicate RelaxProgress<T(!new)>(vs: VertexMap<T>, es: EdgeMap<T>, s: T, st: Tentative<T>, visited: set<T>,
                                         u: T, p: real, stale: bool, done: nat)
  {
    match st
    case Tentative(heap, d, wit) => RelaxFacts(vs, es, s, heap, d, wit, visited, u, p, stale, done)
  }

  /** The state after the start distance is set to 0 and pushed satisfies the main invariant. */
  lemma StandardInit<T(!new)>(vs: VertexMap<T>, es: EdgeMap<T>, s: T, d: map<T, Dist>)
    requires s in vs && d.Keys == vs.Keys && d[s] == Finite(0.0)
    requires forall l | l in d && l != s :: d[l] == Infinity
    ensures StandardInv(vs, es, s, Tentative(multiset{(s, 0.0)}, d, map[s := [s]]), {})
  {
    assert IsWalkFromTo(vs, [s], s, s);
  }

  /**
   * What popping the least entry `(u, p)` tells: the distance of `u` is finite and at most `p`;
   * on a first pop `p` is its distance, which is least among the unvisited, so `u` is settled.
   */
  lemma PopFacts<T(!new)>(vs: VertexMap<T>, es: EdgeMap<T>, s: T, st: Tentative<T>, visited: set<T>,
                          after: multiset<(T, real)>, u: T, p: real)
    requires StandardInv(vs, es, s, st, visited)
    requires (u, p) in st.heap && after == st.heap - multiset{(u, p)}
    requires forall k | k in after :: p <= k.1
    ensures RelaxProgress(vs, es, s, st.(heap := after), visited + {u}, u, p, u in visited, 0)
  {
    var before, d := st.heap, st.dist;
    assert StandardFacts(vs, es, s, before, d, st.walks, visited);
    if u !in visited {
      assert (u, d[u].value) in before;
      if s !in visited {
        assert (u, p) == (s, 0.0);
      }
      if NonNegative(es) {
        forall y | y in d && y !in visited
          ensures d[u].AtMost(d[y])
        {
          if y != u && d[y].Finite? {
            assert (y, d[y].value) in before;
            assert (y, d[y].value) in after;
          }
        }
        MinimumIsSettled(vs, es, s, d, visited, u);
      }
    }
    forall v | v in d && v !in visited + {u} && d[v].Finite?
      ensures (v, d[v].value) in after
    {
      assert (v, d[v].value) in before;
    }
    forall x | x in visited + {u} && (x != u || u in visited)
      ensures RelaxedFrom(vs, es, d, visited + {u}, x)
    {
      assert RelaxedFrom(vs, es, d, visited, x);
    }
    assert RelaxFacts(vs, es, s, after, d, st.walks, visited + {u}, u, p, u in visited, 0);
  }

  /** Lowering the distance of `v` to `nd` and pushing `(v, nd)` keeps the heap sound and complete. */
  lemma LowerKeepsHeap<T>(contents: multiset<(T, real)>, d: map<T, Dist>, visited: set<T>, v: T, nd: real)
    requires HeapSound(contents, d) && HeapComplete(contents, d, visited)
    requires v in d && Finite(nd).Below(d[v])
    ensures HeapSound(contents + multiset{(v, nd)}, d[v := Finite(nd)])
    ensures HeapComplete(contents + multiset{(v, nd)}, d[v := Finite(nd)], visited)
  {
    var contents', d' := contents + multiset{(v, nd)}, d[v := Finite(nd)];
    forall e | e in contents'
      ensures e.0 in d' && d'[e.0].Finite? && d'[e.0].value <= e.1
    {
      if e != (v, nd) {
        assert e in contents;
      }
    }
  }

  /** Lowering the distance of `v` to the weight of the walk to `u` extended by `v` keeps it witnessed. */
  lemma LowerKeepsWitnessed<T>(vs: VertexMap<T>, es: EdgeMap<T>, s: T, d: map<T, Dist>, wit: map<T, seq<T>>,
                               u: T, v: T, nd: real)
    requires Witnessed(vs, es, s, d, wit) && u in d && d[u].Finite? && v in d && v in vs
    requires Adjacent(vs, u, v) && nd == d[u].value + EdgeWeight(es, u, v)
    ensures Witnessed(vs, es, s, d[v := Finite(nd)], wit[v := wit[u] + [v]])
  {
    WalkExtend(vs, es, wit[u], v);
  }

  /** Lowering the distance of an unvisited `v` keeps every visited vertex other than `u` relaxed. */
  lemma LowerKeepsRelaxed<T>(vs: VertexMap<T>, es: EdgeMap<T>, d: map<T, Dist>, visited: set<T>,
                             u: T, v: T, nd: real)
    requires visited <= d.Keys && v in d && v !in visited && Finite(nd).Below(d[v])
    requires forall x | x in visited && x != u :: RelaxedFrom(vs, es, d, visited, x)
    ensures forall x | x in visited && x != u :: RelaxedFrom(vs, es, d[v := Finite(nd)], visited, x)
  {
    var d' := d[v := Finite(nd)];
    forall x | x in visited && x != u
      ensures RelaxedFrom(vs, es, d', visited, x)
    {
      assert d'[x] == d[x];
      assert RelaxedFrom(vs, es, d, visited, x);
    }
  }

  /** Changing the distance of an unvisited vertex keeps every visited vertex settled. */
  lemma LowerKeepsSettled<T(!new)>(vs: VertexMap<T>, es: EdgeMap<T>, s: T, d: map<T, Dist>, visited: set<T>, v: T, nd: real)
    requires forall x | x in visited :: SettledOptimal(vs, es, s, d, x)
    requires v !in visited
    ensures forall x | x in visited :: SettledOptimal(vs, es, s, d[v := Finite(nd)], x)
  {
    forall x | x in visited
      ensures SettledOptimal(vs, es, s, d[v := Finite(nd)], x)
    {
      SettledSame(vs, es, s, d, d[v := Finite(nd)], x);
    }
  }

  /**
   * Relaxing the edge to an unvisited neighbor `v` at distance `nd = p + weight`, strictly below
   * its distance, lowers it and pushes `(v, nd)`; the relaxation state extends to `v`. Such an
   * edge is never met on a stale pop.
   */
  lemma RelaxLowers<T(!new)>(vs: VertexMap<T>, es: EdgeMap<T>, s: T, st: Tentative<T>, visited: set<T>,
                             u: T, p: real, stale: bool, done: nat, v: T, nd: real)
    requires WellKeyed(vs, es) && NeighborsHaveEdges(vs, es)
    requires RelaxProgress(vs, es, s, st, visited, u, p, stale, done)
    requires u in vs && done < |vs[u].neighbors| && v == vs[u].neighbors[done] && v in vs[u].neighbors
    requires v !in visited && nd == p + EdgeWeight(es, u, v)
    requires Finite(nd).Below(st.dist[v])
    ensures !stale && u in st.walks
    ensures RelaxProgress(vs, es, s, Lowered(st, u, v, nd), visited, u, p, stale, done + 1)
  {
    var d, wit := st.dist, st.walks;
    assert RelaxFacts(vs, es, s, st.heap, d, wit, visited, u, p, stale, done);
    if stale {
      ghost var relaxed := RelaxedFrom(vs, es, d, visited, u);
      assert false;
    }
    var d' := d[v := Finite(nd)];
    assert v != u && v != s;
    LowerKeepsHeap(st.heap, d, visited, v, nd);
    LowerKeepsWitnessed(vs, es, s, d, wit, u, v, nd);
    LowerKeepsRelaxed(vs, es, d, visited, u, v, nd);
    if NonNegative(es) {
      LowerKeepsSettled(vs, es, s, d, visited, v, nd);
    }
    forall k | 0 <= k < done + 1 && vs[u].neighbors[k] !in visited
      ensures RelaxedEdge(es, d', u, vs[u].neighbors[k])
    {
      if vs[u].neighbors[k] != v {
        assert RelaxedEdge(es, d, u, vs[u].neighbors[k]);
      }
    }
    assert RelaxFacts(vs, es, s, st.heap + multiset{(v, nd)}, d', wit[v := wit[u] + [v]], visited, u, p, stale, done + 1);
  }

  /** An edge that lowers nothing leaves the state as it is and extends the relaxation to `v`. */
  lemma RelaxKeeps<T(!new)>(vs: VertexMap<T>, es: EdgeMap<T>, s: T, st: Tentative<T>, visited: set<T>,
                            u: T, p: real, stale: bool, done: nat, v: T)
    requires WellKeyed(vs, es) && NeighborsHaveEdges(vs, es)
    requires RelaxProgress(vs, es, s, st, visited, u, p, stale, done)
    requires u in vs && done < |vs[u].neighbors| && v == vs[u].neighbors[done] && v in vs[u].neighbors
    requires v !in visited ==> !Finite(p + EdgeWeight(es, u, v)).Below(st.dist[v])
    ensures RelaxProgress(vs, es, s, st, visited, u, p, stale, done + 1)
  {
    assert RelaxFacts(vs, es, s, st.heap, st.dist, st.walks, visited, u, p, stale, done);
    if v !in visited && stale {
      assert RelaxedFrom(vs, es, st.dist, visited, u);
    }
    assert RelaxFacts(vs, es, s, st.heap, st.dist, st.walks, visited, u, p, stale, done + 1);
  }

  /** Once every neighbor of `u` is relaxed, the main invariant holds again. */
  lemma RelaxDone<T(!new)>(vs: VertexMap<T>, es: EdgeMap<T>, s: T, st: Tentative<T>, visited: set<T>,
                           u: T, p: real, stale: bool)
    requires WellKeyed(vs, es) && NeighborsHaveEdges(vs, es) && u in vs
    requires RelaxProgress(vs, es, s, st, visited, u, p, stale, |vs[u].neighbors|)
    ensures StandardInv(vs, es, s, st, visited)
  {
    var ns := vs[u].neighbors;
    assert RelaxFacts(vs, es, s, st.heap, st.dist, st.walks, visited, u, p, stale, |ns|);
    if !stale {
      forall n | n in ns && n !in visited
        ensures n in st.dist && st.dist[n].AtMost(st.dist[u].Plus(EdgeWeight(es, u, n)))
      {
        var k :| 0 <= k < |ns| && ns[k] == n;
        assert RelaxedEdge(es, st.dist, u, ns[k]);
      }
      assert RelaxedFrom(vs, es, st.dist, visited, u);
    }
    assert StandardFacts(vs, es, s, st.heap, st.dist, st.walks, visited);
  }

  /** With an empty heap, an unvisited vertex has not been reached. */
  lemma Unqueued<T>(heap: multiset<(T, real)>, d: map<T, Dist>, visited: set<T>, y: T)
    requires HeapComplete(heap, d, visited) && heap == multiset{} && y in d && y !in visited
    ensures d[y] == Infinity
  {
    assert d[y].Finite? ==> heap[(y, d[y].value)] > 0;
  }

  /**
   * When the heap is empty every vertex with a finite distance has been visited; the others
   * are unreachable. The distances are attained, and with non-negative weights shortest.
   */
  lemma StandardDone<T(!new)>(vs: VertexMap<T>, es: EdgeMap<T>, s: T, st: Tentative<T>, visited: set<T>)
    requires StandardInv(vs, es, s, st, visited) && st.heap == multiset{}
    ensures st.dist.Keys == vs.Keys && st.dist[s] == Finite(0.0)
    ensures Attained(vs, es, s, st.dist)
    ensures NonNegative(es) ==> IsShortestDistances(vs, es, s, st.dist)
  {
    var d := st.dist;
    assert StandardFacts(vs, es, s, st.heap, d, st.walks, visited);
    WitnessedAttained(vs, es, s, d, st.walks);
    if NonNegative(es) {
      forall x | x in d
        ensures SettledOptimal(vs, es, s, d, x)
      {
        if x !in visited {
          Unqueued(st.heap, d, visited, x);
          forall p | IsWalkFromTo(vs, p, s, x)
            ensures d[x].AtMost(Finite(WalkWeight(es, p)))
          {
            var k := Frontier(vs, es, s, d, visited, p);
            Unqueued(st.heap, d, visited, p[k]);
          }
        }
      }
    }
  }
}
