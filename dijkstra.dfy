/**
 * Single-source shortest distances (pathfinder/dijkstra_pathfinder.go), in its two variants:
 * the simple one scans all vertices for the closest unvisited one, the standard one keeps the
 * tentative distances in a min-heap. Both terminate and report only attained distances for any
 * edge weights; with non-negative weights both report the shortest distances, so they agree.
 */
module Pathfinder {
  import opened Wrappers
  import opened Options
  import opened Vertices
  import opened Edges
  import opened Grafik
  import opened Paths
  import opened Queue
  import opened DijkstraInvariants

  /**
   * The bookkeeping record of the standard variant: the vertex label, its tentative distance,
   * a visited flag and the label of the vertex it was last reached from (None before that;
   * the library writes this field but never reads it).
   */
  datatype DijkstraVertex<T> = DijkstraVertex(name: T, dist: Dist, visited: bool, previous: Option<T>)

  /** A new record is not yet reached, not yet visited and has no predecessor. */
  function NewDijkstraVertex<T>(l: T): (r: DijkstraVertex<T>)
    ensures r.name == l && r.dist.Infinity? && !r.visited && r.previous.None?
  {
    DijkstraVertex(l, Infinity, false, None)
  }

  /** The distances held by a map of records. */
  ghost function Dists<T>(dv: map<T, DijkstraVertex<T>>): (r: map<T, Dist>)
    ensures r.Keys == dv.Keys && forall v | v in dv :: r[v] == dv[v].dist
  {
    map v | v in dv :: dv[v].dist
  }

  /** The labels of a sequence of vertices. */
  ghost function Labels<T>(vs: seq<Vertex<T>>): set<T>
  {
    set v | v in vs :: v.name
  }

  /** The labels of the listing returned by `GetAllVertices` are exactly the stored labels. */
  lemma ListingLabels<T>(vm: VertexMap<T>, vs: seq<Vertex<T>>)
    requires IsListing(vm, vs)
    ensures Labels(vs) == vm.Keys
  {
    forall l | l in vm
      ensures l in Labels(vs)
    {
      var i :| 0 <= i < |vs| && vs[i].name == l;
      assert vs[i] in vs;
    }
  }

  /** A subset at least as large as its superset is the whole superset. */
  lemma FullSubset<T>(a: set<T>, b: set<T>)
    requires a <= b && |a| >= |b|
    ensures a == b
  {
    if b - a != {} {
      var x :| x in b - a;
      assert a <= b - {x};
      SubsetSize(a, b - {x});
    }
  }

  lemma {:induction false} SubsetSize<T>(a: set<T>, b: set<T>)
    requires a <= b
    ensures |a| <= |b|
    decreases b
  {
    if a != {} {
      var x :| x in a;
      SubsetSize(a - {x}, b - {x});
    }
  }

  /**
   * The closest unvisited vertex of the listing, scanning in order and replacing the candidate
   * only by a strictly closer one.
   */
  method SelectClosest<T(==)>(vertices: seq<Vertex<T>>, dist: map<T, Dist>, visited: set<T>) returns (u: Vertex<T>)
    requires forall k | 0 <= k < |vertices| :: vertices[k].name in dist
    requires exists k | 0 <= k < |vertices| :: vertices[k].name !in visited
    ensures exists k | 0 <= k < |vertices| :: vertices[k] == u
    ensures u.name !in visited
    ensures forall k | 0 <= k < |vertices| && vertices[k].name !in visited :: dist[u.name].AtMost(dist[vertices[k].name])
  {
    var found: Option<Vertex<T>> := None;
    for k := 0 to |vertices|
      invariant found.Some? ==> found.value in vertices[..k] && found.value.name !in visited
      invariant found.None? ==> forall m | 0 <= m < k :: vertices[m].name in visited
      invariant found.Some? ==> forall m | 0 <= m < k && vertices[m].name !in visited ::
        dist[found.value.name].AtMost(dist[vertices[m].name])
    {
      var v := vertices[k];
      if v.Label() !in visited && (found.None? || dist[v.Label()].Below(dist[found.value.Label()])) {
        found := Some(v);
      }
    }
    u := found.value;
  }

  /**
   * Relaxes the edge from `u` to `neighbor`: the neighbor's distance becomes `dist[u] + weight`
   * when that is strictly smaller, and nothing else changes. Afterwards the neighbor is no
   * farther than through `u`; a settled neighbor keeps its distance.
   */
  method RelaxEdge<T(!new)>(g: Graph<T>, ghost start: T, u: Vertex<T>, neighbor: T, dist0: map<T, Dist>,
                            ghost visited: set<T>, ghost wit0: map<T, seq<T>>)
    returns (dist: map<T, Dist>, ghost wit: map<T, seq<T>>)
    requires g.Valid() && NeighborsHaveEdges(g.vertices, g.edges)
    requires u.name in g.vertices && g.vertices[u.name] == u && neighbor in u.neighbors
    requires dist0.Keys == g.vertices.Keys && Witnessed(g.vertices, g.edges, start, dist0, wit0)
    requires NonNegative(g.edges) && neighbor in visited ==> SettledOptimal(g.vertices, g.edges, start, dist0, neighbor)
    ensures dist.Keys == dist0.Keys && Witnessed(g.vertices, g.edges, start, dist, wit)
    ensures forall v | v in dist0 && v != neighbor :: dist[v] == dist0[v]
    ensures neighbor in dist && dist[neighbor].AtMost(dist0[neighbor])
    ensures dist[neighbor].AtMost(dist0[u.name].Plus(EdgeWeight(g.edges, u.name, neighbor)))
    ensures NonNegative(g.edges) && neighbor in visited ==> dist[neighbor] == dist0[neighbor]
    ensures var alt := dist0[u.name].Plus(EdgeWeight(g.edges, u.name, neighbor));
      dist[neighbor] == if alt.Below(dist0[neighbor]) then alt else dist0[neighbor]
  {
    ghost var vs, es := g.vertices, g.edges;
    dist, wit := dist0, wit0;
    var edge := g.GetEdge(Some(u), g.GetVertexByLabel(neighbor));
    var d := edge.value.Destination();
    assert d == neighbor && edge.value.Weight() == EdgeWeight(es, u.name, neighbor);
    var alt := dist[u.Label()].Plus(edge.value.Weight());
    if alt.Below(dist[d]) {
      ghost var p := wit[u.name] + [d];
      WalkExtend(vs, es, wit[u.name], d);
      assert IsWalkFromTo(vs, p, start, d) && WalkWeight(es, p) == alt.value;
      if NonNegative(es) && d in visited {
        assert false;
      }
      dist := dist[d := alt];
      wit := wit[d := p];
    }
  }

  /**
   * What relaxing the edges of the visited vertex `u` achieves: the distances stay keyed and
   * witnessed by walks and only decrease; with non-negative weights the visited vertices keep
   * their distances and every neighbor of `u` is no farther than through `u`.
   */
  ghost predicate RoundRelaxed<T>(vs: VertexMap<T>, es: EdgeMap<T>, s: T, dist0: map<T, Dist>, dist: map<T, Dist>,
                                  visited: set<T>, u: T, wit: map<T, seq<T>>)
  {
    && u in vs && u in dist && dist.Keys == dist0.Keys && Witnessed(vs, es, s, dist, wit)
    && (forall v | v in dist :: dist[v].AtMost(dist0[v]))
    && (NonNegative(es) ==> forall x | x in visited && x in dist :: dist[x] == dist0[x])
    && (NonNegative(es) ==>
         forall n | n in vs[u].neighbors :: n in dist && dist[n].AtMost(dist[u].Plus(EdgeWeight(es, u, n))))
  }

  /**
   * Relaxes every edge out of `u` in neighbor order (the simple variant's inner loop), reading
   * `dist[u]` afresh for each edge. Distances only decrease and stay witnessed by walks; with
   * non-negative weights a visited vertex keeps its distance and every neighbor of `u` ends no
   * farther than through `u`.
   */
  method RelaxNeighbors<T(!new)>(g: Graph<T>, ghost start: T, u: Vertex<T>, dist0: map<T, Dist>,
                                 ghost visited: set<T>, ghost wit0: map<T, seq<T>>)
    returns (dist: map<T, Dist>, ghost wit: map<T, seq<T>>)
    requires g.Valid() && NeighborsHaveEdges(g.vertices, g.edges)
    requires u.name in g.vertices && g.vertices[u.name] == u && u.name in visited && visited <= g.vertices.Keys
    requires dist0.Keys == g.vertices.Keys && Witnessed(g.vertices, g.edges, start, dist0, wit0)
    requires NonNegative(g.edges) ==> forall x | x in visited :: SettledOptimal(g.vertices, g.edges, start, dist0, x)
    ensures RoundRelaxed(g.vertices, g.edges, start, dist0, dist, visited, u.name, wit)
  {
    ghost var vs, es := g.vertices, g.edges;
    dist, wit := dist0, wit0;
    var neighbors := u.Neighbors();
    for i := 0 to |neighbors|
      invariant dist.Keys == dist0.Keys && Witnessed(vs, es, start, dist, wit)
      invariant forall v | v in dist :: dist[v].AtMost(dist0[v])
      invariant NonNegative(es) ==> forall x | x in visited :: dist[x] == dist0[x]
      invariant NonNegative(es) ==>
        forall k | 0 <= k < i :: neighbors[k] in dist && dist[neighbors[k]].AtMost(dist[u.name].Plus(EdgeWeight(es, u.name, neighbors[k])))
    {
      var neighbor := neighbors[i];
      assert neighbor in u.neighbors;
      if NonNegative(es) && neighbor in visited {
        SettledSame(vs, es, start, dist0, dist, neighbor);
      }
      ghost var before := dist;
      dist, wit := RelaxEdge(g, start, u, neighbor, dist, visited, wit);
      if NonNegative(es) {
        assert dist[u.name] == before[u.name];
        forall k | 0 <= k <= i
          ensures neighbors[k] in dist && dist[neighbors[k]].AtMost(dist[u.name].Plus(EdgeWeight(es, u.name, neighbors[k])))
        {
          if neighbors[k] != neighbor {
            assert dist[neighbors[k]] == before[neighbors[k]];
          }
        }
      }
    }
  }

  /** The invariant of the simple variant's outer loop. */
  ghost predicate SimpleInv<T(!new)>(vs: VertexMap<T>, es: EdgeMap<T>, s: T, dist: map<T, Dist>,
                                     visited: set<T>, wit: map<T, seq<T>>)
  {
    && s in vs && dist.Keys == vs.Keys && visited <= vs.Keys
    && Witnessed(vs, es, s, dist, wit)
    && dist[s].AtMost(Finite(0.0))
    && (NonNegative(es) ==>
         forall x | x in visited :: SettledOptimal(vs, es, s, dist, x) && RelaxedFrom(vs, es, dist, visited, x))
  }

  /** Visiting `u` and relaxing its edges keeps the simple variant's invariant. */
  lemma SimpleStep<T(!new)>(vs: VertexMap<T>, es: EdgeMap<T>, s: T, dist0: map<T, Dist>, dist: map<T, Dist>,
                            visited: set<T>, u: T, wit0: map<T, seq<T>>, wit: map<T, seq<T>>)
    requires WellKeyed(vs, es) && u in vs && u !in visited
    requires SimpleInv(vs, es, s, dist0, visited, wit0)
    requires NonNegative(es) ==> SettledOptimal(vs, es, s, dist0, u)
    requires RoundRelaxed(vs, es, s, dist0, dist, visited + {u}, u, wit)
    ensures SimpleInv(vs, es, s, dist, visited + {u}, wit)
  {
    if NonNegative(es) {
      forall x | x in visited + {u}
        ensures SettledOptimal(vs, es, s, dist, x) && RelaxedFrom(vs, es, dist, visited + {u}, x)
      {
        assert SettledOptimal(vs, es, s, dist0, x);
        if x != u {
          assert RelaxedFrom(vs, es, dist0, visited, x);
        }
      }
    }
  }

  /** `vs` lists every stored vertex exactly once, as `GetAllVertices` returns it. */
  ghost predicate IsListing<T>(vm: VertexMap<T>, vs: seq<Vertex<T>>)
  {
    && |vs| == |vm|
    && (forall i | 0 <= i < |vs| :: vs[i].name in vm && vm[vs[i].name] == vs[i])
    && (forall l | l in vm :: exists i | 0 <= i < |vs| :: vs[i].name == l)
  }

  /** While fewer labels are visited than listed, some listed vertex is unvisited. */
  lemma SomeUnvisited<T>(vm: VertexMap<T>, vertices: seq<Vertex<T>>, visited: set<T>)
    requires IsListing(vm, vertices) && |visited| < |vertices|
    ensures exists k | 0 <= k < |vertices| :: vertices[k].name !in visited
  {
    if forall k | 0 <= k < |vertices| :: vertices[k].name in visited {
      forall l | l in vm
        ensures l in visited
      {
        var i :| 0 <= i < |vertices| && vertices[i].name == l;
      }
      SubsetSize(vm.Keys, visited);
    }
  }

  /** With non-negative weights, the vertex `SelectClosest` picks is settled. */
  lemma ClosestIsSettled<T(!new)>(vs: VertexMap<T>, es: EdgeMap<T>, s: T, vertices: seq<Vertex<T>>,
                                  dist: map<T, Dist>, visited: set<T>, wit: map<T, seq<T>>, u: Vertex<T>)
    requires IsListing(vs, vertices) && SimpleInv(vs, es, s, dist, visited, wit)
    requires u.name !in visited && exists k | 0 <= k < |vertices| :: vertices[k] == u
    requires forall k | 0 <= k < |vertices| && vertices[k].name !in visited :: dist[u.name].AtMost(dist[vertices[k].name])
    ensures NonNegative(es) ==> SettledOptimal(vs, es, s, dist, u.name)
  {
    if NonNegative(es) {
      forall y | y in dist && y !in visited
        ensures dist[u.name].AtMost(dist[y])
      {
        var i :| 0 <= i < |vertices| && vertices[i].name == y;
      }
      MinimumIsSettled(vs, es, s, dist, visited, u.name);
    }
  }

  /**
   * One round of the simple variant's outer loop: visits the closest unvisited vertex and
   * relaxes its edges.
   */
  method VisitClosest<T(!new)>(g: Graph<T>, ghost start: T, vertices: seq<Vertex<T>>, dist0: map<T, Dist>,
                               visited0: set<T>, ghost wit0: map<T, seq<T>>)
    returns (dist: map<T, Dist>, visited: set<T>, ghost wit: map<T, seq<T>>)
    requires g.Valid() && NeighborsHaveEdges(g.vertices, g.edges) && IsListing(g.vertices, vertices)
    requires SimpleInv(g.vertices, g.edges, start, dist0, visited0, wit0) && |visited0| < |vertices|
    ensures SimpleInv(g.vertices, g.edges, start, dist, visited, wit)
    ensures |visited| == |visited0| + 1
  {
    ghost var vs, es := g.vertices, g.edges;
    SomeUnvisited(vs, vertices, visited0);
    var u := SelectClosest(vertices, dist0, visited0);
    ClosestIsSettled(vs, es, start, vertices, dist0, visited0, wit0, u);
    dist, visited, wit := Visit(g, start, u, dist0, visited0, wit0);
  }

  /**
   * Marks `u` visited and relaxes its edges, keeping the simple variant's invariant: distances
   * only decrease, visited ones stay put, and every neighbor of `u` ends no farther than
   * through `u` (with non-negative weights).
   */
  method Visit<T(!new)>(g: Graph<T>, ghost start: T, u: Vertex<T>, dist0: map<T, Dist>,
                        visited0: set<T>, ghost wit0: map<T, seq<T>>)
    returns (dist: map<T, Dist>, visited: set<T>, ghost wit: map<T, seq<T>>)
    requires g.Valid() && NeighborsHaveEdges(g.vertices, g.edges)
    requires SimpleInv(g.vertices, g.edges, start, dist0, visited0, wit0)
    requires u.name in g.vertices && g.vertices[u.name] == u && u.name !in visited0
    requires NonNegative(g.edges) ==> SettledOptimal(g.vertices, g.edges, start, dist0, u.name)
    ensures SimpleInv(g.vertices, g.edges, start, dist, visited, wit)
    ensures visited == visited0 + {u.name} && |visited| == |visited0| + 1
    ensures RoundRelaxed(g.vertices, g.edges, start, dist0, dist, visited, u.name, wit)
  {
    visited := visited0 + {u.Label()};
    dist, wit := RelaxNeighbors(g, start, u, dist0, visited, wit0);
    SimpleStep(g.vertices, g.edges, start, dist0, dist, visited0, u.name, wit0, wit);
  }

  /** The state the simple variant starts its outer loop in satisfies its invariant. */
  lemma SimpleInit<T(!new)>(vs: VertexMap<T>, es: EdgeMap<T>, s: T, dist: map<T, Dist>)
    requires s in vs && dist.Keys == vs.Keys && dist[s] == Finite(0.0)
    requires forall l | l in dist && l != s :: dist[l] == Infinity
    ensures SimpleInv(vs, es, s, dist, {}, map[s := [s]])
  {
    assert IsWalkFromTo(vs, [s], s, s);
  }

  /** Maps the label of every listed vertex to Infinity. */
  method AllInfinite<T>(vertices: seq<Vertex<T>>) returns (dist: map<T, Dist>)
    ensures dist.Keys == Labels(vertices)
    ensures forall l | l in dist :: dist[l] == Infinity
  {
    dist := map[];
    for i := 0 to |vertices|
      invariant dist.Keys == Labels(vertices[..i])
      invariant forall l | l in dist :: dist[l] == Infinity
    {
      assert vertices[..i + 1] == vertices[..i] + [vertices[i]];
      dist := dist[vertices[i].Label() := Infinity];
    }
    assert vertices[..|vertices|] == vertices;
  }

  /** Once every vertex is visited, the simple variant's invariant gives its results. */
  lemma SimpleDone<T(!new)>(vs: VertexMap<T>, es: EdgeMap<T>, s: T, dist: map<T, Dist>, visited: set<T>,
                            wit: map<T, seq<T>>)
    requires SimpleInv(vs, es, s, dist, visited, wit) && |visited| >= |vs|
    ensures Attained(vs, es, s, dist)
    ensures NonNegative(es) ==> IsShortestDistances(vs, es, s, dist)
  {
    FullSubset(visited, vs.Keys);
    WitnessedAttained(vs, es, s, dist, wit);
  }

  /**
   * The simple variant: every vertex starts at Infinity and the start at 0; until every vertex
   * is visited, the closest unvisited vertex is visited and its edges relaxed.
   */
  method SimpleDijkstra<T(!new)>(g: Graph<T>, start: T) returns (dist: map<T, Dist>)
    requires g.Valid() && NeighborsHaveEdges(g.vertices, g.edges) && start in g.vertices
    ensures dist.Keys == g.vertices.Keys
    ensures Attained(g.vertices, g.edges, start, dist)
    ensures dist[start].AtMost(Finite(0.0))
    ensures NonNegative(g.edges) ==> IsShortestDistances(g.vertices, g.edges, start, dist)
  {
    ghost var vs, es := g.vertices, g.edges;
    var vertices := g.GetAllVertices();
    ListingLabels(vs, vertices);
    dist := AllInfinite(vertices);
    dist := dist[start := Finite(0.0)];
    var visited: set<T> := {};
    ghost var wit: map<T, seq<T>> := map[start := [start]];
    SimpleInit(vs, es, start, dist);
    while |visited| < |vertices|
      invariant SimpleInv(vs, es, start, dist, visited, wit)
      decreases |vertices| - |visited|
    {
      dist, visited, wit := VisitClosest(g, start, vertices, dist, visited, wit);
    }
    SimpleDone(vs, es, start, dist, visited, wit);
  }

  // ----- the standard variant -----

  /** The records are keyed by their own labels and hold the distances of `d`. */
  ghost predicate RecordsMatch<T>(dv: map<T, DijkstraVertex<T>>, d: map<T, Dist>)
  {
    dv.Keys == d.Keys && forall v | v in dv :: dv[v].name == v && dv[v].dist == d[v]
  }

  /** The records every vertex starts with: unreached and unvisited. */
  method InitRecords<T>(vertices: seq<Vertex<T>>) returns (dv: map<T, DijkstraVertex<T>>)
    ensures dv.Keys == Labels(vertices)
    ensures forall l | l in dv :: dv[l] == NewDijkstraVertex(l)
  {
    dv := map[];
    for i := 0 to |vertices|
      invariant dv.Keys == Labels(vertices[..i])
      invariant forall l | l in dv :: dv[l] == NewDijkstraVertex(l)
    {
      assert vertices[..i + 1] == vertices[..i] + [vertices[i]];
      dv := dv[vertices[i].Label() := NewDijkstraVertex(vertices[i].Label())];
    }
    assert vertices[..|vertices|] == vertices;
  }

  /** Relaxing to `v` at distance `alt` improves its record: `v` is unvisited and `alt` is below its distance. */
  ghost predicate Improves<T>(dv: map<T, DijkstraVertex<T>>, visited: set<T>, v: T, alt: real)
  {
    v !in visited && v in dv && Finite(alt).Below(dv[v].dist)
  }

  /**
   * The improving case of one inner-loop step: the record of the unvisited neighbor `v` is
   * lowered to `nd`, `u` becomes its predecessor and `v` is pushed at `nd`.
   */
  method LowerTo<T(!new)>(ghost vs: VertexMap<T>, ghost es: EdgeMap<T>, pq: VertexPriorityQueue<T>,
                          ghost start: T, dv0: map<T, DijkstraVertex<T>>, ghost st0: Tentative<T>, ghost visited: set<T>,
                          u: T, ghost p: real, ghost stale: bool, ghost done: nat, v: T, nd: real)
    returns (dv: map<T, DijkstraVertex<T>>, ghost st: Tentative<T>)
    requires WellKeyed(vs, es) && NeighborsHaveEdges(vs, es)
    requires u in vs && done < |vs[u].neighbors| && v == vs[u].neighbors[done] && v in vs[u].neighbors
    requires pq.Valid() && pq.Contents() == st0.heap && RecordsMatch(dv0, st0.dist)
    requires RelaxProgress(vs, es, start, st0, visited, u, p, stale, done)
    requires v !in visited && v in dv0 && nd == p + EdgeWeight(es, u, v) && Finite(nd).Below(dv0[v].dist)
    modifies pq
    ensures pq.Valid() && pq.Contents() == st.heap && RecordsMatch(dv, st.dist)
    ensures RelaxProgress(vs, es, start, st, visited, u, p, stale, done + 1)
    ensures !stale
    ensures dv == dv0[v := dv0[v].(dist := Finite(nd), previous := Some(u))]
    ensures pq.Contents() == old(pq.Contents()) + multiset{(v, nd)}
  {
    RelaxLowers(vs, es, start, st0, visited, u, p, stale, done, v, nd);
    dv := dv0[v := dv0[v].(dist := Finite(nd), previous := Some(u))];
    st := Lowered(st0, u, v, nd);
    pq.Push(Item(NewVertexWithPriority(v, dv[v].dist.value)));
  }

  /**
   * One step of the inner loop of the standard variant: when the neighbor `v` of the popped
   * vertex `u` (popped at priority `p`) is unvisited and `p` plus the edge weight is below its
   * record, the record is lowered, `u` becomes its predecessor and `v` is pushed at the new
   * distance. `vs`, `es` name the graph's maps and `st` is the ghost view of the state.
   */
  method RelaxTo<T(!new)>(g: Graph<T>, ghost vs: VertexMap<T>, ghost es: EdgeMap<T>, pq: VertexPriorityQueue<T>,
                          ghost start: T, dv0: map<T, DijkstraVertex<T>>, ghost st0: Tentative<T>, visited: set<T>,
                          u: T, p: real, ghost stale: bool, ghost done: nat, v: T)
    returns (dv: map<T, DijkstraVertex<T>>, ghost st: Tentative<T>)
    requires vs == g.vertices && es == g.edges && g.Valid() && NeighborsHaveEdges(vs, es)
    requires u in vs && done < |vs[u].neighbors| && v == vs[u].neighbors[done] && v in vs[u].neighbors
    requires pq.Valid() && pq.Contents() == st0.heap && RecordsMatch(dv0, st0.dist)
    requires RelaxProgress(vs, es, start, st0, visited, u, p, stale, done)
    modifies pq
    ensures pq.Valid() && pq.Contents() == st.heap && RecordsMatch(dv, st.dist)
    ensures RelaxProgress(vs, es, start, st, visited, u, p, stale, done + 1)
    ensures stale ==> st.heap == st0.heap
    ensures Improves(dv0, visited, v, p + EdgeWeight(es, u, v)) ==>
      && dv == dv0[v := dv0[v].(dist := Finite(p + EdgeWeight(es, u, v)), previous := Some(u))]
      && pq.Contents() == old(pq.Contents()) + multiset{(v, p + EdgeWeight(es, u, v))}
    ensures !Improves(dv0, visited, v, p + EdgeWeight(es, u, v)) ==> dv == dv0 && unchanged(pq)
  {
    dv, st := dv0, st0;
    if v !in visited {
      var neighbor := dv[v];
      var edge := g.GetEdge(g.GetVertexByLabel(u), g.GetVertexByLabel(v));
      var newDist := p + edge.value.Weight();
      assert edge.value.Weight() == EdgeWeight(es, u, v);
      if Finite(newDist).Below(neighbor.dist) {
        dv, st := LowerTo(vs, es, pq, start, dv, st, visited, u, p, stale, done, v, newDist);
      } else {
        RelaxKeeps(vs, es, start, st, visited, u, p, stale, done, v);
      }
    } else {
      RelaxKeeps(vs, es, start, st, visited, u, p, stale, done, v);
    }
  }

  /** The inner loop of the standard variant: every neighbor of the popped vertex `u` is relaxed. */
  method RelaxUnvisited<T(!new)>(g: Graph<T>, ghost vs: VertexMap<T>, ghost es: EdgeMap<T>, pq: VertexPriorityQueue<T>,
                                 ghost start: T, dv0: map<T, DijkstraVertex<T>>, ghost st0: Tentative<T>, visited: set<T>,
                                 u: T, p: real, ghost stale: bool)
    returns (dv: map<T, DijkstraVertex<T>>, ghost st: Tentative<T>)
    requires vs == g.vertices && es == g.edges && g.Valid() && NeighborsHaveEdges(vs, es) && u in vs
    requires pq.Valid() && pq.Contents() == st0.heap && RecordsMatch(dv0, st0.dist)
    requires RelaxProgress(vs, es, start, st0, visited, u, p, stale, 0)
    modifies pq
    ensures pq.Valid() && pq.Contents() == st.heap && RecordsMatch(dv, st.dist)
    ensures RelaxProgress(vs, es, start, st, visited, u, p, stale, |vs[u].neighbors|)
    ensures stale ==> st.heap == st0.heap
  {
    dv, st := dv0, st0;
    var neighbors := g.GetVertexByLabel(u).value.Neighbors();
    assert neighbors == vs[u].neighbors;
    for i := 0 to |neighbors|
      invariant pq.Valid() && pq.Contents() == st.heap && RecordsMatch(dv, st.dist)
      invariant RelaxProgress(vs, es, start, st, visited, u, p, stale, i)
      invariant stale ==> st.heap == st0.heap
    {
      dv, st := RelaxTo(g, vs, es, pq, start, dv, st, visited, u, p, stale, i, neighbors[i]);
    }
  }

  /**
   * One round of the main loop of the standard variant: the least entry is popped, its vertex
   * marked visited and its neighbors relaxed. Either one more vertex is visited, or the pop was
   * stale and the heap shrank.
   */
  method Settle<T(!new)>(g: Graph<T>, ghost vs: VertexMap<T>, ghost es: EdgeMap<T>, pq: VertexPriorityQueue<T>,
                         ghost start: T, dv0: map<T, DijkstraVertex<T>>, ghost st0: Tentative<T>, visited0: set<T>)
    returns (dv: map<T, DijkstraVertex<T>>, ghost st: Tentative<T>, visited: set<T>)
    requires vs == g.vertices && es == g.edges && g.Valid() && NeighborsHaveEdges(vs, es)
    requires pq.Valid() && pq.Len() > 0 && pq.Contents() == st0.heap && RecordsMatch(dv0, st0.dist)
    requires StandardInv(vs, es, start, st0, visited0)
    modifies pq
    ensures pq.Valid() && pq.Contents() == st.heap && RecordsMatch(dv, st.dist)
    ensures StandardInv(vs, es, start, st, visited)
    ensures visited0 <= visited
    ensures |vs.Keys - visited| < |vs.Keys - visited0| || (visited == visited0 && |st.heap| < |st0.heap|)
  {
    var curr := pq.Pop();
    var u := curr.Vertex();
    ghost var stale := u in visited0;
    PopFacts(vs, es, start, st0, visited0, pq.Contents(), u, curr.Priority());
    visited := visited0 + {u};
    dv, st := RelaxUnvisited(g, vs, es, pq, start, dv0, st0.(heap := pq.Contents()), visited, u, curr.Priority(), stale);
    RelaxDone(vs, es, start, st, visited, u, curr.Priority(), stale);
    if stale {
      VisitAgain(visited0, u);
      PopShrinks(st0.heap, (u, curr.Priority()));
    } else {
      VisitShrinks(vs.Keys, visited0, u);
    }
  }

  /** Marking an unvisited vertex visited leaves fewer unvisited ones. */
  lemma VisitShrinks<T>(all: set<T>, visited0: set<T>, u: T)
    requires u in all && u !in visited0
    ensures |all - (visited0 + {u})| < |all - visited0|
  {
    assert all - visited0 == (all - (visited0 + {u})) + {u};
  }

  /** Marking a visited vertex visited again changes nothing. */
  lemma VisitAgain<T>(visited0: set<T>, u: T)
    requires u in visited0
    ensures visited0 + {u} == visited0
  {
  }

  /** Removing a present entry shrinks a multiset. */
  lemma PopShrinks<T>(heap: multiset<T>, e: T)
    requires e in heap
    ensures |heap - multiset{e}| < |heap|
  {
    assert heap == (heap - multiset{e}) + multiset{e};
  }

  /** The distances of the records, keyed by each record's own label. */
  method CollectDistances<T>(dv: map<T, DijkstraVertex<T>>) returns (dist: map<T, Dist>)
    requires forall v | v in dv :: dv[v].name == v
    ensures dist.Keys == dv.Keys
    ensures forall v | v in dv :: dist[v] == dv[v].dist
  {
    dist := map[];
    var rest := dv.Keys;
    while rest != {}
      invariant rest <= dv.Keys && dist.Keys == dv.Keys - rest
      invariant forall v | v in dist :: dist[v] == dv[v].dist
      decreases |rest|
    {
      var v :| v in rest;
      dist := dist[dv[v].name := dv[v].dist];
      rest := rest - {v};
    }
  }

  /** A record for every stored vertex, all unreached but the start, which is at 0. */
  method StartRecords<T>(g: Graph<T>, start: T) returns (dv: map<T, DijkstraVertex<T>>)
    requires g.Valid() && start in g.vertices
    ensures dv.Keys == g.vertices.Keys
    ensures dv[start] == DijkstraVertex(start, Finite(0.0), false, None)
    ensures forall l | l in dv && l != start :: dv[l] == NewDijkstraVertex(l)
  {
    var vertices := g.GetAllVertices();
    ListingLabels(g.vertices, vertices);
    dv := InitRecords(vertices);
    dv := dv[start := dv[start].(dist := Finite(0.0))];
  }

  /**
   * The standard variant: every record starts unreached, the start at 0 is pushed, and until
   * the heap is empty the least entry is popped, marked visited and its edges relaxed. Stale
   * entries of vertices already visited are popped and relax nothing that is not relaxed.
   */
  method StandardDijkstra<T(!new)>(g: Graph<T>, start: T) returns (dist: map<T, Dist>)
    requires g.Valid() && NeighborsHaveEdges(g.vertices, g.edges) && start in g.vertices
    ensures dist.Keys == g.vertices.Keys
    ensures Attained(g.vertices, g.edges, start, dist)
    ensures dist[start] == Finite(0.0)
    ensures NonNegative(g.edges) ==> IsShortestDistances(g.vertices, g.edges, start, dist)
  {
    ghost var vs, es := g.vertices, g.edges;
    var pq := new VertexPriorityQueue<T>();
    var visited: set<T> := {};
    var dv := StartRecords(g, start);
    pq.Push(Item(NewVertexWithPriority(start, dv[start].dist.value)));
    ghost var st := Tentative(multiset{(start, 0.0)}, Dists(dv), map[start := [start]]);
    StandardInit(vs, es, start, st.dist);
    dv, st, visited := SettleAll(g, vs, es, pq, start, dv, st, visited);
    StandardDone(vs, es, start, st, visited);
    dist := CollectDistances(dv);
    RecordsDistances(dv, st.dist, dist);
  }

  /** The main loop of the standard variant: rounds run until the heap is empty. */
  method SettleAll<T(!new)>(g: Graph<T>, ghost vs: VertexMap<T>, ghost es: EdgeMap<T>, pq: VertexPriorityQueue<T>,
                            ghost start: T, dv0: map<T, DijkstraVertex<T>>, ghost st0: Tentative<T>, visited0: set<T>)
    returns (dv: map<T, DijkstraVertex<T>>, ghost st: Tentative<T>, visited: set<T>)
    requires vs == g.vertices && es == g.edges && g.Valid() && NeighborsHaveEdges(vs, es)
    requires pq.Valid() && pq.Contents() == st0.heap && RecordsMatch(dv0, st0.dist)
    requires StandardInv(vs, es, start, st0, visited0)
    modifies pq
    ensures pq.Valid() && st.heap == multiset{} && RecordsMatch(dv, st.dist)
    ensures StandardInv(vs, es, start, st, visited)
  {
    dv, st, visited := dv0, st0, visited0;
    while pq.Len() > 0
      invariant pq.Valid() && pq.Contents() == st.heap && RecordsMatch(dv, st.dist)
      invariant StandardInv(vs, es, start, st, visited)
      decreases |vs.Keys - visited|, |st.heap|
    {
      dv, st, visited := Settle(g, vs, es, pq, start, dv, st, visited);
    }
  }

  /** Distances read off records that match `d` are `d`. */
  lemma RecordsDistances<T>(dv: map<T, DijkstraVertex<T>>, d: map<T, Dist>, dist: map<T, Dist>)
    requires RecordsMatch(dv, d)
    requires dist.Keys == dv.Keys && forall v | v in dv :: dist[v] == dv[v].dist
    ensures dist == d
  {
  }

  /**
   * The pathfinder: the options are applied in order to the zero properties; a start label
   * that is not stored yields the empty map; otherwise the selected variant runs.
   */
  method Dijkstra<T(!new)>(g: Graph<T>, start: T, opts: seq<DijkstraOption>) returns (dist: map<T, Dist>)
    requires g.Valid() && NeighborsHaveEdges(g.vertices, g.edges)
    ensures start !in g.vertices ==> dist == map[]
    ensures start in g.vertices ==> dist.Keys == g.vertices.Keys && Attained(g.vertices, g.edges, start, dist)
    ensures start in g.vertices && NonNegative(g.edges) ==> IsShortestDistances(g.vertices, g.edges, start, dist)
    ensures start in g.vertices ==> dist[start].AtMost(Finite(0.0))
    ensures start in g.vertices && ApplyDijkstraOptions(ZeroDijkstraProperties, opts).GetUseStandard() ==>
      dist[start] == Finite(0.0)
  {
    var properties := ZeroDijkstraProperties;
    for i := 0 to |opts|
      invariant properties == ApplyDijkstraOptions(ZeroDijkstraProperties, opts[..i])
    {
      assert opts[..i + 1][..i] == opts[..i];
      properties := ApplyDijkstraOption(opts[i], properties);
    }
    assert opts[..|opts|] == opts;
    dist := map[];
    if g.GetVertexByLabel(start).None? {
      return;
    }
    if !properties.GetUseStandard() {
      dist := SimpleDijkstra(g, start);
    } else {
      dist := StandardDijkstra(g, start);
    }
  }
}
