/**
 * Walks over the stored adjacency and the shortest-distance vocabulary used by the pathfinder,
 * the iterators and the centrality measure. Distances are reals with an explicit Infinity,
 * which stands for the `math.MaxFloat64` sentinel of the library.
 */
module Paths {
  import opened Vertices
  import opened Edges
  import opened Grafik

  /** A tentative or final distance: a finite real, or Infinity for "not reached". */
  datatype Dist = Finite(value: real) | Infinity
  {
    /** The distance extended by one edge of weight `w`; Infinity absorbs any weight. */
    function Plus(w: real): (r: Dist)
      ensures r.Finite? <==> this.Finite?
      ensures r.Finite? ==> r.value == value + w
    {
      if Finite? then Finite(value + w) else Infinity
    }

    /** Strictly smaller; Infinity is above every finite distance and not below itself. */
    predicate Below(other: Dist)
    {
      Finite? && (other.Infinity? || value < other.value)
    }

    /** Smaller or equal. */
    predicate AtMost(other: Dist)
    {
      other.Infinity? || (Finite? && value <= other.value)
    }
  }

  /** Every edge weight is non-negative. */
  ghost predicate NonNegative<T>(es: EdgeMap<T>)
  {
    forall a | a in es :: forall b | b in es[a] :: es[a][b].Weight() >= 0.0
  }

  /** The weight of the stored edge `a -> b`, or 0 when the slot is empty. */
  function EdgeWeight<T>(es: EdgeMap<T>, a: T, b: T): (r: real)
    ensures NonNegative(es) ==> r >= 0.0
  {
    if a in es && b in es[a] then es[a][b].Weight() else 0.0
  }

  /** `b` is in the neighbor list of the stored vertex `a`. */
  ghost predicate Adjacent<T>(vs: VertexMap<T>, a: T, b: T)
  {
    a in vs && b in vs[a].neighbors
  }

  /** A non-empty sequence of stored labels, each a neighbor of the one before. */
  ghost predicate IsWalk<T>(vs: VertexMap<T>, p: seq<T>)
  {
    && |p| > 0
    && (forall i | 0 <= i < |p| :: p[i] in vs)
    && (forall i | 0 <= i < |p| - 1 :: Adjacent(vs, p[i], p[i + 1]))
  }

  /** A walk that starts at `s` and ends at `v`. */
  ghost predicate IsWalkFromTo<T>(vs: VertexMap<T>, p: seq<T>, s: T, v: T)
  {
    IsWalk(vs, p) && p[0] == s && p[|p| - 1] == v
  }

  /** Some walk leads from `s` to `v`. */
  ghost predicate Reachable<T(!new)>(vs: VertexMap<T>, s: T, v: T)
  {
    exists p :: IsWalkFromTo(vs, p, s, v)
  }

  /** The sum of the edge weights along a walk. */
  function WalkWeight<T>(es: EdgeMap<T>, p: seq<T>): (r: real)
    requires |p| > 0
    ensures NonNegative(es) ==> r >= 0.0
    ensures |p| == 1 ==> r == 0.0
  {
    if |p| == 1 then 0.0
    else WalkWeight(es, p[..|p| - 1]) + EdgeWeight(es, p[|p| - 2], p[|p| - 1])
  }

  /** Extending a walk by a neighbor of its last label adds that edge's weight. */
  lemma WalkExtend<T>(vs: VertexMap<T>, es: EdgeMap<T>, p: seq<T>, n: T)
    requires IsWalk(vs, p) && Adjacent(vs, p[|p| - 1], n) && n in vs
    ensures IsWalk(vs, p + [n])
    ensures WalkWeight(es, p + [n]) == WalkWeight(es, p) + EdgeWeight(es, p[|p| - 1], n)
  {
    assert (p + [n])[..|p|] == p;
  }

  /** Every distance of `d` that is finite is the weight of a walk from `s`. */
  ghost predicate Attained<T(!new)>(vs: VertexMap<T>, es: EdgeMap<T>, s: T, d: map<T, Dist>)
  {
    forall v | v in d && d[v].Finite? :: exists p :: IsWalkFromTo(vs, p, s, v) && WalkWeight(es, p) == d[v].value
  }

  /** The distance recorded for `x` is at most the weight of every walk from `s` to `x`. */
  ghost predicate SettledOptimal<T(!new)>(vs: VertexMap<T>, es: EdgeMap<T>, s: T, d: map<T, Dist>, x: T)
  {
    x in d && forall p | IsWalkFromTo(vs, p, s, x) :: d[x].AtMost(Finite(WalkWeight(es, p)))
  }

  /** `d` holds, for every stored vertex, the least weight of a walk from `s`, or Infinity if none. */
  ghost predicate IsShortestDistances<T(!new)>(vs: VertexMap<T>, es: EdgeMap<T>, s: T, d: map<T, Dist>)
  {
    && d.Keys == vs.Keys
    && Attained(vs, es, s, d)
    && (forall x | x in d :: SettledOptimal(vs, es, s, d, x))
  }

  /** Shortest distances are unique: two maps that both qualify are equal. */
  lemma ShortestUnique<T(!new)>(vs: VertexMap<T>, es: EdgeMap<T>, s: T, d1: map<T, Dist>, d2: map<T, Dist>)
    requires IsShortestDistances(vs, es, s, d1) && IsShortestDistances(vs, es, s, d2)
    ensures d1 == d2
  {
    forall v | v in d1
      ensures d1[v] == d2[v]
    {
      assert SettledOptimal(vs, es, s, d1, v) && SettledOptimal(vs, es, s, d2, v);
      if d1[v].Finite? {
        var p :| IsWalkFromTo(vs, p, s, v) && WalkWeight(es, p) == d1[v].value;
      }
      if d2[v].Finite? {
        var p :| IsWalkFromTo(vs, p, s, v) && WalkWeight(es, p) == d2[v].value;
      }
    }
  }

  /** A shortest distance is finite exactly for the vertices reachable from `s`. */
  lemma ShortestFiniteIffReachable<T(!new)>(vs: VertexMap<T>, es: EdgeMap<T>, s: T, d: map<T, Dist>, v: T)
    requires IsShortestDistances(vs, es, s, d) && v in vs
    ensures d[v].Finite? <==> Reachable(vs, s, v)
  {
    if Reachable(vs, s, v) {
      var p :| IsWalkFromTo(vs, p, s, v);
      assert SettledOptimal(vs, es, s, d, v);
      assert d[v].AtMost(Finite(WalkWeight(es, p)));
    }
  }

  /** With non-negative weights the start vertex is at distance zero. */
  lemma ShortestStartIsZero<T(!new)>(vs: VertexMap<T>, es: EdgeMap<T>, s: T, d: map<T, Dist>)
    requires IsShortestDistances(vs, es, s, d) && s in vs && NonNegative(es)
    ensures d[s] == Finite(0.0)
  {
    assert IsWalkFromTo(vs, [s], s, s);
    assert SettledOptimal(vs, es, s, d, s);
    assert d[s].AtMost(Finite(WalkWeight(es, [s])));
    var p :| IsWalkFromTo(vs, p, s, s) && WalkWeight(es, p) == d[s].value;
  }

  /**
   * Every unvisited vertex `y` is no farther than each neighbor of a visited vertex allows.
   * Only neighbors that are still unvisited are constrained.
   */
  ghost predicate RelaxedFrom<T>(vs: VertexMap<T>, es: EdgeMap<T>, d: map<T, Dist>, visited: set<T>, x: T)
  {
    x in vs && x in d &&
    forall n {:trigger n in vs[x].neighbors} | n in vs[x].neighbors && n !in visited :: n in d && d[n].AtMost(d[x].Plus(EdgeWeight(es, x, n)))
  }

  /**
   * The frontier argument of Dijkstra's algorithm: a walk from `s` to an unvisited vertex
   * passes through an unvisited vertex whose recorded distance is at most the walk's weight.
   */
  lemma {:induction false} Frontier<T(!new)>(vs: VertexMap<T>, es: EdgeMap<T>, s: T, d: map<T, Dist>, visited: set<T>, p: seq<T>)
    returns (k: nat)
    requires NonNegative(es) && IsWalk(vs, p) && p[0] == s && p[|p| - 1] !in visited
    requires s in d && (s !in visited ==> d[s].AtMost(Finite(0.0)))
    requires forall x | x in visited :: SettledOptimal(vs, es, s, d, x) && RelaxedFrom(vs, es, d, visited, x)
    ensures k < |p| && p[k] !in visited && p[k] in d
    ensures d[p[k]].AtMost(Finite(WalkWeight(es, p)))
  {
    if |p| == 1 {
      return 0;
    }
    var q := p[..|p| - 1];
    assert IsWalk(vs, q);
    var x, y := q[|q| - 1], p[|p| - 1];
    if x !in visited {
      k := Frontier(vs, es, s, d, visited, q);
    } else {
      assert SettledOptimal(vs, es, s, d, x) && RelaxedFrom(vs, es, d, visited, x);
      assert IsWalkFromTo(vs, q, s, x);
      assert Adjacent(vs, x, y);
      k := |p| - 1;
    }
  }

  /**
   * A vertex whose recorded distance is least among the unvisited ones is settled: no walk
   * from `s` to it is lighter.
   */
  lemma MinimumIsSettled<T(!new)>(vs: VertexMap<T>, es: EdgeMap<T>, s: T, d: map<T, Dist>, visited: set<T>, u: T)
    requires NonNegative(es) && u in d && u !in visited
    requires s in d && (s !in visited ==> d[s].AtMost(Finite(0.0)))
    requires forall x | x in visited :: SettledOptimal(vs, es, s, d, x) && RelaxedFrom(vs, es, d, visited, x)
    requires forall y | y in d && y !in visited :: d[u].AtMost(d[y])
    ensures SettledOptimal(vs, es, s, d, u)
  {
    forall p | IsWalkFromTo(vs, p, s, u)
      ensures d[u].AtMost(Finite(WalkWeight(es, p)))
    {
      var k := Frontier(vs, es, s, d, visited, p);
    }
  }
}
