/**
 * Closeness-style centrality (centrality/dijkstra_centrality.go): every stored vertex gets the
 * average of its Dijkstra distances, and the results are sorted by that average, smallest
 * first. The library fans the per-vertex runs out to goroutines and collects them through a
 * channel; here they run one after the other, which builds the same collection of results.
 */
module Centrality {
  import opened Options
  import opened Vertices
  import opened Grafik
  import opened Paths
  import opened Pathfinder
  import opened Iterators

  /** A vertex label with the average length of the shortest paths from it. */
  datatype VertexPath<T> = VertexPath(vertexLabel: T, averageLength: Dist)

  /** The sum of two lengths; Infinity absorbs everything. */
  function Add(a: Dist, b: Dist): (r: Dist)
    ensures r.Finite? <==> a.Finite? && b.Finite?
    ensures r.Finite? ==> r.value == a.value + b.value
  {
    if a.Finite? && b.Finite? then Finite(a.value + b.value) else Infinity
  }

  /** The sum of the lengths of `m` at the labels `ks`, in no particular order. */
  ghost function SumOver<T>(m: map<T, Dist>, ks: set<T>): Dist
    requires ks <= m.Keys
    decreases ks
  {
    if ks == {} then Finite(0.0)
    else
      var k :| k in ks;
      Add(m[k], SumOver(m, ks - {k}))
  }

  /** The sum of all lengths of a distance map. */
  ghost function Total<T>(m: map<T, Dist>): Dist
  {
    SumOver(m, m.Keys)
  }

  /** The sum does not depend on which label is taken first. */
  lemma {:induction false} SumRemove<T>(m: map<T, Dist>, ks: set<T>, k: T)
    requires ks <= m.Keys && k in ks
    ensures SumOver(m, ks) == Add(m[k], SumOver(m, ks - {k}))
    decreases ks
  {
    var k0 :| k0 in ks && SumOver(m, ks) == Add(m[k0], SumOver(m, ks - {k0}));
    if k0 != k {
      SumRemove(m, ks - {k0}, k);
      SumRemove(m, ks - {k}, k0);
      var rest := ks - {k0} - {k};
      assert ks - {k} - {k0} == rest;
      assert SumOver(m, ks - {k0}) == Add(m[k], SumOver(m, rest));
      assert SumOver(m, ks - {k}) == Add(m[k0], SumOver(m, rest));
      assert Add(m[k0], Add(m[k], SumOver(m, rest))) == Add(m[k], Add(m[k0], SumOver(m, rest)));
    }
  }

  /** Sums the lengths of a distance map, one entry at a time. */
  method SumLengths<T>(pathLengths: map<T, Dist>) returns (total: Dist)
    ensures total == Total(pathLengths)
    ensures total.Finite? <==> forall v | v in pathLengths :: pathLengths[v].Finite?
  {
    total := Finite(0.0);
    var rest := pathLengths.Keys;
    ghost var seen: set<T> := {};
    while rest != {}
      invariant seen <= pathLengths.Keys && rest == pathLengths.Keys - seen
      invariant total == SumOver(pathLengths, seen)
      decreases |rest|
    {
      var k :| k in rest;
      SumRemove(pathLengths, seen + {k}, k);
      assert seen + {k} - {k} == seen;
      total := Add(total, pathLengths[k]);
      rest := rest - {k};
      seen := seen + {k};
    }
    assert seen == pathLengths.Keys;
    SumFinite(pathLengths, pathLengths.Keys);
  }

  /** The sum is finite exactly when every length summed is. */
  lemma {:induction false} SumFinite<T>(m: map<T, Dist>, ks: set<T>)
    requires ks <= m.Keys
    ensures SumOver(m, ks).Finite? <==> forall v | v in ks :: m[v].Finite?
    decreases ks
  {
    if ks != {} {
      var k :| k in ks && SumOver(m, ks) == Add(m[k], SumOver(m, ks - {k}));
      SumFinite(m, ks - {k});
      ghost var r := SumOver(m, ks - {k});
      assert SumOver(m, ks) == Add(m[k], r);
      assert Add(m[k], r).Finite? <==> m[k].Finite? && r.Finite?;
      assert (forall v | v in ks :: m[v].Finite?) <==> m[k].Finite? && forall v | v in ks - {k} :: m[v].Finite?;
    }
  }

  /** The average of a non-empty distance map: Infinity when some length is. */
  ghost function Average<T>(m: map<T, Dist>): (r: Dist)
    requires |m| > 0
  {
    var t := Total(m);
    if t.Finite? then Finite(t.value / (|m| as real)) else Infinity
  }

  /**
   * `e` is the average of a distance map from its label that meets what the pathfinder
   * promises when run with `opts`: keyed by every stored vertex, attained, at most 0 at the
   * label itself (exactly 0 when the options select the standard variant) and, with
   * non-negative weights, shortest.
   */
  ghost predicate RunAverage<T(!new)>(vs: VertexMap<T>, es: EdgeMap<T>, opts: seq<DijkstraOption>, e: VertexPath<T>)
  {
    exists d: map<T, Dist> ::
      && d.Keys == vs.Keys && e.vertexLabel in d
      && Attained(vs, es, e.vertexLabel, d) && d[e.vertexLabel].AtMost(Finite(0.0))
      && (ApplyDijkstraOptions(ZeroDijkstraProperties, opts).GetUseStandard() ==> d[e.vertexLabel] == Finite(0.0))
      && (NonNegative(es) ==> IsShortestDistances(vs, es, e.vertexLabel, d))
      && e.averageLength == Average(d)
  }

  /** With non-negative weights the average of a vertex is determined by the graph, whatever the options. */
  lemma AverageDetermined<T(!new)>(vs: VertexMap<T>, es: EdgeMap<T>, opts1: seq<DijkstraOption>, opts2: seq<DijkstraOption>,
                                   e1: VertexPath<T>, e2: VertexPath<T>)
    requires NonNegative(es) && RunAverage(vs, es, opts1, e1) && RunAverage(vs, es, opts2, e2)
    requires e1.vertexLabel == e2.vertexLabel
    ensures e1.averageLength == e2.averageLength
  {
    var d1: map<T, Dist> :| d1.Keys == vs.Keys && e1.vertexLabel in d1 && IsShortestDistances(vs, es, e1.vertexLabel, d1)
      && e1.averageLength == Average(d1);
    var d2: map<T, Dist> :| d2.Keys == vs.Keys && e2.vertexLabel in d2 && IsShortestDistances(vs, es, e2.vertexLabel, d2)
      && e2.averageLength == Average(d2);
    ShortestUnique(vs, es, e1.vertexLabel, d1, d2);
  }

  /** Sorted by average, smallest first. */
  ghost predicate SortedByAverage<T>(s: seq<VertexPath<T>>)
  {
    forall i, j | 0 <= i < j < |s| :: s[i].averageLength.AtMost(s[j].averageLength)
  }

  /** The image of a sequence under `f`, element by element. */
  function MapSeq<A, B>(f: A -> B, s: seq<A>): (r: seq<B>)
    ensures |r| == |s|
  {
    if |s| == 0 then [] else [f(s[0])] + MapSeq(f, s[1..])
  }

  /** Each element of the image is the image of the element. */
  lemma {:induction false} MapSeqAt<A, B>(f: A -> B, s: seq<A>)
    ensures forall i | 0 <= i < |s| :: MapSeq(f, s)[i] == f(s[i])
  {
    if |s| > 0 {
      MapSeqAt(f, s[1..]);
      forall i | 0 < i < |s|
        ensures MapSeq(f, s)[i] == f(s[i])
      {
        assert MapSeq(f, s)[i] == MapSeq(f, s[1..])[i - 1];
      }
    }
  }

  /** Dropping the element at `j` drops one occurrence of it. */
  lemma RemoveAt<X>(s: seq<X>, j: int)
    requires 0 <= j < |s|
    ensures multiset(s[..j] + s[j + 1..]) == multiset(s) - multiset{s[j]}
    ensures s == s[..j] + ([s[j]] + s[j + 1..])
  {
    assert s == s[..j] + [s[j]] + s[j + 1..];
  }

  /** Dropping the first element drops one occurrence of it. */
  lemma Tail<X>(s: seq<X>)
    requires |s| > 0
    ensures multiset(s[1..]) == multiset(s) - multiset{s[0]}
    ensures s == [s[0]] + s[1..]
  {
    assert s == [s[0]] + s[1..];
  }

  /** Sequences with equal heads and equal tails are equal. */
  lemma ConsEqual<X>(a: seq<X>, b: seq<X>)
    requires |a| > 0 && |b| > 0 && a[0] == b[0] && a[1..] == b[1..]
    ensures a == b
  {
    assert a == [a[0]] + a[1..] && b == [b[0]] + b[1..];
  }

  /** The image of a concatenation is the concatenation of the images. */
  lemma {:induction false} MapConcat<A, B>(f: A -> B, x: seq<A>, y: seq<A>)
    ensures MapSeq(f, x + y) == MapSeq(f, x) + MapSeq(f, y)
  {
    if |x| == 0 {
      assert x + y == y;
    } else {
      assert (x + y)[1..] == x[1..] + y;
      MapConcat(f, x[1..], y);
    }
  }

  /** Permuting a sequence permutes its image. */
  lemma {:induction false} MapPermutation<A, B>(f: A -> B, a: seq<A>, b: seq<A>)
    requires multiset(a) == multiset(b)
    ensures multiset(MapSeq(f, a)) == multiset(MapSeq(f, b))
    decreases |a|
  {
    if |a| > 0 {
      assert a[0] in multiset(b);
      var j :| 0 <= j < |b| && b[j] == a[0];
      var pre, post := b[..j], b[j + 1..];
      Tail(a);
      RemoveAt(b, j);
      MapPermutation(f, a[1..], pre + post);
      MapConcat(f, pre, post);
      MapConcat(f, pre, [b[j]] + post);
      assert ([b[j]] + post)[1..] == post;
    }
  }

  /** The averages of a sequence of results, in order. */
  function Averages<T>(s: seq<VertexPath<T>>): (r: seq<Dist>)
    ensures |r| == |s| && forall i | 0 <= i < |s| :: r[i] == s[i].averageLength
  {
    MapSeqAt((e: VertexPath<T>) => e.averageLength, s);
    MapSeq((e: VertexPath<T>) => e.averageLength, s)
  }

  /** The labels of a sequence of results, in order. */
  function LabelsOf<T>(s: seq<VertexPath<T>>): (r: seq<T>)
    ensures |r| == |s| && forall i | 0 <= i < |s| :: r[i] == s[i].vertexLabel
  {
    MapSeqAt((e: VertexPath<T>) => e.vertexLabel, s);
    MapSeq((e: VertexPath<T>) => e.vertexLabel, s)
  }

  /** Lengths in non-decreasing order. */
  ghost predicate Ascending(a: seq<Dist>)
  {
    forall i, j | 0 <= i < j < |a| :: a[i].AtMost(a[j])
  }

  /** The first of ascending lengths is at most each of them. */
  lemma HeadLeast(a: seq<Dist>, x: Dist)
    requires Ascending(a) && x in a
    ensures a[0].AtMost(x)
  {
    var k :| 0 <= k < |a| && a[k] == x;
    if k > 0 {
      assert a[0].AtMost(a[k]);
    }
  }

  /** The tail of ascending lengths is ascending. */
  lemma AscendingTail(a: seq<Dist>)
    requires Ascending(a) && |a| > 0
    ensures Ascending(a[1..])
  {
    forall i, j | 0 <= i < j < |a| - 1
      ensures a[1..][i].AtMost(a[1..][j])
    {
      assert a[i + 1].AtMost(a[j + 1]);
    }
  }

  /** Two ascending sequences of lengths with the same elements are equal. */
  lemma {:induction false} SortedUnique(a: seq<Dist>, b: seq<Dist>)
    requires multiset(a) == multiset(b) && Ascending(a) && Ascending(b)
    ensures a == b
    decreases |a|
  {
    if |a| > 0 {
      assert |b| == |multiset(b)| == |a|;
      assert a[0] in multiset(b) && b[0] in multiset(a);
      HeadLeast(a, b[0]);
      HeadLeast(b, a[0]);
      Tail(a);
      Tail(b);
      AscendingTail(a);
      AscendingTail(b);
      SortedUnique(a[1..], b[1..]);
      ConsEqual(a, b);
    }
  }

  /**
   * The collection order does not matter: two sorted arrangements of the same results have
   * the same averages position by position; only entries with equal averages may swap.
   */
  lemma OrderIndependent<T>(a: seq<VertexPath<T>>, b: seq<VertexPath<T>>)
    requires multiset(a) == multiset(b) && SortedByAverage(a) && SortedByAverage(b)
    ensures Averages(a) == Averages(b)
  {
    MapPermutation((e: VertexPath<T>) => e.averageLength, a, b);
    SortedUnique(Averages(a), Averages(b));
  }

  /** Swaps the entry at `j` with the one before it. */
  method SwapDown<T>(a: array<VertexPath<T>>, j: int)
    requires 0 < j < a.Length
    modifies a
    ensures a[..] == old(a[..])[j - 1 := old(a[j])][j := old(a[j - 1])]
    ensures multiset(a[..]) == multiset(old(a[..]))
  {
    a[j - 1], a[j] := a[j], a[j - 1];
  }

  /**
   * Moves the entry at `i` towards the front while it is strictly smaller than the one before
   * it, so that the first `i + 1` entries are sorted when the first `i` were.
   */
  method Insert<T>(a: array<VertexPath<T>>, i: int)
    requires 0 <= i < a.Length && SortedByAverage(a[..i])
    modifies a
    ensures SortedByAverage(a[..i + 1])
    ensures multiset(a[..]) == multiset(old(a[..]))
  {
    var j := i;
    while j > 0 && a[j].averageLength.Below(a[j - 1].averageLength)
      invariant 0 <= j <= i
      invariant multiset(a[..]) == multiset(old(a[..]))
      invariant forall p, q | 0 <= p < q <= i && q != j :: a[p].averageLength.AtMost(a[q].averageLength)
      invariant 0 < j < i ==> a[j - 1].averageLength.AtMost(a[j + 1].averageLength)
    {
      SwapDown(a, j);
      j := j - 1;
    }
  }

  /** Sorts the results by average in place, smallest first, by insertion. */
  method SortByAverage<T>(a: array<VertexPath<T>>)
    modifies a
    ensures SortedByAverage(a[..])
    ensures multiset(a[..]) == multiset(old(a[..]))
  {
    for i := 0 to a.Length
      invariant SortedByAverage(a[..i])
      invariant multiset(a[..]) == multiset(old(a[..]))
    {
      Insert(a, i);
    }
  }

  /**
   * The result for one vertex: the pathfinder runs from `vertexLabel` with the given options
   * and its distances are summed and divided by their number.
   */
  method RunOne<T(!new)>(g: Graph<T>, vertexLabel: T, opts: seq<DijkstraOption>) returns (e: VertexPath<T>)
    requires g.Valid() && NeighborsHaveEdges(g.vertices, g.edges) && vertexLabel in g.vertices
    ensures e.vertexLabel == vertexLabel && RunAverage(g.vertices, g.edges, opts, e)
  {
    var pathLengths := Dijkstra(g, vertexLabel, opts);
    var totalLength := SumLengths(pathLengths);
    var averageLength := if totalLength.Finite? then Finite(totalLength.value / (|pathLengths| as real)) else Infinity;
    e := VertexPath(vertexLabel, averageLength);
    assert averageLength == Average(pathLengths);
  }

  /** One result per listed vertex, in the order of the listing. */
  method RunAll<T(!new)>(g: Graph<T>, vertices: seq<Vertex<T>>, opts: seq<DijkstraOption>)
    returns (vertexPaths: seq<VertexPath<T>>)
    requires g.Valid() && NeighborsHaveEdges(g.vertices, g.edges)
    requires forall i | 0 <= i < |vertices| :: vertices[i].name in g.vertices
    ensures |vertexPaths| == |vertices|
    ensures forall k | 0 <= k < |vertices| :: vertexPaths[k].vertexLabel == vertices[k].name
    ensures forall k | 0 <= k < |vertexPaths| :: RunAverage(g.vertices, g.edges, opts, vertexPaths[k])
  {
    vertexPaths := [];
    for i := 0 to |vertices|
      invariant |vertexPaths| == i
      invariant forall k | 0 <= k < i :: vertexPaths[k].vertexLabel == vertices[k].name
      invariant forall k | 0 <= k < i :: RunAverage(g.vertices, g.edges, opts, vertexPaths[k])
    {
      var e := RunOne(g, vertices[i].Label(), opts);
      vertexPaths := vertexPaths + [e];
    }
  }

  /** The results of a listing of distinct stored labels hold each stored label once. */
  lemma CoverLabels<T>(vertexPaths: seq<VertexPath<T>>, vertices: seq<Vertex<T>>, keys: set<T>)
    requires |vertexPaths| == |vertices|
    requires forall k | 0 <= k < |vertices| :: vertexPaths[k].vertexLabel == vertices[k].name
    requires forall i | 0 <= i < |vertices| :: vertices[i].name in keys
    requires forall l | l in keys :: exists i | 0 <= i < |vertices| :: vertices[i].name == l
    requires NoDup(LabelsOf(vertexPaths))
    ensures multiset(LabelsOf(vertexPaths)) == multiset(keys)
  {
    var ls := LabelsOf(vertexPaths);
    forall l | l in keys
      ensures exists i | 0 <= i < |ls| :: ls[i] == l
    {
      var i :| 0 <= i < |vertices| && vertices[i].name == l;
      assert ls[i] == l;
    }
    ListingMultiset(ls, keys);
  }

  /** The results, sorted in an array by average: a sorted permutation of them. */
  method SortedCopy<T>(vertexPaths: seq<VertexPath<T>>) returns (r: seq<VertexPath<T>>)
    ensures multiset(r) == multiset(vertexPaths) && SortedByAverage(r)
  {
    var a := new VertexPath<T>[|vertexPaths|](k requires 0 <= k < |vertexPaths| => vertexPaths[k]);
    assert a[..] == vertexPaths;
    SortByAverage(a);
    r := a[..];
  }

  /**
   * For every stored vertex, runs the pathfinder from it with the same options and averages
   * the distances; the results are then sorted by average, smallest first.
   */
  method DijkstraCentrality<T(!new)>(g: Graph<T>, opts: seq<DijkstraOption>) returns (r: seq<VertexPath<T>>)
    requires g.Valid() && NeighborsHaveEdges(g.vertices, g.edges)
    ensures multiset(LabelsOf(r)) == multiset(g.vertices.Keys)
    ensures forall i | 0 <= i < |r| :: RunAverage(g.vertices, g.edges, opts, r[i])
    ensures SortedByAverage(r)
  {
    var vertices := g.GetAllVertices();
    var vertexPaths := RunAll(g, vertices, opts);
    assert NoDup(LabelsOf(vertexPaths)) by {
      forall i, j | 0 <= i < j < |vertexPaths|
        ensures LabelsOf(vertexPaths)[i] != LabelsOf(vertexPaths)[j]
      {
        assert vertices[i].name != vertices[j].name;
      }
    }
    CoverLabels(vertexPaths, vertices, g.vertices.Keys);
    r := SortedCopy(vertexPaths);
    MapPermutation((e: VertexPath<T>) => e.vertexLabel, r, vertexPaths);
    forall i | 0 <= i < |r|
      ensures RunAverage(g.vertices, g.edges, opts, r[i])
    {
      assert r[i] in multiset(vertexPaths);
    }
  }
}
