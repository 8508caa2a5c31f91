/**
 * The graph container (grafik.go). Vertices are kept in a map keyed by label and edges in a
 * two-level map `edges[from][to]`. AddEdge always writes both directions, so a graph built
 * through this API is undirected by construction.
 */
module Grafik {
  import opened Wrappers
  import opened Options
  import opened Vertices
  import opened Edges

  /** The error values of the library. */
  datatype Error = ErrNilVertices | ErrVertexDoesNotExist | ErrEdgeAlreadyExists

  type VertexMap<T(==)> = map<T, Vertex<T>>
  type EdgeMap<T> = map<T, map<T, Edge<T>>>

  /** Keys match labels, and every edge slot joins two stored vertices in its own direction. */
  ghost predicate WellKeyed<T>(vs: VertexMap<T>, es: EdgeMap<T>)
  {
    && (forall l | l in vs :: vs[l].name == l)
    && (forall a | a in es :: a in vs)
    && (forall a | a in es :: forall b | b in es[a] :: b in vs && es[a][b].source == a && es[a][b].dest == b)
  }

  /** Every neighbor entry has its edge slot. */
  ghost predicate NeighborsHaveEdges<T>(vs: VertexMap<T>, es: EdgeMap<T>)
  {
    forall a, n | a in vs && n in vs[a].neighbors :: a in es && n in es[a]
  }

  /** Every neighbor entry names a stored vertex. */
  ghost predicate NeighborsStored<T>(vs: VertexMap<T>)
  {
    forall a, n | a in vs && n in vs[a].neighbors :: n in vs
  }

  /** In a well-keyed graph, neighbor entries with edge slots name stored vertices. */
  lemma EdgesMakeNeighborsStored<T>(vs: VertexMap<T>, es: EdgeMap<T>)
    requires WellKeyed(vs, es) && NeighborsHaveEdges(vs, es)
    ensures NeighborsStored(vs)
  {
    forall a, n | a in vs && n in vs[a].neighbors
      ensures n in vs
    {
      assert a in es && n in es[a];
    }
  }

  /** Every edge slot has its neighbor entry and a reverse slot of the same weight. */
  ghost predicate EdgesHaveNeighbors<T>(vs: VertexMap<T>, es: EdgeMap<T>)
    requires WellKeyed(vs, es)
  {
    forall a | a in es :: forall b | b in es[a] ::
      b in vs[a].neighbors && b in es && a in es[b] && es[b][a].Weight() == es[a][b].Weight()
  }

  /** Every vertex has equal in- and out-degree. */
  ghost predicate DegreesBalanced<T>(vs: VertexMap<T>)
  {
    forall a | a in vs :: vs[a].InDegree() == vs[a].OutDegree()
  }

  /** The invariants of a graph built through this API. */
  ghost predicate UndirectedMaps<T>(vs: VertexMap<T>, es: EdgeMap<T>)
  {
    WellKeyed(vs, es) && NeighborsHaveEdges(vs, es) && EdgesHaveNeighbors(vs, es) && DegreesBalanced(vs)
  }

  /** The edge index after its slot `es[e.source][e.dest]` is set to `e`, as AddToEdgeMap does. */
  function PutEdge<T>(es: EdgeMap<T>, e: Edge<T>): (r: EdgeMap<T>)
    ensures r.Keys == es.Keys + {e.source}
    ensures e.dest in r[e.source] && r[e.source][e.dest] == e
    ensures forall a, b | a in es && b in es[a] && !(a == e.source && b == e.dest) :: b in r[a] && r[a][b] == es[a][b]
    ensures forall a, b | a in r && b in r[a] && !(a == e.source && b == e.dest) :: a in es && b in es[a]
  {
    es[e.source := (if e.source in es then es[e.source] else map[])[e.dest := e]]
  }

  /** The vertex map after the caller's vertex is inserted, unless its label is already stored. */
  ghost function Admit<T>(vs: VertexMap<T>, v: Vertex<T>): VertexMap<T>
  {
    if v.name in vs then vs else vs[v.name := v]
  }

  /**
   * The vertex map after `a` and `b` are joined: `b` appended to the neighbors of `a` and `a`
   * to those of `b`, each in-degree up by one; a self-loop appends `a` twice and adds two.
   */
  ghost function Linked<T>(vs: VertexMap<T>, a: T, b: T): VertexMap<T>
    requires a in vs && b in vs
  {
    if a != b then
      vs[a := vs[a].(neighbors := vs[a].neighbors + [b], inDegree := vs[a].inDegree + 1)]
        [b := vs[b].(neighbors := vs[b].neighbors + [a], inDegree := vs[b].inDegree + 1)]
    else
      vs[a := vs[a].(neighbors := vs[a].neighbors + [a, a], inDegree := vs[a].inDegree + 2)]
  }

  /** The edge index after `a` and `b` are joined: both slots hold an edge with the same properties. */
  ghost function LinkedEdges<T>(es: EdgeMap<T>, a: T, b: T, props: EdgeProperties): EdgeMap<T>
  {
    PutEdge(PutEdge(es, Edge(b, a, props)), Edge(a, b, props))
  }

  /** Inserting a bare vertex under a new label keeps the graph undirected. */
  lemma AdmitKeepsUndirected<T>(vs: VertexMap<T>, es: EdgeMap<T>, v: Vertex<T>)
    requires UndirectedMaps(vs, es)
    requires v.name in vs || (v.inDegree == 0 && v.neighbors == [])
    ensures UndirectedMaps(Admit(vs, v), es)
  {
    if v.name !in vs {
      var vs' := Admit(vs, v);
      assert WellKeyed(vs, es) && EdgesHaveNeighbors(vs, es);
      assert v.name !in es;
      forall a: T, b: T | a in es && b in es[a]
        ensures b in vs'[a].neighbors
      {
        assert a in vs && a != v.name;
        assert vs'[a] == vs[a];
        assert es[a][b].source == a;
        assert b in vs[a].neighbors;
      }
    }
  }

  /** Joining two stored vertices keeps the keys and edge slots consistent. */
  lemma LinkKeepsWellKeyed<T>(vs: VertexMap<T>, es: EdgeMap<T>, a: T, b: T, props: EdgeProperties)
    requires WellKeyed(vs, es) && a in vs && b in vs
    ensures WellKeyed(Linked(vs, a, b), LinkedEdges(es, a, b, props))
  {
    var vs': VertexMap<T>, es': EdgeMap<T> := Linked(vs, a, b), LinkedEdges(es, a, b, props);
    forall x, y | x in es' && y in es'[x]
      ensures y in vs' && es'[x][y].source == x && es'[x][y].dest == y
    {
      if !((x == a && y == b) || (x == b && y == a)) {
        assert x in es && y in es[x];
      }
    }
  }

  /** Joining two stored vertices gives each new neighbor entry its edge slot. */
  lemma LinkKeepsNeighborEdges<T>(vs: VertexMap<T>, es: EdgeMap<T>, a: T, b: T, props: EdgeProperties)
    requires NeighborsHaveEdges(vs, es) && a in vs && b in vs
    ensures NeighborsHaveEdges(Linked(vs, a, b), LinkedEdges(es, a, b, props))
  {
    var vs': VertexMap<T>, es': EdgeMap<T> := Linked(vs, a, b), LinkedEdges(es, a, b, props);
    forall x, n | x in vs' && n in vs'[x].neighbors
      ensures x in es' && n in es'[x]
    {
      if x != a && x != b {
        assert vs'[x] == vs[x];
      }
    }
  }

  /** Joining two stored, not yet joined vertices gives both new slots their neighbor entries and equal weights. */
  lemma LinkKeepsEdgeNeighbors<T>(vs: VertexMap<T>, es: EdgeMap<T>, a: T, b: T, props: EdgeProperties)
    requires WellKeyed(vs, es) && EdgesHaveNeighbors(vs, es)
    requires a in vs && b in vs && !(a in es && b in es[a])
    ensures WellKeyed(Linked(vs, a, b), LinkedEdges(es, a, b, props))
    ensures EdgesHaveNeighbors(Linked(vs, a, b), LinkedEdges(es, a, b, props))
  {
    var vs': VertexMap<T>, es': EdgeMap<T> := Linked(vs, a, b), LinkedEdges(es, a, b, props);
    LinkKeepsWellKeyed(vs, es, a, b, props);
    forall x, y | x in es' && y in es'[x]
      ensures y in vs'[x].neighbors && y in es' && x in es'[y] && es'[y][x].Weight() == es'[x][y].Weight()
    {
      if (x == a && y == b) || (x == b && y == a) {
      } else {
        assert x in es && y in es[x];
        assert es[x][y].source == x;
        assert y in vs[x].neighbors;
      }
    }
  }

  /** Joining two stored vertices adds as much to each in-degree as to its out-degree. */
  lemma LinkKeepsBalanced<T>(vs: VertexMap<T>, a: T, b: T)
    requires DegreesBalanced(vs) && a in vs && b in vs
    ensures DegreesBalanced(Linked(vs, a, b))
  {
  }

  /** Joining two stored vertices that are not yet joined keeps the graph undirected. */
  lemma LinkKeepsUndirected<T>(vs: VertexMap<T>, es: EdgeMap<T>, a: T, b: T, props: EdgeProperties)
    requires UndirectedMaps(vs, es)
    requires a in vs && b in vs && !(a in es && b in es[a])
    ensures UndirectedMaps(Linked(vs, a, b), LinkedEdges(es, a, b, props))
  {
    LinkKeepsNeighborEdges(vs, es, a, b, props);
    LinkKeepsEdgeNeighbors(vs, es, a, b, props);
    LinkKeepsBalanced(vs, a, b);
  }

  /** The graph: a vertex map keyed by label and an edge index keyed by source, then destination. */
  class Graph<T(==)> {
    var vertices: VertexMap<T>
    var edges: EdgeMap<T>

    /** Holds for every graph. */
    ghost predicate Valid()
      reads this
    {
      WellKeyed(vertices, edges)
    }

    /**
     * Holds for every graph built through this API from vertices that carry no adjacency of
     * their own.
     */
    ghost predicate Undirected()
      reads this
    {
      UndirectedMaps(vertices, edges)
    }

    /** A vertex whose insertion keeps the graph undirected: already present, or bare. */
    ghost predicate Insertable(v: Vertex<T>)
      reads this
    {
      v.name in vertices || (v.inDegree == 0 && v.neighbors == [])
    }

    /** A new graph is empty. */
    constructor ()
      ensures vertices == map[] && edges == map[]
      ensures Undirected()
    {
      vertices := map[];
      edges := map[];
    }

    /**
     * Inserts the vertex under its label unless the label is taken, in which case nothing
     * changes and None is returned.
     */
    method InsertVertex(v: Vertex<T>) returns (r: Option<Vertex<T>>)
      requires Valid()
      modifies this
      ensures Valid() && edges == old(edges)
      ensures v.name in old(vertices) ==> r == None && vertices == old(vertices)
      ensures v.name !in old(vertices) ==> r == Some(v) && vertices == old(vertices)[v.name := v]
      ensures old(Undirected()) && old(Insertable(v)) ==> Undirected()
    {
      if v.name in vertices {
        return None;
      }
      if Undirected() && Insertable(v) {
        AdmitKeepsUndirected(vertices, edges, v);
      }
      vertices := vertices[v.name := v];
      return Some(v);
    }

    /**
     * Creates a bare vertex with the options' weight and inserts it; None when the label is
     * already taken, and then nothing changes.
     */
    method AddVertexByLabel(l: T, opts: seq<VertexOption>) returns (r: Option<Vertex<T>>)
      requires Valid()
      modifies this
      ensures Valid() && edges == old(edges)
      ensures l in old(vertices) ==> r == None && vertices == old(vertices)
      ensures l !in old(vertices) ==>
        && r.Some? && r.value.Label() == l && r.value.InDegree() == 0 && r.value.neighbors == []
        && r.value.properties == ApplyVertexOptions(ZeroVertexProperties, opts)
        && vertices == old(vertices)[l := r.value]
      ensures old(Undirected()) ==> Undirected()
    {
      var properties := ZeroVertexProperties;
      var i := 0;
      while i < |opts|
        invariant 0 <= i <= |opts|
        invariant properties == ApplyVertexOptions(ZeroVertexProperties, opts[..i])
      {
        assert opts[..i + 1][..i] == opts[..i];
        properties := ApplyVertexOption(opts[i], properties);
        i := i + 1;
      }
      assert opts[..|opts|] == opts;
      r := InsertVertex(Vertex(l, 0, [], properties));
    }

    /** Inserts the caller's vertex unless it is nil or its label is taken. */
    method AddVertex(v: Option<Vertex<T>>)
      requires Valid()
      modifies this
      ensures Valid() && edges == old(edges)
      ensures v.None? ==> vertices == old(vertices)
      ensures v.Some? ==> vertices == Admit(old(vertices), v.value)
      ensures old(Undirected()) && (v.Some? ==> old(Insertable(v.value))) ==> Undirected()
    {
      if v.None? {
        return;
      }
      var _ := InsertVertex(v.value);
    }

    /** The vertex stored under the label, if any. */
    function GetVertexByLabel(l: T): (r: Option<Vertex<T>>)
      reads this
      ensures r.Some? <==> l in vertices
      ensures r.Some? ==> r.value == vertices[l]
      ensures Valid() && r.Some? ==> r.value.Label() == l
    {
      if l in vertices then Some(vertices[l]) else None
    }

    /**
     * All stored vertices, one per label, in an order the caller must not rely on (Go's map
     * iteration order is unspecified; here the order is an arbitrary choice).
     */
    method GetAllVertices() returns (vs: seq<Vertex<T>>)
      requires Valid()
      ensures |vs| == |vertices|
      ensures forall i :: 0 <= i < |vs| ==> vs[i].name in vertices && vertices[vs[i].name] == vs[i]
      ensures forall l | l in vertices :: exists i | 0 <= i < |vs| :: vs[i].name == l
      ensures forall i, j :: 0 <= i < j < |vs| ==> vs[i].name != vs[j].name
    {
      vs := [];
      var rest := vertices.Keys;
      while rest != {}
        invariant rest <= vertices.Keys
        invariant |vs| + |rest| == |vertices.Keys|
        invariant forall i :: 0 <= i < |vs| ==> vs[i].name in vertices && vs[i].name !in rest && vertices[vs[i].name] == vs[i]
        invariant forall l | l in vertices && l !in rest :: exists i | 0 <= i < |vs| :: vs[i].name == l
        invariant forall i, j :: 0 <= i < j < |vs| ==> vs[i].name != vs[j].name
        decreases |rest|
      {
        var l :| l in rest;
        ghost var before := vs;
        vs := vs + [vertices[l]];
        assert vs[|vs| - 1].name == l;
        forall m | m in vertices && m !in rest
          ensures exists i | 0 <= i < |vs| :: vs[i].name == m
        {
          var i :| 0 <= i < |before| && before[i].name == m;
          assert vs[i] == before[i];
        }
        rest := rest - {l};
      }
    }

    /** True exactly for a non-nil vertex whose label is stored. */
    function ContainsVertex(v: Option<Vertex<T>>): (r: bool)
      reads this
      ensures r <==> v.Some? && GetVertexByLabel(v.value.name).Some?
    {
      v.Some? && v.value.name in vertices
    }

    /**
     * Creates the edge `from -> to` with the options and stores it in the slot
     * `edges[from][to]`, creating the inner map when needed. Neighbor lists are not touched.
     */
    method AddToEdgeMap(from: T, to: T, opts: seq<EdgeOption>) returns (e: Edge<T>)
      modifies this
      ensures e == Edge(from, to, ApplyEdgeOptions(ZeroEdgeProperties, opts))
      ensures edges == PutEdge(old(edges), e) && vertices == old(vertices)
    {
      e := NewEdge(from, to, opts);
      if from !in edges {
        edges := edges[from := map[to := e]];
      } else {
        edges := edges[from := edges[from][to := e]];
      }
    }

    /** True exactly when both vertices are non-nil and stored and the slot `from -> to` is set. */
    function ContainsEdge(from: Option<Vertex<T>>, to: Option<Vertex<T>>): (r: bool)
      reads this
      ensures Valid() ==>
        (r <==> from.Some? && to.Some? && from.value.name in edges && to.value.name in edges[from.value.name])
    {
      if from.None? || to.None? then false
      else if from.value.name !in vertices || to.value.name !in vertices then false
      else from.value.name in edges && to.value.name in edges[from.value.name]
    }

    /** The edge in the slot `from -> to`; nil for a nil or absent endpoint or an empty slot. */
    function GetEdge(from: Option<Vertex<T>>, to: Option<Vertex<T>>): (r: Option<Edge<T>>)
      reads this
      ensures r.Some? <==> ContainsEdge(from, to)
      ensures r.Some? ==> r.value == edges[from.value.name][to.value.name]
      ensures Valid() && r.Some? ==> r.value.Source() == from.value.name && r.value.Destination() == to.value.name
    {
      if from.None? || to.None? then None
      else if from.value.name !in vertices || to.value.name !in vertices then None
      else if from.value.name in edges && to.value.name in edges[from.value.name] then
        Some(edges[from.value.name][to.value.name])
      else None
    }

    /**
     * The edges joining two stored vertices: `from -> to` if set, then `to -> from` if set.
     * nil (None) for a nil or absent endpoint, unlike the empty list for two unjoined vertices.
     * In an undirected graph the list has zero or two edges.
     */
    method GetAllEdges(from: Option<Vertex<T>>, to: Option<Vertex<T>>) returns (r: Option<seq<Edge<T>>>)
      ensures r.None? <==> !ContainsVertex(from) || !ContainsVertex(to)
      ensures r.Some? ==> r.value == (if ContainsEdge(from, to) then [GetEdge(from, to).value] else [])
                                  + (if ContainsEdge(to, from) then [GetEdge(to, from).value] else [])
      ensures Undirected() && r.Some? ==> |r.value| == 0 || |r.value| == 2
    {
      if from.None? || to.None? {
        return None;
      }
      if from.value.name !in vertices || to.value.name !in vertices {
        return None;
      }
      var found: seq<Edge<T>> := [];
      var a, b := from.value.name, to.value.name;
      if a in edges && b in edges[a] {
        found := found + [edges[a][b]];
      }
      if b in edges && a in edges[b] {
        found := found + [edges[b][a]];
      }
      return Some(found);
    }

    /** Joins two stored vertices in both directions (the success path of AddEdge). */
    method Link(a: T, b: T, opts: seq<EdgeOption>) returns (e: Edge<T>)
      requires Valid() && a in vertices && b in vertices
      modifies this
      ensures Valid()
      ensures vertices == Linked(old(vertices), a, b)
      ensures edges == LinkedEdges(old(edges), a, b, ApplyEdgeOptions(ZeroEdgeProperties, opts))
      ensures e == Edge(a, b, ApplyEdgeOptions(ZeroEdgeProperties, opts))
    {
      ghost var vs0, es0 := vertices, edges;
      vertices := vertices[a := vertices[a].(neighbors := vertices[a].neighbors + [b])];
      vertices := vertices[b := vertices[b].(inDegree := vertices[b].inDegree + 1)];
      vertices := vertices[b := vertices[b].(neighbors := vertices[b].neighbors + [a])];
      vertices := vertices[a := vertices[a].(inDegree := vertices[a].inDegree + 1)];
      if a == b {
        assert vs0[a].neighbors + [b] + [a] == vs0[a].neighbors + [a, a];
      }
      assert vertices == Linked(vs0, a, b);
      LinkKeepsWellKeyed(vs0, es0, a, b, ApplyEdgeOptions(ZeroEdgeProperties, opts));
      var _ := AddToEdgeMap(b, a, opts);
      e := AddToEdgeMap(a, b, opts);
    }

    /**
     * Joins two vertices in both directions. Fails with ErrNilVertices for a nil endpoint and
     * with ErrEdgeAlreadyExists when the slot `from -> to` is set; a failure changes nothing.
     * An absent endpoint is inserted first. On success both neighbor lists, both in-degrees and
     * both edge slots are updated, and the `from -> to` edge is returned.
     */
    method AddEdge(from: Option<Vertex<T>>, to: Option<Vertex<T>>, opts: seq<EdgeOption>)
      returns (r: Result<Edge<T>, Error>)
      requires Valid()
      modifies this
      ensures Valid()
      ensures from.None? || to.None? ==> r == Err(ErrNilVertices)
      ensures from.Some? && to.Some? ==> (r == Err(ErrEdgeAlreadyExists) <==> old(ContainsEdge(from, to)))
      ensures r.Err? ==> vertices == old(vertices) && edges == old(edges)
      ensures r.Ok? ==> from.Some? && to.Some?
      ensures r.Ok? ==>
        var a, b := from.value.name, to.value.name;
        var props := ApplyEdgeOptions(ZeroEdgeProperties, opts);
        var admitted := Admit(Admit(old(vertices), from.value), to.value);
        && a in admitted && b in admitted
        && vertices == Linked(admitted, a, b)
        && edges == LinkedEdges(old(edges), a, b, props)
        && r.value == Edge(a, b, props)
        && ContainsEdge(from, to) && ContainsEdge(to, from)
      ensures old(Undirected()) && from.Some? && to.Some? && old(Insertable(from.value)) && old(Insertable(to.value))
              ==> Undirected()
    {
      if from.None? || to.None? {
        return Err(ErrNilVertices);
      }
      ghost var keep := Undirected() && Insertable(from.value) && Insertable(to.value);
      if GetVertexByLabel(from.value.name).None? {
        AddVertex(from);
      }
      if GetVertexByLabel(to.value.name).None? {
        if keep {
          assert Insertable(to.value);
        }
        AddVertex(to);
      }
      if ContainsEdge(from, to) {
        return Err(ErrEdgeAlreadyExists);
      }
      var a, b := from.value.name, to.value.name;
      ghost var props := ApplyEdgeOptions(ZeroEdgeProperties, opts);
      if keep {
        LinkKeepsUndirected(vertices, edges, a, b, props);
      }
      var e := Link(a, b, opts);
      r := Ok(e);
    }
  }
}
