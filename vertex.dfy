/**
 * A vertex of the graph (vertex.go). The graph owns every vertex and keys it by label, so a
 * neighbor is named by its label: the neighbor list holds labels, not references.
 */
module Vertices {
  import opened Wrappers
  import opened Options

  /** `name` is the label of the vertex (`label` is a Dafny keyword). */
  datatype Vertex<T(==)> = Vertex(name: T, inDegree: int, neighbors: seq<T>, properties: VertexProperties) {

    /** The label: the vertex is unchanged when it is written back. */
    function Label(): (r: T)
      ensures this.(name := r) == this
    {
      name
    }

    /** The in-degree counter: the vertex is unchanged when it is written back. */
    function InDegree(): (r: int)
      ensures this.(inDegree := r) == this
    {
      inDegree
    }

    /** The number of outgoing edges is the length of the neighbor list. */
    function OutDegree(): (r: nat)
      ensures r == |neighbors|
    {
      |neighbors|
    }

    /** The total degree is the in-degree plus the out-degree. */
    function Degree(): (r: int)
      ensures r == InDegree() + OutDegree()
    {
      inDegree + OutDegree()
    }

    /** The weight of the vertex's properties: writing it back with WithVertexWeight changes nothing. */
    function Weight(): (r: real)
      ensures ApplyVertexOption(WithVertexWeight(r), properties) == properties
    {
      properties.Weight()
    }

    /**
     * Scans the neighbor list in order for the label; finds it exactly when it is in the list.
     */
    method NeighborByLabel(l: T) returns (r: Option<T>)
      ensures r.Some? <==> l in neighbors
      ensures r.Some? ==> r.value == l
    {
      var i := 0;
      while i < |neighbors|
        invariant 0 <= i <= |neighbors|
        invariant l !in neighbors[..i]
      {
        if neighbors[i] == l {
          return Some(neighbors[i]);
        }
        i := i + 1;
      }
      return None;
    }

    /** A vertex is a neighbor exactly when its label is in the neighbor list. */
    method HasNeighbor(u: Vertex<T>) returns (b: bool)
      ensures b <==> u.name in neighbors
    {
      var found := NeighborByLabel(u.name);
      b := found.Some?;
    }

    /**
     * A fresh copy of the neighbor list: same length, same order, same elements. Since the
     * copy is a value, nothing done to it can reach this vertex.
     */
    method Neighbors() returns (r: seq<T>)
      ensures |r| == |neighbors|
      ensures forall i :: 0 <= i < |r| ==> r[i] == neighbors[i]
    {
      r := [];
      var i := 0;
      while i < |neighbors|
        invariant 0 <= i <= |neighbors|
        invariant r == neighbors[..i]
      {
        r := r + [neighbors[i]];
        i := i + 1;
      }
    }
  }

  /**
   * A new vertex has the given label, in-degree 0, no neighbors, and the weight of the last
   * weight option (0 when there is none).
   */
  method NewVertex<T(==)>(name: T, opts: seq<VertexOption>) returns (v: Vertex<T>)
    ensures v.Label() == name && v.InDegree() == 0 && v.neighbors == []
    ensures v.Weight() == if |opts| == 0 then 0.0 else opts[|opts| - 1].weight
    ensures v.properties == ApplyVertexOptions(ZeroVertexProperties, opts)
  {
    var properties := ZeroVertexProperties;
    var i := 0;
    while i < |opts|
      invariant 0 <= i <= |opts|
      invariant properties == ApplyVertexOptions(ZeroVertexProperties, opts[..i])
    {
      assert opts[..i + 1][..i] == opts[..i];
      properties := ApplyVertexOption(opts[i], properties);
      i := i + 1;
    }
    assert opts[..|opts|] == opts;
    v := Vertex(name, 0, [], properties);
  }
}
