/** An edge of the graph (edge.go): its two endpoints, named by label, and its properties. */
module Edges {
  import opened Options

  datatype Edge<T> = Edge(source: T, dest: T, properties: EdgeProperties) {

    /** The source label: the edge is unchanged when it is written back. */
    function Source(): (r: T)
      ensures this.(source := r) == this
    {
      source
    }

    /** The destination label: the edge is unchanged when it is written back. */
    function Destination(): (r: T)
      ensures this.(dest := r) == this
    {
      dest
    }

    /** The weight of the edge's properties: writing it back with WithEdgeWeight changes nothing. */
    function Weight(): (r: real)
      ensures ApplyEdgeOption(WithEdgeWeight(r), properties) == properties
    {
      properties.Weight()
    }
  }

  /**
   * A new edge keeps exactly the endpoints it is given and takes the weight of the last
   * weight option (0 when there is none). It cannot fail.
   */
  method NewEdge<T>(source: T, dest: T, opts: seq<EdgeOption>) returns (e: Edge<T>)
    ensures e.Source() == source && e.Destination() == dest
    ensures e.Weight() == if |opts| == 0 then 0.0 else opts[|opts| - 1].weight
    ensures e.properties == ApplyEdgeOptions(ZeroEdgeProperties, opts)
  {
    var properties := ZeroEdgeProperties;
    var i := 0;
    while i < |opts|
      invariant 0 <= i <= |opts|
      invariant properties == ApplyEdgeOptions(ZeroEdgeProperties, opts[..i])
    {
      assert opts[..i + 1][..i] == opts[..i];
      properties := ApplyEdgeOption(opts[i], properties);
      i := i + 1;
    }
    assert opts[..|opts|] == opts;
    e := Edge(source, dest, properties);
  }
}
