/**
 * The option records of the library (options/vertex_options.go, options/edge_options.go,
 * options/dijkstra_options.go). In Go an option is a closure that writes one field of a
 * properties record through a pointer while that record is being built; here an option is a
 * value and applying it returns the updated record.
 */
module Options {

  /** Properties of a vertex; the zero value has weight 0. */
  datatype VertexProperties = VertexProperties(weight: real) {
    /** The stored weight: writing it back with WithVertexWeight changes nothing. */
    function Weight(): (r: real)
      ensures ApplyVertexOption(WithVertexWeight(r), this) == this
    {
      weight
    }
  }

  /** The zero value of VertexProperties, as Go's `var properties VertexProperties` gives it. */
  const ZeroVertexProperties := VertexProperties(0.0)

  /** The option made by WithVertexWeight(weight). */
  datatype VertexOption = WithVertexWeight(weight: real)

  /** Runs one vertex option on a properties record. */
  function ApplyVertexOption(opt: VertexOption, p: VertexProperties): (r: VertexProperties)
    ensures r.weight == opt.weight
  {
    match opt
    case WithVertexWeight(w) => p.(weight := w)
  }

  /** Runs the options in order on a properties record, as the constructors' option loops do. */
  function ApplyVertexOptions(p: VertexProperties, opts: seq<VertexOption>): (r: VertexProperties)
    ensures r.Weight() == if |opts| == 0 then p.Weight() else opts[|opts| - 1].weight
  {
    if |opts| == 0 then p else ApplyVertexOption(opts[|opts| - 1], ApplyVertexOptions(p, opts[..|opts| - 1]))
  }

  /** Applying one weight option and then another leaves the second weight. */
  lemma VertexOptionLastWins(p: VertexProperties, w1: real, w2: real)
    ensures ApplyVertexOptions(p, [WithVertexWeight(w1), WithVertexWeight(w2)]).Weight() == w2
    ensures ApplyVertexOption(WithVertexWeight(w2), ApplyVertexOption(WithVertexWeight(w1), p)).Weight() == w2
  {
  }

  /** Applying the same weight option twice is the same as applying it once. */
  lemma VertexOptionIdempotent(opt: VertexOption, p: VertexProperties)
    ensures ApplyVertexOption(opt, ApplyVertexOption(opt, p)) == ApplyVertexOption(opt, p)
  {
  }

  /** Properties of an edge; the zero value has weight 0. */
  datatype EdgeProperties = EdgeProperties(weight: real) {
    /** The stored weight: writing it back with WithEdgeWeight changes nothing. */
    function Weight(): (r: real)
      ensures ApplyEdgeOption(WithEdgeWeight(r), this) == this
    {
      weight
    }
  }

  /** The zero value of EdgeProperties. */
  const ZeroEdgeProperties := EdgeProperties(0.0)

  /** The option made by WithEdgeWeight(weight). */
  datatype EdgeOption = WithEdgeWeight(weight: real)

  /** Runs one edge option on a properties record. */
  function ApplyEdgeOption(opt: EdgeOption, p: EdgeProperties): (r: EdgeProperties)
    ensures r.weight == opt.weight
  {
    match opt
    case WithEdgeWeight(w) => p.(weight := w)
  }

  /** Runs the edge options in order on a properties record. */
  function ApplyEdgeOptions(p: EdgeProperties, opts: seq<EdgeOption>): (r: EdgeProperties)
    ensures r.Weight() == if |opts| == 0 then p.Weight() else opts[|opts| - 1].weight
  {
    if |opts| == 0 then p else ApplyEdgeOption(opts[|opts| - 1], ApplyEdgeOptions(p, opts[..|opts| - 1]))
  }

  /** Applying one edge weight option and then another leaves the second weight. */
  lemma EdgeOptionLastWins(p: EdgeProperties, w1: real, w2: real)
    ensures ApplyEdgeOptions(p, [WithEdgeWeight(w1), WithEdgeWeight(w2)]).Weight() == w2
    ensures ApplyEdgeOption(WithEdgeWeight(w2), ApplyEdgeOption(WithEdgeWeight(w1), p)).Weight() == w2
  {
  }

  /** Applying the same edge option twice is the same as applying it once. */
  lemma EdgeOptionIdempotent(opt: EdgeOption, p: EdgeProperties)
    ensures ApplyEdgeOption(opt, ApplyEdgeOption(opt, p)) == ApplyEdgeOption(opt, p)
  {
  }

  /** Properties of a Dijkstra run; the zero value selects the simple variant. */
  datatype DijkstraProperties = DijkstraProperties(useStandard: bool) {

    /** The flag as stored: set exactly when WithDijkstraStandard would change nothing. */
    function GetUseStandard(): (r: bool)
      ensures r <==> ApplyDijkstraOption(WithDijkstraStandard, this) == this
    {
      useStandard
    }

    /** The record after UseStandard(), which sets the flag. */
    function UseStandard(): (r: DijkstraProperties)
      ensures r.GetUseStandard()
    {
      this.(useStandard := true)
    }
  }

  /** The zero value of DijkstraProperties: the simple variant. */
  const ZeroDijkstraProperties := DijkstraProperties(false)

  /** The option made by WithDijkstraStandard(). */
  datatype DijkstraOption = WithDijkstraStandard

  /** Runs one Dijkstra option on a properties record. */
  function ApplyDijkstraOption(opt: DijkstraOption, p: DijkstraProperties): (r: DijkstraProperties)
    ensures r.useStandard
  {
    match opt
    case WithDijkstraStandard => p.(useStandard := true)
  }

  /**
   * Runs the Dijkstra options in order. No option clears the flag, so the standard variant is
   * selected exactly when it already was or some option was given.
   */
  function ApplyDijkstraOptions(p: DijkstraProperties, opts: seq<DijkstraOption>): (r: DijkstraProperties)
    ensures r.GetUseStandard() <==> p.GetUseStandard() || |opts| > 0
  {
    if |opts| == 0 then p else ApplyDijkstraOption(opts[|opts| - 1], ApplyDijkstraOptions(p, opts[..|opts| - 1]))
  }

  /** WithDijkstraStandard is idempotent. */
  lemma DijkstraOptionIdempotent(p: DijkstraProperties)
    ensures ApplyDijkstraOption(WithDijkstraStandard, ApplyDijkstraOption(WithDijkstraStandard, p))
         == ApplyDijkstraOption(WithDijkstraStandard, p)
  {
  }
}
