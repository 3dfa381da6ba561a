/**
 * Directed edges of an unweighted graph, and the error and result values the
 * graph operations return.
 */
module Edges {

  /** A directed edge `u -> v` between two vertex indices. */
  datatype Edge = Edge(u: int, v: int) {

    /** Structural equality on edges: both endpoints match. */
    predicate Equals(o: Edge) {
      u == o.u && v == o.v
    }
  }

  /** The one hard error the graph reports: an index outside `[0, size)`. */
  datatype GraphError = NoSuchIndex(index: int)

  /** The outcome of an operation that yields a value or fails with a range error. */
  datatype Result<T> = Ok(value: T) | Err(error: GraphError)

  /** The outcome of an operation that yields no value or fails with a range error. */
  datatype Outcome = Pass | Fail(error: GraphError)

  /** `Equals` agrees with Dafny's own equality on edges. */
  lemma EqualsIsStructural(a: Edge, b: Edge)
    ensures a.Equals(b) <==> a == b
    ensures a.Equals(b) <==> (a.u == b.u && a.v == b.v)
  {
  }

  /**
   * Membership test of an edge list, by linear scan with `Equals`, as the
   * list's own containment test does.
   */
  function ContainsEdge(list: seq<Edge>, e: Edge): (r: bool)
    ensures r <==> exists k :: 0 <= k < |list| && list[k].Equals(e)
    ensures r <==> e in list
  {
    if list == [] then false
    else if list[0].Equals(e) then true
    else
      var rest := ContainsEdge(list[1..], e);
      assert forall k :: 0 < k < |list| ==> list[k] == list[1..][k - 1];
      rest
  }
}
