/**
 * The adjacency structure of a directed graph as a value: list `i` holds the
 * outgoing edges of vertex `i` in insertion order. This module gives the
 * structure's invariant, the pure effect of inserting edges and vertices, the
 * flattened edge list, and reachability along directed edges.
 */
module Adjacency {
  import opened Edges

  /** List `i` holds only edges leaving `i` towards a vertex in range, none twice. */
  ghost predicate ListWellFormed(nb: seq<seq<Edge>>, i: int)
    requires 0 <= i < |nb|
  {
    && (forall k :: 0 <= k < |nb[i]| ==> nb[i][k].u == i && 0 <= nb[i][k].v < |nb|)
    && (forall k1, k2 :: 0 <= k1 < k2 < |nb[i]| ==> nb[i][k1] != nb[i][k2])
  }

  /** Every adjacency list is well formed. */
  ghost predicate WellFormed(nb: seq<seq<Edge>>) {
    forall i :: 0 <= i < |nb| ==> ListWellFormed(nb, i)
  }

  /** No element occurs twice. */
  ghost predicate NoDuplicates<T>(s: seq<T>) {
    forall i, j :: 0 <= i < j < |s| ==> s[i] != s[j]
  }

  // ---------------------------------------------------------------------------
  // Inserting edges
  // ---------------------------------------------------------------------------

  /**
   * The effect of inserting the directed edge `u -> v`: a range error naming
   * `u` (checked first) or `v` when either lies outside `[0, |nb|)`, `false`
   * with nothing changed when the edge is already in `u`'s list, and otherwise
   * `true` with the edge appended to `u`'s list.
   */
  function AddEdgeTo(nb: seq<seq<Edge>>, u: int, v: int): (r: (Result<bool>, seq<seq<Edge>>))
    ensures |r.1| == |nb|
    ensures r.0.Err? <==> !InRange(Edge(u, v), |nb|)
    ensures r.0.Err? ==> r.0.error == NoSuchIndex(if 0 <= u < |nb| then v else u)
    ensures r.0 == Ok(true) <==> InRange(Edge(u, v), |nb|) && Edge(u, v) !in nb[u]
    ensures r.0 == Ok(true) ==> r.1[u] == nb[u] + [Edge(u, v)]
    ensures r.0 == Ok(true) ==> forall i :: 0 <= i < |nb| && i != u ==> r.1[i] == nb[i]
    ensures r.0 != Ok(true) ==> r.1 == nb
    ensures r.0.Ok? ==> Edge(u, v) in r.1[u]
  {
    if u < 0 || u > |nb| - 1 then (Err(NoSuchIndex(u)), nb)
    else if v < 0 || v > |nb| - 1 then (Err(NoSuchIndex(v)), nb)
    else if !ContainsEdge(nb[u], Edge(u, v)) then (Ok(true), nb[u := nb[u] + [Edge(u, v)]])
    else (Ok(false), nb)
  }

  /** Inserting an edge keeps the adjacency structure well formed. */
  lemma AddEdgePreservesWellFormed(nb: seq<seq<Edge>>, u: int, v: int)
    requires WellFormed(nb)
    ensures WellFormed(AddEdgeTo(nb, u, v).1)
  {
    var r := AddEdgeTo(nb, u, v);
    if r.0 == Ok(true) {
      forall i | 0 <= i < |r.1| ensures ListWellFormed(r.1, i) {
        assert ListWellFormed(nb, i);
        if i == u {
          assert r.1[i] == nb[u] + [Edge(u, v)];
          assert Edge(u, v) !in nb[u];
        }
      }
    }
  }

  /** Inserting the same edge a second time is rejected and changes nothing. */
  lemma AddEdgeTwiceRejected(nb: seq<seq<Edge>>, u: int, v: int)
    requires AddEdgeTo(nb, u, v).0.Ok?
    ensures AddEdgeTo(AddEdgeTo(nb, u, v).1, u, v) == (Ok(false), AddEdgeTo(nb, u, v).1)
  {
    var m := AddEdgeTo(nb, u, v).1;
    assert Edge(u, v) in m[u];
  }

  /**
   * The effect of inserting the edges of `es` one after the other, as building
   * a graph from an edge list does: the first edge with an endpoint out of
   * range stops the insertion with that range error, keeping the edges
   * inserted before it; duplicate edges are dropped.
   */
  function InsertEdges(nb: seq<seq<Edge>>, es: seq<Edge>): (r: (Outcome, seq<seq<Edge>>))
    ensures |r.1| == |nb|
  {
    if es == [] then (Pass, nb)
    else
      var before := InsertEdges(nb, es[..|es| - 1]);
      if before.0.Fail? then before
      else
        var e := es[|es| - 1];
        var step := AddEdgeTo(before.1, e.u, e.v);
        (if step.0.Err? then Fail(step.0.error) else Pass, step.1)
  }

  /** Once an insertion fails, the edges after the failing one are never looked at. */
  lemma {:induction false} InsertEdgesStops(nb: seq<seq<Edge>>, es: seq<Edge>, i: nat)
    requires i <= |es| && InsertEdges(nb, es[..i]).0.Fail?
    ensures InsertEdges(nb, es) == InsertEdges(nb, es[..i])
    decreases |es|
  {
    if i < |es| {
      var init := es[..|es| - 1];
      assert init[..i] == es[..i];
      InsertEdgesStops(nb, init, i);
    } else {
      assert es[..i] == es;
    }
  }

  /** Inserting one more edge after a prefix that passed is one `AddEdgeTo` step. */
  lemma InsertEdgesStep(nb: seq<seq<Edge>>, es: seq<Edge>, i: nat)
    requires i < |es| && InsertEdges(nb, es[..i]).0.Pass?
    ensures var step := AddEdgeTo(InsertEdges(nb, es[..i]).1, es[i].u, es[i].v);
            InsertEdges(nb, es[..i + 1]) == (if step.0.Err? then Fail(step.0.error) else Pass, step.1)
  {
    assert es[..i + 1][..i] == es[..i];
  }

  /** The edges `rows[k][0] -> rows[k][1]` of a table of index pairs; further columns are ignored. */
  function RowEdges(rows: seq<seq<int>>): (es: seq<Edge>)
    requires forall k :: 0 <= k < |rows| ==> |rows[k]| >= 2
    ensures |es| == |rows|
    ensures forall k :: 0 <= k < |rows| ==> es[k] == Edge(rows[k][0], rows[k][1])
  {
    if rows == [] then []
    else RowEdges(rows[..|rows| - 1]) + [Edge(rows[|rows| - 1][0], rows[|rows| - 1][1])]
  }

  /** `n` empty adjacency lists. */
  function EmptyLists(n: nat): (nb: seq<seq<Edge>>)
    ensures |nb| == n && WellFormed(nb)
  {
    seq(n, _ => [])
  }

  /** An edge whose endpoints both lie in `[0, n)`. */
  predicate InRange(e: Edge, n: int) {
    0 <= e.u < n && 0 <= e.v < n
  }

  /** Inserting edges keeps the adjacency structure well formed. */
  lemma {:induction false} InsertEdgesWellFormed(nb: seq<seq<Edge>>, es: seq<Edge>)
    requires WellFormed(nb)
    ensures WellFormed(InsertEdges(nb, es).1)
  {
    if es != [] {
      var init := es[..|es| - 1];
      InsertEdgesWellFormed(nb, init);
      var before := InsertEdges(nb, init);
      if before.0.Pass? {
        AddEdgePreservesWellFormed(before.1, es[|es| - 1].u, es[|es| - 1].v);
      }
    }
  }

  /** Inserting edges succeeds exactly when every one of them is in range. */
  lemma {:induction false} InsertEdgesPass(nb: seq<seq<Edge>>, es: seq<Edge>)
    ensures InsertEdges(nb, es).0.Pass? <==> forall k :: 0 <= k < |es| ==> InRange(es[k], |nb|)
  {
    if es != [] {
      var init := es[..|es| - 1];
      InsertEdgesPass(nb, init);
      assert forall k :: 0 <= k < |init| ==> es[k] == init[k];
      if InsertEdges(nb, init).0.Fail? {
        var k :| 0 <= k < |init| && !InRange(init[k], |nb|);
        assert !InRange(es[k], |nb|);
      }
    }
  }

  /**
   * A failed insertion reports the first offending endpoint (`u` before `v`)
   * of the first edge out of range.
   */
  lemma {:induction false} InsertEdgesError(nb: seq<seq<Edge>>, es: seq<Edge>)
    ensures InsertEdges(nb, es).0.Fail? ==>
              exists k :: 0 <= k < |es| && !InRange(es[k], |nb|)
                       && (forall j :: 0 <= j < k ==> InRange(es[j], |nb|))
                       && InsertEdges(nb, es).0.error == NoSuchIndex(if 0 <= es[k].u < |nb| then es[k].v else es[k].u)
  {
    if es != [] {
      var init := es[..|es| - 1];
      InsertEdgesError(nb, init);
      assert forall k :: 0 <= k < |init| ==> es[k] == init[k];
      if InsertEdges(nb, init).0.Pass? {
        InsertEdgesPass(nb, init);
        var k := |es| - 1;
        assert forall j :: 0 <= j < k ==> InRange(es[j], |nb|) by {
          assert forall j :: 0 <= j < k ==> InRange(init[j], |nb|);
        }
      }
    }
  }

  /** After a successful insertion list `i` holds its old edges and the new edges leaving `i`. */
  lemma {:induction false} InsertEdgesContents(nb: seq<seq<Edge>>, es: seq<Edge>)
    ensures InsertEdges(nb, es).0.Pass? ==>
              forall i, e :: 0 <= i < |nb| ==>
                (e in InsertEdges(nb, es).1[i] <==> e in nb[i] || (e in es && e.u == i))
  {
    if es != [] && InsertEdges(nb, es).0.Pass? {
      var init := es[..|es| - 1];
      var e := es[|es| - 1];
      InsertEdgesContents(nb, init);
      var before := InsertEdges(nb, init);
      var step := AddEdgeTo(before.1, e.u, e.v);
      assert es == init + [e];
      forall i, x | 0 <= i < |nb|
        ensures x in step.1[i] <==> x in nb[i] || (x in es && x.u == i)
      {
        if i != e.u {
          assert step.1[i] == before.1[i];
        }
      }
    }
  }

  /**
   * Inserting a list of edges fails exactly when one of them has an endpoint
   * out of range; the error then names the first offending endpoint of the
   * first such edge. On success every list holds its old edges and the new
   * edges leaving that vertex, and nothing else.
   */
  lemma InsertEdgesSpec(nb: seq<seq<Edge>>, es: seq<Edge>)
    requires WellFormed(nb)
    ensures WellFormed(InsertEdges(nb, es).1)
    ensures InsertEdges(nb, es).0.Pass? <==> forall k :: 0 <= k < |es| ==> InRange(es[k], |nb|)
    ensures InsertEdges(nb, es).0.Fail? ==>
              exists k :: 0 <= k < |es| && !InRange(es[k], |nb|)
                       && (forall j :: 0 <= j < k ==> InRange(es[j], |nb|))
                       && InsertEdges(nb, es).0.error == NoSuchIndex(if 0 <= es[k].u < |nb| then es[k].v else es[k].u)
    ensures InsertEdges(nb, es).0.Pass? ==>
              forall i, e :: 0 <= i < |nb| ==>
                (e in InsertEdges(nb, es).1[i] <==> e in nb[i] || (e in es && e.u == i))
  {
    InsertEdgesWellFormed(nb, es);
    InsertEdgesPass(nb, es);
    InsertEdgesError(nb, es);
    InsertEdgesContents(nb, es);
  }

  // ---------------------------------------------------------------------------
  // Out-neighbours
  // ---------------------------------------------------------------------------

  /** The targets of the edges of a list, in list order. */
  function Targets(list: seq<Edge>): (r: seq<int>)
    ensures |r| == |list| && forall k :: 0 <= k < |list| ==> r[k] == list[k].v
  {
    if list == [] then [] else Targets(list[..|list| - 1]) + [list[|list| - 1].v]
  }

  /**
   * In a well-formed structure the targets of list `i` are exactly the
   * out-neighbours of `i`, all in range and none listed twice.
   */
  lemma TargetsSpec(nb: seq<seq<Edge>>, i: int)
    requires WellFormed(nb) && 0 <= i < |nb|
    ensures forall w :: w in Targets(nb[i]) <==> Edge(i, w) in nb[i]
    ensures forall k :: 0 <= k < |nb[i]| ==> 0 <= Targets(nb[i])[k] < |nb|
    ensures NoDuplicates(Targets(nb[i]))
  {
    assert ListWellFormed(nb, i);
    var t := Targets(nb[i]);
    forall w ensures w in t <==> Edge(i, w) in nb[i] {
      if w in t {
        var k :| 0 <= k < |t| && t[k] == w;
        assert nb[i][k] == Edge(i, w);
      }
      if Edge(i, w) in nb[i] {
        var k :| 0 <= k < |nb[i]| && nb[i][k] == Edge(i, w);
        assert t[k] == w;
      }
    }
    forall a, b | 0 <= a < b < |t| ensures t[a] != t[b] {
      assert nb[i][a] == Edge(i, t[a]) && nb[i][b] == Edge(i, t[b]);
    }
  }

  // ---------------------------------------------------------------------------
  // Inserting vertices
  // ---------------------------------------------------------------------------

  /**
   * The vertex list after adding each of `xs` in turn to `vs`, where a value
   * already present is skipped.
   */
  function AddVertices<V(==)>(vs: seq<V>, xs: seq<V>): (r: seq<V>)
    ensures |vs| <= |r| <= |vs| + |xs| && r[..|vs|] == vs
  {
    if xs == [] then vs
    else
      var before := AddVertices(vs, xs[..|xs| - 1]);
      if xs[|xs| - 1] in before then before else before + [xs[|xs| - 1]]
  }

  /**
   * Adding vertices keeps the list free of duplicates, keeps its old values as
   * a prefix, and ends up holding exactly the old values and the added ones.
   */
  lemma {:induction false} AddVerticesSpec<V>(vs: seq<V>, xs: seq<V>)
    requires NoDuplicates(vs)
    ensures NoDuplicates(AddVertices(vs, xs))
    ensures |AddVertices(vs, xs)| >= |vs| && AddVertices(vs, xs)[..|vs|] == vs
    ensures forall x :: x in AddVertices(vs, xs) <==> x in vs || x in xs
  {
    if xs != [] {
      var init := xs[..|xs| - 1];
      AddVerticesSpec(vs, init);
      assert xs == init + [xs[|xs| - 1]];
      var before := AddVertices(vs, init);
      assert (before + [xs[|xs| - 1]])[..|vs|] == before[..|vs|];
    }
  }

  // ---------------------------------------------------------------------------
  // All edges, grouped by source
  // ---------------------------------------------------------------------------

  /** The concatenation of all adjacency lists, in vertex-index order. */
  function Flatten(nb: seq<seq<Edge>>): (r: seq<Edge>)
    ensures forall e :: e in r <==> exists i :: 0 <= i < |nb| && e in nb[i]
  {
    if nb == [] then []
    else
      var init := nb[..|nb| - 1];
      var r := Flatten(init) + nb[|nb| - 1];
      assert forall i :: 0 <= i < |init| ==> init[i] == nb[i];
      r
  }

  /** Every list `i` holds edges leaving `i`, none twice (targets unconstrained). */
  ghost predicate SourcesMatch(nb: seq<seq<Edge>>) {
    forall i :: 0 <= i < |nb| ==>
      && (forall k :: 0 <= k < |nb[i]| ==> nb[i][k].u == i)
      && NoDuplicates(nb[i])
  }

  /**
   * In a well-formed structure the flattened list holds exactly the stored
   * edges, is grouped by source vertex in index order, and has no duplicates.
   */
  lemma FlattenSpec(nb: seq<seq<Edge>>)
    requires WellFormed(nb)
    ensures forall e :: e in Flatten(nb) <==> 0 <= e.u < |nb| && e in nb[e.u]
    ensures forall i, j :: 0 <= i < j < |Flatten(nb)| ==> Flatten(nb)[i].u <= Flatten(nb)[j].u
    ensures NoDuplicates(Flatten(nb))
  {
    assert SourcesMatch(nb) by {
      forall i | 0 <= i < |nb|
        ensures NoDuplicates(nb[i]) && forall k :: 0 <= k < |nb[i]| ==> nb[i][k].u == i
      {
        assert ListWellFormed(nb, i);
      }
    }
    FlattenSources(nb);
    FlattenOrdered(nb);
  }

  /** With every list holding edges that leave its own index, an edge is in the concatenation iff it is in the list of its source. */
  lemma FlattenSources(nb: seq<seq<Edge>>)
    requires SourcesMatch(nb)
    ensures forall e :: e in Flatten(nb) <==> 0 <= e.u < |nb| && e in nb[e.u]
  {
    forall e ensures e in Flatten(nb) <==> 0 <= e.u < |nb| && e in nb[e.u] {
      if e in Flatten(nb) {
        var i :| 0 <= i < |nb| && e in nb[i];
        var k :| 0 <= k < |nb[i]| && nb[i][k] == e;
      }
    }
  }

  /** The concatenation is sorted by source and has no repeats. */
  lemma {:induction false} FlattenOrdered(nb: seq<seq<Edge>>)
    requires SourcesMatch(nb)
    ensures forall i, j :: 0 <= i < j < |Flatten(nb)| ==> Flatten(nb)[i].u <= Flatten(nb)[j].u
    ensures NoDuplicates(Flatten(nb))
  {
    if nb != [] {
      var init := nb[..|nb| - 1];
      var last := nb[|nb| - 1];
      var m := |nb| - 1;
      assert SourcesMatch(init) by {
        forall i | 0 <= i < |init| ensures NoDuplicates(init[i]) && forall k :: 0 <= k < |init[i]| ==> init[i][k].u == i {
          assert init[i] == nb[i];
        }
      }
      FlattenOrdered(init);
      FlattenSources(init);
      var f := Flatten(init);
      assert Flatten(nb) == f + last;
      assert forall e :: e in f ==> e.u < m;
      assert forall k :: 0 <= k < |last| ==> last[k].u == m;
      forall i, j | 0 <= i < j < |f + last|
        ensures (f + last)[i] != (f + last)[j] && (f + last)[i].u <= (f + last)[j].u
      {
        if j >= |f| && i < |f| {
          assert (f + last)[i] in f;
          assert (f + last)[j] == last[j - |f|];
        } else if i >= |f| {
          assert (f + last)[i] == last[i - |f|] && (f + last)[j] == last[j - |f|];
        }
      }
    }
  }

  // ---------------------------------------------------------------------------
  // Reachability along directed edges
  // ---------------------------------------------------------------------------

  /** `p` is a non-empty walk of vertices in range following stored edges. */
  ghost predicate IsPath(nb: seq<seq<Edge>>, p: seq<int>) {
    && |p| >= 1
    && (forall k :: 0 <= k < |p| ==> 0 <= p[k] < |nb|)
    && (forall k :: 0 <= k < |p| - 1 ==> Edge(p[k], p[k + 1]) in nb[p[k]])
  }

  /** Some walk leads from `s` to `w`. */
  ghost predicate Reachable(nb: seq<seq<Edge>>, s: int, w: int) {
    exists p :: IsPath(nb, p) && p[0] == s && p[|p| - 1] == w
  }

  /** The vertices reachable from `s`, `s` itself included. */
  ghost function ReachableSet(nb: seq<seq<Edge>>, s: int): set<int> {
    set w | 0 <= w < |nb| && Reachable(nb, s, w)
  }

  /** `xs` holds vertices in range and every edge leaving one of them ends in `xs`. */
  ghost predicate Closed(nb: seq<seq<Edge>>, xs: seq<int>) {
    forall k :: 0 <= k < |xs| ==>
      0 <= xs[k] < |nb| && forall e :: e in nb[xs[k]] ==> e.v in xs
  }

  /** A walk that starts inside a closed set of vertices never leaves it. */
  lemma {:induction false} ClosedContainsWalk(nb: seq<seq<Edge>>, xs: seq<int>, p: seq<int>)
    requires Closed(nb, xs) && IsPath(nb, p) && p[0] in xs
    ensures p[|p| - 1] in xs
  {
    if |p| > 1 {
      var q := p[..|p| - 1];
      assert IsPath(nb, q);
      ClosedContainsWalk(nb, xs, q);
      var a := p[|p| - 2];
      var k :| 0 <= k < |xs| && xs[k] == a;
      assert Edge(a, p[|p| - 1]) in nb[xs[k]];
    }
  }
}
