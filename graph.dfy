/**
 * The directed unweighted graph: a list of distinct vertex values and, in
 * parallel, one list of outgoing edges per vertex. Vertices are addressed by
 * their index in the vertex list. The object is updated in place by adding
 * vertices and edges and by clearing it; the traversals build a parent array
 * and a discovery order and return them as a `Tree`.
 */
module Graphs {
  import opened Edges
  import opened Adjacency
  import opened SearchTrees
  import opened SearchStates
  import DepthFirst
  import BreadthFirst

  /** The first index holding `x`, or -1 when `x` does not occur. */
  function IndexOf<V(==)>(s: seq<V>, x: V): (r: int)
    ensures -1 <= r < |s|
    ensures r == -1 <==> x !in s
    ensures r >= 0 ==> s[r] == x && x !in s[..r]
  {
    if s == [] then -1
    else if s[0] == x then 0
    else
      var r := IndexOf(s[1..], x);
      if r == -1 then -1
      else
        assert s[..r + 1] == [s[0]] + s[1..][..r];
        r + 1
  }

  /** In a list without duplicates the index of `s[i]` is `i`. */
  lemma IndexOfDistinct<V>(s: seq<V>, i: int)
    requires NoDuplicates(s) && 0 <= i < |s|
    ensures IndexOf(s, s[i]) == i
  {
  }

  class UnweightedGraph<V(==)> {
    /** The vertex values; vertex `i` is `vertices[i]`. */
    var vertices: seq<V>
    /** `neighbors[i]` holds the edges leaving vertex `i`, in insertion order. */
    var neighbors: seq<seq<Edge>>

    /**
     * The lists stay parallel, no value is a vertex twice, and every stored
     * edge leaves its own vertex towards a vertex in range, none stored twice.
     */
    ghost predicate Valid()
      reads this
    {
      && |vertices| == |neighbors|
      && NoDuplicates(vertices)
      && WellFormed(neighbors)
    }

    /** The empty graph. */
    constructor()
      ensures Valid() && vertices == [] && neighbors == []
    {
      vertices := [];
      neighbors := [];
    }

    /**
     * A graph built from a vertex array and a table of index pairs: the
     * vertices are added in turn (repeated values skipped), then the edges.
     * An edge with an endpoint out of range aborts construction with that
     * range error.
     */
    static method FromArrays(vs: seq<V>, edges: seq<seq<int>>) returns (r: Result<UnweightedGraph<V>>)
      requires forall k :: 0 <= k < |edges| ==> |edges[k]| >= 2
      ensures var ins := InsertEdges(EmptyLists(|AddVertices([], vs)|), RowEdges(edges));
              && (r.Ok? <==> ins.0.Pass?)
              && (r.Err? ==> r.error == ins.0.error)
              && (r.Ok? ==> fresh(r.value) && r.value.Valid()
                            && r.value.vertices == AddVertices([], vs) && r.value.neighbors == ins.1)
    {
      var g := new UnweightedGraph<V>();
      g.AddVertexList(vs);
      assert g.neighbors == EmptyLists(|g.vertices|);
      var o := g.CreateAdjacencyLists(edges);
      if o.Fail? {
        return Err(o.error);
      }
      return Ok(g);
    }

    /**
     * A graph built from a vertex list and an edge list: the vertices are
     * added in turn (repeated values skipped), then the edges. An edge with an
     * endpoint out of range aborts construction with that range error.
     */
    static method FromLists(vs: seq<V>, edges: seq<Edge>) returns (r: Result<UnweightedGraph<V>>)
      ensures var ins := InsertEdges(EmptyLists(|AddVertices([], vs)|), edges);
              && (r.Ok? <==> ins.0.Pass?)
              && (r.Err? ==> r.error == ins.0.error)
              && (r.Ok? ==> fresh(r.value) && r.value.Valid()
                            && r.value.vertices == AddVertices([], vs) && r.value.neighbors == ins.1)
    {
      var g := new UnweightedGraph<V>();
      g.AddVertexList(vs);
      assert g.neighbors == EmptyLists(|g.vertices|);
      var o := g.CreateAdjacencyListsFromEdges(edges);
      if o.Fail? {
        return Err(o.error);
      }
      return Ok(g);
    }

    /** Add each of `xs` in turn, as both building constructors do first. */
    method AddVertexList(xs: seq<V>)
      requires Valid()
      modifies this
      ensures Valid()
      ensures vertices == AddVertices(old(vertices), xs) && |vertices| >= |old(vertices)|
      ensures neighbors == old(neighbors) + EmptyLists(|vertices| - |old(vertices)|)
    {
      ghost var vs0 := vertices;
      ghost var nb0 := neighbors;
      AddVerticesSpec(vs0, []);
      var i := 0;
      while i < |xs|
        invariant 0 <= i <= |xs| && Valid()
        invariant vertices == AddVertices(vs0, xs[..i])
        invariant |vertices| >= |vs0| && neighbors == nb0 + EmptyLists(|vertices| - |vs0|)
      {
        assert xs[..i + 1][..i] == xs[..i];
        var _ := AddVertex(xs[i]);
        AddVerticesSpec(vs0, xs[..i + 1]);
        assert neighbors == nb0 + EmptyLists(|vertices| - |vs0|);
        i := i + 1;
      }
      assert xs[..i] == xs;
    }

    /**
     * Insert the edges of a table of index pairs in turn. An edge with an
     * endpoint out of range stops the insertion with that range error; the
     * edges inserted before it stay.
     */
    method CreateAdjacencyLists(edges: seq<seq<int>>) returns (o: Outcome)
      requires Valid() && forall k :: 0 <= k < |edges| ==> |edges[k]| >= 2
      modifies this
      ensures Valid() && vertices == old(vertices)
      ensures (o, neighbors) == InsertEdges(old(neighbors), RowEdges(edges))
    {
      ghost var nb0 := neighbors;
      ghost var es := RowEdges(edges);
      assert es[..0] == [];
      var i := 0;
      while i < |edges|
        invariant 0 <= i <= |edges| && Valid() && vertices == old(vertices)
        invariant InsertEdges(nb0, es[..i]) == (Pass, neighbors)
      {
        InsertEdgesStep(nb0, es, i);
        var r := AddEdgeByIndex(edges[i][0], edges[i][1]);
        if r.Err? {
          InsertEdgesStops(nb0, es, i + 1);
          return Fail(r.error);
        }
        i := i + 1;
      }
      assert es[..i] == es;
      return Pass;
    }

    /**
     * Insert the edges of an edge list in turn. An edge with an endpoint out
     * of range stops the insertion with that range error; the edges inserted
     * before it stay.
     */
    method CreateAdjacencyListsFromEdges(edges: seq<Edge>) returns (o: Outcome)
      requires Valid()
      modifies this
      ensures Valid() && vertices == old(vertices)
      ensures (o, neighbors) == InsertEdges(old(neighbors), edges)
    {
      ghost var nb0 := neighbors;
      assert edges[..0] == [];
      var i := 0;
      while i < |edges|
        invariant 0 <= i <= |edges| && Valid() && vertices == old(vertices)
        invariant InsertEdges(nb0, edges[..i]) == (Pass, neighbors)
      {
        InsertEdgesStep(nb0, edges, i);
        var r := AddEdgeByIndex(edges[i].u, edges[i].v);
        if r.Err? {
          InsertEdgesStops(nb0, edges, i + 1);
          return Fail(r.error);
        }
        i := i + 1;
      }
      assert edges[..i] == edges;
      return Pass;
    }

    /** The number of vertices, which is also the number of adjacency lists. */
    function GetSize(): (n: int)
      requires Valid()
      reads this
      ensures n == |vertices| && n == |neighbors|
    {
      |vertices|
    }

    /** The vertex values, in index order, without repetitions. */
    function GetVertices(): (vs: seq<V>)
      requires Valid()
      reads this
      ensures |vs| == GetSize() && NoDuplicates(vs)
    {
      vertices
    }

    /** The value of vertex `index`, which `GetIndex` maps back to `index`. */
    function GetVertex(index: int): (x: V)
      requires Valid() && 0 <= index < |vertices|
      reads this
      ensures x in vertices && GetIndex(x) == index
    {
      IndexOfDistinct(vertices, index);
      vertices[index]
    }

    /** The index of the value `x`, or -1 when `x` is not a vertex. */
    function GetIndex(x: V): (r: int)
      reads this
      ensures r == -1 <==> x !in vertices
      ensures r != -1 ==> 0 <= r < |vertices| && vertices[r] == x && x !in vertices[..r]
    {
      IndexOf(vertices, x)
    }

    /** The targets of the edges leaving `index`, in insertion order. */
    method GetNeighbors(index: int) returns (r: seq<int>)
      requires Valid() && 0 <= index < |neighbors|
      ensures r == Targets(neighbors[index])
      ensures forall w :: w in r <==> Edge(index, w) in neighbors[index]
      ensures NoDuplicates(r) && forall k :: 0 <= k < |r| ==> 0 <= r[k] < GetSize()
    {
      var list := neighbors[index];
      r := [];
      var j := 0;
      while j < |list|
        invariant 0 <= j <= |list| && r == Targets(list[..j])
      {
        assert list[..j + 1][..j] == list[..j];
        r := r + [list[j].v];
        j := j + 1;
      }
      assert list[..j] == list;
      TargetsSpec(neighbors, index);
    }

    /** The number of edges leaving `v`: its number of distinct out-neighbours. */
    function GetDegree(v: int): (d: int)
      requires Valid() && 0 <= v < |neighbors|
      reads this
      ensures d == |Targets(neighbors[v])|
      ensures d == |set w | w in Targets(neighbors[v])|
    {
      TargetsSpec(neighbors, v);
      CardOfNoDuplicates(Targets(neighbors[v]));
      |neighbors[v]|
    }

    /**
     * All stored edges: the adjacency lists concatenated in vertex-index
     * order. Each stored edge occurs exactly once, grouped by source.
     */
    method GetEdges() returns (r: seq<Edge>)
      requires Valid()
      ensures r == Flatten(neighbors)
      ensures forall e :: e in r <==> 0 <= e.u < |neighbors| && e in neighbors[e.u]
      ensures NoDuplicates(r) && forall i, j :: 0 <= i < j < |r| ==> r[i].u <= r[j].u
    {
      r := [];
      var i := 0;
      assert neighbors[..0] == [];
      while i < |neighbors|
        invariant 0 <= i <= |neighbors| && r == Flatten(neighbors[..i])
      {
        var list := neighbors[i];
        ghost var before := r;
        var j := 0;
        while j < |list|
          invariant 0 <= j <= |list| && r == before + list[..j]
        {
          assert list[..j + 1] == list[..j] + [list[j]];
          r := r + [list[j]];
          j := j + 1;
        }
        assert list[..j] == list;
        assert neighbors[..i + 1][..i] == neighbors[..i];
        i := i + 1;
      }
      assert neighbors[..i] == neighbors;
      FlattenSpec(neighbors);
    }

    /** Remove every vertex and edge. */
    method Clear()
      modifies this
      ensures Valid() && vertices == [] && neighbors == []
    {
      vertices := [];
      neighbors := [];
    }

    /**
     * Add a vertex value: a value not yet present is appended with an empty
     * edge list and `true` is returned; a value already present leaves the
     * graph as it was and `false` is returned.
     */
    method AddVertex(x: V) returns (added: bool)
      requires Valid()
      modifies this
      ensures Valid()
      ensures added <==> x !in old(vertices)
      ensures added ==> vertices == old(vertices) + [x] && neighbors == old(neighbors) + [[]]
      ensures !added ==> vertices == old(vertices) && neighbors == old(neighbors)
    {
      if x !in vertices {
        vertices := vertices + [x];
        neighbors := neighbors + [[]];
        forall i | 0 <= i < |neighbors| ensures ListWellFormed(neighbors, i) {
          if i < |old(neighbors)| {
            assert neighbors[i] == old(neighbors)[i];
            assert ListWellFormed(old(neighbors), i);
          }
        }
        assert NoDuplicates(vertices) by {
          forall a, b | 0 <= a < b < |vertices| ensures vertices[a] != vertices[b] {
            if b < |old(vertices)| {
              assert vertices[a] == old(vertices)[a] && vertices[b] == old(vertices)[b];
            } else {
              assert vertices[a] in old(vertices);
            }
          }
        }
        return true;
      }
      return false;
    }

    /**
     * Add the edge `e`: a range error naming `e.u` (checked first) or `e.v`
     * when either is not a vertex index, with nothing changed; otherwise
     * `Ok(false)` and nothing changed when the edge is already stored, and
     * `Ok(true)` with `e` appended to the list of `e.u` alone.
     */
    method AddEdge(e: Edge) returns (r: Result<bool>)
      requires Valid()
      modifies this
      ensures Valid() && vertices == old(vertices)
      ensures (r, neighbors) == AddEdgeTo(old(neighbors), e.u, e.v)
    {
      AddEdgePreservesWellFormed(neighbors, e.u, e.v);
      if e.u < 0 || e.u > GetSize() - 1 {
        return Err(NoSuchIndex(e.u));
      }
      if e.v < 0 || e.v > GetSize() - 1 {
        return Err(NoSuchIndex(e.v));
      }
      if !ContainsEdge(neighbors[e.u], e) {
        neighbors := neighbors[e.u := neighbors[e.u] + [e]];
        return Ok(true);
      }
      return Ok(false);
    }

    /** Add the edge `u -> v`; see `AddEdge`. */
    method AddEdgeByIndex(u: int, v: int) returns (r: Result<bool>)
      requires Valid()
      modifies this
      ensures Valid() && vertices == old(vertices)
      ensures (r, neighbors) == AddEdgeTo(old(neighbors), u, v)
    {
      r := AddEdge(Edge(u, v));
    }

    /** A fresh parent array of `n` entries, all -1. */
    static method NewParents(n: nat) returns (parent: array<int>)
      ensures fresh(parent) && parent[..] == NoParents(n)
    {
      parent := new int[n];
      var i := 0;
      while i < n
        invariant 0 <= i <= n && forall k :: 0 <= k < i ==> parent[k] == -1
      {
        parent[i] := -1;
        i := i + 1;
      }
    }

    /**
     * Depth-first search from vertex `v`. The result is the search the pure
     * definition describes, so it is a search tree rooted at `v` along stored
     * edges whose order holds exactly the vertices reachable from `v`.
     */
    method Dfs(v: int) returns (t: Tree)
      requires Valid() && 0 <= v < |vertices|
      ensures t == DepthFirst.Dfs(neighbors, v)
      ensures IsSearchTree(t) && t.root == v && TreeEdgesInGraph(neighbors, t)
      ensures forall w :: w in t.searchOrder <==> 0 <= w < |neighbors| && Reachable(neighbors, v, w)
      ensures t.GetNumberOfVerticesFound() == |ReachableSet(neighbors, v)|
    {
      var parent := NewParents(|vertices|);
      var isVisited := new bool[|vertices|](_ => false);
      var order := DfsVisit(v, parent, isVisited, []);
      t := Tree(v, parent[..], order);
      DepthFirst.DfsSpec(neighbors, v);
    }

    /**
     * The recursive step of depth-first search: record `u` as visited, then
     * for each edge of `u` in turn whose target is not yet visited, make `u`
     * that target's parent and search from it. It computes what the pure
     * `DfsVisit` describes, and keeps `isVisited` equal to membership in the
     * order.
     */
    method DfsVisit(u: int, parent: array<int>, isVisited: array<bool>, order: seq<int>)
      returns (order': seq<int>)
      requires Valid() && 0 <= u < |neighbors| && u !in order
      requires parent.Length == |neighbors| && isVisited.Length == |neighbors|
      requires DepthFirst.SearchOk(neighbors, DepthFirst.Search(parent[..], order))
      requires forall i :: 0 <= i < isVisited.Length ==> (isVisited[i] <==> i in order)
      modifies parent, isVisited
      ensures DepthFirst.Search(parent[..], order') ==
              DepthFirst.DfsVisit(neighbors, u, DepthFirst.Search(old(parent[..]), order))
      ensures forall i :: 0 <= i < isVisited.Length ==> (isVisited[i] <==> i in order')
      decreases |neighbors| - |order|
    {
      ghost var nb := neighbors;
      ghost var goal := DepthFirst.DfsVisit(nb, u, DepthFirst.Search(parent[..], order));
      AppendFresh(|nb|, order, u);
      order' := order + [u];
      isVisited[u] := true;
      var list := neighbors[u];
      assert ListWellFormed(nb, u);
      var j := 0;
      while j < |list|
        invariant 0 <= j <= |list| && |order'| > |order|
        invariant DepthFirst.SearchOk(nb, DepthFirst.Search(parent[..], order'))
        invariant forall i :: 0 <= i < isVisited.Length ==> (isVisited[i] <==> i in order')
        invariant DepthFirst.DfsEdges(nb, u, j, DepthFirst.Search(parent[..], order')) == goal
      {
        var w := list[j].v;
        if !isVisited[w] {
          parent[w] := u;
          NoDuplicatesBound(order', |nb|);
          order' := DfsVisit(w, parent, isVisited, order');
        }
        j := j + 1;
      }
    }

    /**
     * Breadth-first search from vertex `v`: `v` is queued and marked visited;
     * each dequeued vertex is appended to the order and every edge of it to a
     * vertex not yet visited enqueues that vertex, marks it visited and makes
     * the dequeued vertex its parent. The result is the search the pure
     * definition describes, so it is a search tree rooted at `v` along stored
     * edges whose order holds exactly the vertices reachable from `v`.
     */
    method Bfs(v: int) returns (t: Tree)
      requires Valid() && 0 <= v < |vertices|
      ensures t == BreadthFirst.Bfs(neighbors, v)
      ensures IsSearchTree(t) && t.root == v && TreeEdgesInGraph(neighbors, t)
      ensures forall w :: w in t.searchOrder <==> 0 <= w < |neighbors| && Reachable(neighbors, v, w)
      ensures t.GetNumberOfVerticesFound() == |ReachableSet(neighbors, v)|
      ensures DepthOrdered(t) && ShortestPaths(neighbors, t)
    {
      ghost var nb := neighbors;
      var order: seq<int> := [];
      var parent := NewParents(|vertices|);
      var queue: seq<int> := [v];
      var isVisited := new bool[|vertices|](_ => false);
      isVisited[v] := true;
      ghost var q0 := BreadthFirst.Queued(parent[..], [], [v]);
      assert q0.Seen() == [v];
      ghost var goal := BreadthFirst.BfsLoop(nb, q0);
      while queue != []
        invariant parent.Length == |nb| && isVisited.Length == |nb|
        invariant BreadthFirst.QueuedOk(nb, BreadthFirst.Queued(parent[..], order, queue))
        invariant forall i :: 0 <= i < |nb| ==> (isVisited[i] <==> i in order + queue)
        invariant BreadthFirst.BfsLoop(nb, BreadthFirst.Queued(parent[..], order, queue)) == goal
        invariant |order| + |queue| <= |nb|
        decreases |nb| - |order|
      {
        ghost var q := BreadthFirst.Queued(parent[..], order, queue);
        ghost var q1 := BreadthFirst.Dequeue(q);
        var u := queue[0];
        queue := queue[1..];
        order := order + [u];
        assert u == q.Seen()[|q.order|];
        assert order + queue == q.Seen();
        NoDuplicatesBound(q.Seen(), |nb|);
        queue := BfsScan(u, parent, isVisited, order, queue);
        NoDuplicatesBound(order + queue, |nb|);
      }
      t := Tree(v, parent[..], order);
      assert t == BreadthFirst.Bfs(nb, v) && nb == neighbors;
      BreadthFirst.BfsSpec(nb, v);
    }

    /**
     * The inner loop of breadth-first search: for each edge of the dequeued
     * `u` in turn whose target is not yet visited, enqueue the target, make
     * `u` its parent and mark it visited. It computes what the pure
     * `BfsEdges` describes, and keeps `isVisited` equal to membership in the
     * dequeued vertices and the queue.
     */
    method BfsScan(u: int, parent: array<int>, isVisited: array<bool>, order: seq<int>, queue: seq<int>)
      returns (queue': seq<int>)
      requires Valid() && 0 <= u < |neighbors|
      requires parent.Length == |neighbors| && isVisited.Length == |neighbors|
      requires BreadthFirst.QueuedOk(neighbors, BreadthFirst.Queued(parent[..], order, queue))
      requires forall i :: 0 <= i < |neighbors| ==> (isVisited[i] <==> i in order + queue)
      modifies parent, isVisited
      ensures BreadthFirst.Queued(parent[..], order, queue') ==
              BreadthFirst.BfsEdges(neighbors, u, 0, BreadthFirst.Queued(old(parent[..]), order, queue))
      ensures forall i :: 0 <= i < |neighbors| ==> (isVisited[i] <==> i in order + queue')
    {
      ghost var nb := neighbors;
      ghost var goal := BreadthFirst.BfsEdges(nb, u, 0, BreadthFirst.Queued(parent[..], order, queue));
      queue' := queue;
      var list := neighbors[u];
      assert ListWellFormed(nb, u);
      var j := 0;
      while j < |list|
        invariant 0 <= j <= |list|
        invariant BreadthFirst.QueuedOk(nb, BreadthFirst.Queued(parent[..], order, queue'))
        invariant forall i :: 0 <= i < |nb| ==> (isVisited[i] <==> i in order + queue')
        invariant BreadthFirst.BfsEdges(nb, u, j, BreadthFirst.Queued(parent[..], order, queue')) == goal
      {
        var w := list[j].v;
        if !isVisited[w] {
          assert (order + queue') + [w] == order + (queue' + [w]);
          queue' := queue' + [w];
          parent[w] := u;
          isVisited[w] := true;
        }
        j := j + 1;
      }
    }

    /**
     * The vertex values met when walking parent links of `t` from `index`
     * until a vertex without a parent, `index` first. When `index` was
     * reached the walk ends at the root; when `index` has no parent the walk
     * is that vertex alone.
     */
    method GetPath(t: Tree, index: int) returns (path: seq<V>)
      requires Valid() && IsSearchTree(t) && |t.parent| <= |vertices| && 0 <= index < |t.parent|
      ensures |path| == |PathFrom(t, index)|
      ensures forall k :: 0 <= k < |path| ==> path[k] == vertices[PathFrom(t, index)[k]]
      ensures path[0] == vertices[index]
      ensures index in t.searchOrder ==> path[|path| - 1] == vertices[t.root]
      ensures t.parent[index] == -1 ==> path == [vertices[index]]
    {
      ghost var p := PathFrom(t, index);
      path := [];
      var i := index;
      while i != -1
        invariant 0 <= |path| <= |p|
        invariant forall k :: 0 <= k < |path| ==> path[k] == vertices[p[k]]
        invariant i == if |path| < |p| then p[|path|] else -1
        decreases |p| - |path|
      {
        path := path + [vertices[i]];
        i := t.parent[i];
      }
      PathEndsAtRoot(t, index);
    }
  }
}
