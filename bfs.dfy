/**
 * Breadth-first search as pure functions that thread the traversal state (the
 * parent entries, the dequeued vertices in order, and the queue) exactly as
 * the search loop updates it. A vertex counts as visited once it is dequeued
 * or queued: it is marked when it is enqueued, so it is enqueued at most once.
 * As for depth-first search, each invariant has its own pair of lemmas and
 * `BfsSpec` puts them together.
 */
module BreadthFirst {
  import opened Edges
  import opened Adjacency
  import opened SearchTrees
  import opened SearchStates
  import opened Levels

  /** The state of breadth-first search: parents, dequeued vertices, and the queue. */
  datatype Queued = Queued(parent: seq<int>, order: seq<int>, queue: seq<int>) {
    /** Every vertex visited so far, in the order it was enqueued. */
    function Seen(): seq<int> {
      order + queue
    }
  }

  /** A parent entry per vertex; the visited vertices are distinct and in range. */
  ghost predicate QueuedOk(nb: seq<seq<Edge>>, q: Queued) {
    && |q.parent| == |nb|
    && NoDuplicates(q.Seen())
    && (forall k :: 0 <= k < |q.Seen()| ==> 0 <= q.Seen()[k] < |nb|)
  }

  /** Enqueue `w` with parent `u`. */
  function Enqueue(q: Queued, w: int, u: int): (r: Queued)
    requires 0 <= w < |q.parent|
    ensures r.Seen() == q.Seen() + [w] && r.order == q.order && r.parent == q.parent[w := u]
  {
    var r := Queued(q.parent[w := u], q.order, q.queue + [w]);
    assert r.Seen() == q.Seen() + [w];
    r
  }

  /**
   * Scan the edges of the dequeued `u` from the `j`-th on, in list order: an
   * edge to a vertex not yet visited enqueues it with `u` as its parent.
   */
  function BfsEdges(nb: seq<seq<Edge>>, u: int, j: int, q: Queued): (r: Queued)
    requires WellFormed(nb) && |q.parent| == |nb| && 0 <= u < |nb| && 0 <= j <= |nb[u]|
    ensures |r.parent| == |nb| && r.order == q.order && Extends(r.Seen(), q.Seen())
    ensures QueuedOk(nb, q) ==> QueuedOk(nb, r)
    decreases |nb[u]| - j
  {
    if j == |nb[u]| then q
    else
      assert ListWellFormed(nb, u);
      var w := nb[u][j].v;
      if w in q.Seen() then BfsEdges(nb, u, j + 1, q)
      else
        var q1 := Enqueue(q, w, u);
        assert QueuedOk(nb, q) ==> QueuedOk(nb, q1) by {
          if QueuedOk(nb, q) {
            AppendFresh(|nb|, q.Seen(), w);
          }
        }
        var r := BfsEdges(nb, u, j + 1, q1);
        ExtendsTrans(r.Seen(), q1.Seen(), q.Seen());
        r
  }

  /** Take the head of a nonempty queue off and append it to the dequeued vertices. */
  function Dequeue(q: Queued): (r: Queued)
    requires q.queue != []
    ensures r.Seen() == q.Seen() && r.order == q.order + [q.queue[0]]
    ensures |r.queue| == |q.queue| - 1 && q.Seen()[|q.order|] == q.queue[0]
  {
    var r := Queued(q.parent, q.order + [q.queue[0]], q.queue[1..]);
    assert r.Seen() == q.Seen();
    r
  }

  /** Dequeue vertices until the queue is empty, scanning the edges of each. */
  function BfsLoop(nb: seq<seq<Edge>>, q: Queued): (r: Queued)
    requires WellFormed(nb) && QueuedOk(nb, q)
    ensures QueuedOk(nb, r) && r.queue == [] && r.Seen() == r.order && Extends(r.order, q.Seen())
    decreases |nb| - |q.order|
  {
    if q.queue == [] then
      assert q.order == q.Seen();
      q
    else
      var q1 := Dequeue(q);
      var u := q.queue[0];
      assert u == q.Seen()[|q.order|];
      NoDuplicatesBound(q.Seen(), |nb|);
      var q2 := BfsEdges(nb, u, 0, q1);
      var r := BfsLoop(nb, q2);
      ExtendsTrans(r.order, q2.Seen(), q.Seen());
      r
  }

  /** Breadth-first search from `v`: `v` is queued, and so visited, first. */
  function Bfs(nb: seq<seq<Edge>>, v: int): (t: Tree)
    requires WellFormed(nb) && 0 <= v < |nb|
    ensures t.root == v && |t.parent| == |nb|
  {
    var q0 := Queued(NoParents(|nb|), [], [v]);
    assert q0.Seen() == [v];
    var r := BfsLoop(nb, q0);
    Tree(v, r.parent, r.order)
  }

  // ---------------------------------------------------------------------------
  // Parent entries are stored edges
  // ---------------------------------------------------------------------------

  lemma {:induction false} EdgesParentEdges(nb: seq<seq<Edge>>, u: int, j: int, q: Queued)
    requires WellFormed(nb) && QueuedOk(nb, q) && 0 <= u < |nb| && 0 <= j <= |nb[u]|
    requires ParentEdges(nb, q.parent)
    ensures ParentEdges(nb, BfsEdges(nb, u, j, q).parent)
    decreases |nb[u]| - j
  {
    if j < |nb[u]| {
      assert ListWellFormed(nb, u);
      var w := nb[u][j].v;
      if w in q.Seen() {
        EdgesParentEdges(nb, u, j + 1, q);
      } else {
        assert nb[u][j] == Edge(u, w);
        AppendFresh(|nb|, q.Seen(), w);
        EdgesParentEdges(nb, u, j + 1, Enqueue(q, w, u));
      }
    }
  }

  lemma {:induction false} LoopParentEdges(nb: seq<seq<Edge>>, q: Queued)
    requires WellFormed(nb) && QueuedOk(nb, q) && ParentEdges(nb, q.parent)
    ensures ParentEdges(nb, BfsLoop(nb, q).parent)
    decreases |nb| - |q.order|
  {
    if q.queue != [] {
      var q1 := Dequeue(q);
      NoDuplicatesBound(q.Seen(), |nb|);
      EdgesParentEdges(nb, q.queue[0], 0, q1);
      LoopParentEdges(nb, BfsEdges(nb, q.queue[0], 0, q1));
    }
  }

  // ---------------------------------------------------------------------------
  // Unvisited vertices have no parent
  // ---------------------------------------------------------------------------

  lemma {:induction false} EdgesOrphans(nb: seq<seq<Edge>>, u: int, j: int, q: Queued)
    requires WellFormed(nb) && QueuedOk(nb, q) && 0 <= u < |nb| && 0 <= j <= |nb[u]|
    requires Orphans(q.parent, q.Seen(), -1)
    ensures Orphans(BfsEdges(nb, u, j, q).parent, BfsEdges(nb, u, j, q).Seen(), -1)
    decreases |nb[u]| - j
  {
    if j < |nb[u]| {
      assert ListWellFormed(nb, u);
      var w := nb[u][j].v;
      if w in q.Seen() {
        EdgesOrphans(nb, u, j + 1, q);
      } else {
        AppendFresh(|nb|, q.Seen(), w);
        EdgesOrphans(nb, u, j + 1, Enqueue(q, w, u));
      }
    }
  }

  lemma {:induction false} LoopOrphans(nb: seq<seq<Edge>>, q: Queued)
    requires WellFormed(nb) && QueuedOk(nb, q) && Orphans(q.parent, q.Seen(), -1)
    ensures Orphans(BfsLoop(nb, q).parent, BfsLoop(nb, q).order, -1)
    decreases |nb| - |q.order|
  {
    if q.queue == [] {
      assert q.Seen() == q.order;
    } else {
      var q1 := Dequeue(q);
      NoDuplicatesBound(q.Seen(), |nb|);
      EdgesOrphans(nb, q.queue[0], 0, q1);
      LoopOrphans(nb, BfsEdges(nb, q.queue[0], 0, q1));
    }
  }

  // ---------------------------------------------------------------------------
  // Parents are visited before their children
  // ---------------------------------------------------------------------------

  lemma {:induction false} EdgesEarlier(nb: seq<seq<Edge>>, u: int, j: int, q: Queued)
    requires WellFormed(nb) && QueuedOk(nb, q) && 0 <= u < |nb| && 0 <= j <= |nb[u]|
    requires EarlierParents(q.parent, q.Seen()) && u in q.Seen()
    ensures EarlierParents(BfsEdges(nb, u, j, q).parent, BfsEdges(nb, u, j, q).Seen())
    decreases |nb[u]| - j
  {
    if j < |nb[u]| {
      assert ListWellFormed(nb, u);
      var w := nb[u][j].v;
      if w in q.Seen() {
        EdgesEarlier(nb, u, j + 1, q);
      } else {
        AppendFresh(|nb|, q.Seen(), w);
        DiscoverEarlier(q.parent, q.Seen(), w, u);
        EdgesEarlier(nb, u, j + 1, Enqueue(q, w, u));
      }
    }
  }

  lemma {:induction false} LoopEarlier(nb: seq<seq<Edge>>, q: Queued)
    requires WellFormed(nb) && QueuedOk(nb, q) && EarlierParents(q.parent, q.Seen())
    ensures EarlierParents(BfsLoop(nb, q).parent, BfsLoop(nb, q).order)
    decreases |nb| - |q.order|
  {
    if q.queue == [] {
      assert q.Seen() == q.order;
    } else {
      var q1 := Dequeue(q);
      NoDuplicatesBound(q.Seen(), |nb|);
      assert q.queue[0] in q1.Seen() by {
        assert q1.Seen()[|q.order|] == q.queue[0];
      }
      EdgesEarlier(nb, q.queue[0], 0, q1);
      LoopEarlier(nb, BfsEdges(nb, q.queue[0], 0, q1));
    }
  }

  // ---------------------------------------------------------------------------
  // Every visited vertex but the first has a parent
  // ---------------------------------------------------------------------------

  lemma {:induction false} EdgesLater(nb: seq<seq<Edge>>, u: int, j: int, q: Queued)
    requires WellFormed(nb) && QueuedOk(nb, q) && 0 <= u < |nb| && 0 <= j <= |nb[u]|
    requires LaterHaveParents(q.parent, q.Seen())
    ensures LaterHaveParents(BfsEdges(nb, u, j, q).parent, BfsEdges(nb, u, j, q).Seen())
    decreases |nb[u]| - j
  {
    if j < |nb[u]| {
      assert ListWellFormed(nb, u);
      var w := nb[u][j].v;
      if w in q.Seen() {
        EdgesLater(nb, u, j + 1, q);
      } else {
        AppendFresh(|nb|, q.Seen(), w);
        DiscoverLater(q.parent, q.Seen(), w, u);
        EdgesLater(nb, u, j + 1, Enqueue(q, w, u));
      }
    }
  }

  lemma {:induction false} LoopLater(nb: seq<seq<Edge>>, q: Queued)
    requires WellFormed(nb) && QueuedOk(nb, q) && LaterHaveParents(q.parent, q.Seen())
    ensures LaterHaveParents(BfsLoop(nb, q).parent, BfsLoop(nb, q).order)
    decreases |nb| - |q.order|
  {
    if q.queue == [] {
      assert q.Seen() == q.order;
    } else {
      var q1 := Dequeue(q);
      NoDuplicatesBound(q.Seen(), |nb|);
      EdgesLater(nb, q.queue[0], 0, q1);
      LoopLater(nb, BfsEdges(nb, q.queue[0], 0, q1));
    }
  }

  // ---------------------------------------------------------------------------
  // Every dequeued vertex has all its edges scanned
  // ---------------------------------------------------------------------------

  lemma {:induction false} EdgesFinish(nb: seq<seq<Edge>>, u: int, j: int, q: Queued)
    requires WellFormed(nb) && QueuedOk(nb, q) && 0 <= u < |nb| && 0 <= j <= |nb[u]|
    requires ScannedUpTo(nb, u, j, q.Seen())
    ensures Finished(nb, BfsEdges(nb, u, j, q).Seen(), u)
    decreases |nb[u]| - j
  {
    if j == |nb[u]| {
      ScannedAllFinished(nb, u, q.Seen());
    } else {
      assert ListWellFormed(nb, u);
      var w := nb[u][j].v;
      if w in q.Seen() {
        EdgesFinish(nb, u, j + 1, q);
      } else {
        AppendFresh(|nb|, q.Seen(), w);
        var q1 := Enqueue(q, w, u);
        assert ScannedUpTo(nb, u, j + 1, q1.Seen()) by {
          forall i | 0 <= i < j + 1 ensures nb[u][i].v in q1.Seen() {
            if i < j { assert nb[u][i].v in q.Seen(); }
          }
        }
        EdgesFinish(nb, u, j + 1, q1);
      }
    }
  }

  lemma {:induction false} LoopFinishes(nb: seq<seq<Edge>>, q: Queued)
    requires WellFormed(nb) && QueuedOk(nb, q)
    requires forall k :: 0 <= k < |q.order| ==> Finished(nb, q.Seen(), q.Seen()[k])
    ensures forall k :: 0 <= k < |BfsLoop(nb, q).order| ==>
              Finished(nb, BfsLoop(nb, q).order, BfsLoop(nb, q).order[k])
    decreases |nb| - |q.order|
  {
    if q.queue == [] {
      assert q.Seen() == q.order;
    } else {
      var q1 := Dequeue(q);
      var u := q.queue[0];
      NoDuplicatesBound(q.Seen(), |nb|);
      EdgesFinish(nb, u, 0, q1);
      var q2 := BfsEdges(nb, u, 0, q1);
      forall k | 0 <= k < |q2.order| ensures Finished(nb, q2.Seen(), q2.Seen()[k]) {
        assert q2.Seen()[k] == q.Seen()[k];
        if k < |q.order| {
          FinishedGrows(nb, q.Seen(), q2.Seen(), q.Seen()[k]);
        }
      }
      LoopFinishes(nb, q2);
    }
  }

  // ---------------------------------------------------------------------------
  // Levels: vertices are visited level by level along edges that rise by at
  // most one level
  // ---------------------------------------------------------------------------

  /**
   * Scanning the edges of `u`, the vertex dequeued last, keeps the levels of
   * the visited vertices as `ScanLevels` describes, up to the last edge.
   */
  lemma {:induction false} EdgesLayers(nb: seq<seq<Edge>>, u: int, j: int, q: Queued)
    requires WellFormed(nb) && |q.parent| == |nb| && 0 <= u < |nb| && 0 <= j <= |nb[u]|
    requires |q.order| >= 1 && q.order[|q.order| - 1] == u
    requires ScanLevels(nb, q.parent, q.Seen(), |q.order| - 1, j)
    ensures ScanLevels(nb, BfsEdges(nb, u, j, q).parent, BfsEdges(nb, u, j, q).Seen(), |q.order| - 1, |nb[u]|)
    decreases |nb[u]| - j, 1
  {
    if j < |nb[u]| {
      assert ListWellFormed(nb, u);
      if nb[u][j].v in q.Seen() {
        ScanKnown(nb, q.parent, q.Seen(), |q.order| - 1, j);
        EdgesLayers(nb, u, j + 1, q);
      } else {
        EdgesLayersNew(nb, u, j, q);
      }
    }
  }

  /** The step of `EdgesLayers` for an edge to a vertex not seen yet. */
  lemma {:induction false} EdgesLayersNew(nb: seq<seq<Edge>>, u: int, j: int, q: Queued)
    requires WellFormed(nb) && |q.parent| == |nb| && 0 <= u < |nb| && 0 <= j < |nb[u]|
    requires |q.order| >= 1 && q.order[|q.order| - 1] == u
    requires nb[u][j].v !in q.Seen()
    requires ScanLevels(nb, q.parent, q.Seen(), |q.order| - 1, j)
    ensures ScanLevels(nb, BfsEdges(nb, u, j, q).parent, BfsEdges(nb, u, j, q).Seen(), |q.order| - 1, |nb[u]|)
    decreases |nb[u]| - j, 0
  {
    assert ListWellFormed(nb, u);
    var w := nb[u][j].v;
    ScanNew(nb, q.parent, q.Seen(), |q.order| - 1, j, u, w);
    EdgesLayers(nb, u, j + 1, Enqueue(q, w, u));
  }

  lemma {:induction false} LoopLayers(nb: seq<seq<Edge>>, q: Queued)
    requires WellFormed(nb) && QueuedOk(nb, q)
    requires Monotone(q.parent, q.Seen()) && Spread(q.parent, q.Seen(), |q.order|)
    requires AllShort(nb, q.parent, q.Seen(), |q.order|)
    ensures Monotone(BfsLoop(nb, q).parent, BfsLoop(nb, q).order)
    ensures AllShort(nb, BfsLoop(nb, q).parent, BfsLoop(nb, q).order, |BfsLoop(nb, q).order|)
    decreases |nb| - |q.order|
  {
    if q.queue == [] {
      assert q.Seen() == q.order;
    } else {
      var q1 := Dequeue(q);
      var u := q.queue[0];
      NoDuplicatesBound(q.Seen(), |nb|);
      assert ScanLevels(nb, q1.parent, q1.Seen(), |q.order|, 0);
      EdgesLayers(nb, u, 0, q1);
      var q2 := BfsEdges(nb, u, 0, q1);
      ScanDone(nb, q2.parent, q2.Seen(), |q.order|);
      SpreadShift(q2.parent, q2.Seen(), |q.order|);
      LoopLayers(nb, q2);
    }
  }

  // ---------------------------------------------------------------------------
  // The search as a whole
  // ---------------------------------------------------------------------------

  /**
   * Breadth-first search from `v` returns a search tree rooted at `v` whose
   * parent links are stored edges and whose order holds exactly the vertices
   * reachable from `v`, each once.
   */
  lemma BfsTree(nb: seq<seq<Edge>>, v: int)
    requires WellFormed(nb) && 0 <= v < |nb|
    ensures IsSearchTree(Bfs(nb, v))
    ensures TreeEdgesInGraph(nb, Bfs(nb, v))
    ensures Closed(nb, Bfs(nb, v).searchOrder)
    ensures forall w :: w in Bfs(nb, v).searchOrder <==> 0 <= w < |nb| && Reachable(nb, v, w)
    ensures Bfs(nb, v).GetNumberOfVerticesFound() == |ReachableSet(nb, v)|
  {
    var q0 := Queued(NoParents(|nb|), [], [v]);
    assert q0.Seen() == [v];
    LoopParentEdges(nb, q0);
    LoopOrphans(nb, q0);
    LoopEarlier(nb, q0);
    LoopLater(nb, q0);
    LoopFinishes(nb, q0);
    var r := BfsLoop(nb, q0);
    assert r.order[0] == [v][0];
    ToSearchTree(nb, v, r.parent, r.order);
    FoundIsReachable(nb, Bfs(nb, v));
  }

  /**
   * The search tree of breadth-first search lists the vertices by depth, and
   * its walk back from each vertex is a shortest walk from `v`.
   */
  lemma BfsLevels(nb: seq<seq<Edge>>, v: int)
    requires WellFormed(nb) && 0 <= v < |nb| && IsSearchTree(Bfs(nb, v))
    ensures DepthOrdered(Bfs(nb, v)) && ShortestPaths(nb, Bfs(nb, v))
  {
    var q0 := Queued(NoParents(|nb|), [], [v]);
    assert q0.Seen() == [v];
    assert Leveled(q0.parent, q0.Seen());
    LoopLayers(nb, q0);
    LevelsGiveShortestPaths(nb, Bfs(nb, v));
  }

  /**
   * Breadth-first search visits vertices by distance from `v`: for a vertex
   * `a` listed no later than `b`, some walk from `v` to `a` is no longer than
   * any walk from `v` to `b`.
   */
  lemma BfsByDistance(nb: seq<seq<Edge>>, v: int)
    requires WellFormed(nb) && 0 <= v < |nb|
    ensures forall i, j, q ::
              0 <= i <= j < |Bfs(nb, v).searchOrder| && IsPath(nb, q) && q[0] == v && q[|q| - 1] == Bfs(nb, v).searchOrder[j] ==>
                exists p :: IsPath(nb, p) && p[0] == v && p[|p| - 1] == Bfs(nb, v).searchOrder[i] && |p| <= |q|
  {
    BfsSpec(nb, v);
    ByDistance(nb, Bfs(nb, v));
  }

  /**
   * Breadth-first search from `v` returns a search tree rooted at `v` whose
   * parent links are stored edges and whose order holds exactly the vertices
   * reachable from `v`, each once. The order lists the vertices by depth,
   * and the tree's walk back from each vertex is a shortest walk from `v`.
   */
  lemma BfsSpec(nb: seq<seq<Edge>>, v: int)
    requires WellFormed(nb) && 0 <= v < |nb|
    ensures IsSearchTree(Bfs(nb, v))
    ensures TreeEdgesInGraph(nb, Bfs(nb, v))
    ensures Closed(nb, Bfs(nb, v).searchOrder)
    ensures forall w :: w in Bfs(nb, v).searchOrder <==> 0 <= w < |nb| && Reachable(nb, v, w)
    ensures Bfs(nb, v).GetNumberOfVerticesFound() == |ReachableSet(nb, v)|
    ensures DepthOrdered(Bfs(nb, v)) && ShortestPaths(nb, Bfs(nb, v))
  {
    BfsTree(nb, v);
    BfsLevels(nb, v);
  }
}
