/**
 * Depth-first search as pure functions that thread the traversal state (the
 * parent entries and the discovery order) exactly as the recursive search
 * updates it; a vertex counts as visited once it is in the order. Each
 * invariant of the state is carried through the recursion by its own pair of
 * lemmas, and `DfsSpec` puts them together: the search returns a search tree
 * along stored edges that found exactly the vertices reachable from its root.
 */
module DepthFirst {
  import opened Edges
  import opened Adjacency
  import opened SearchTrees
  import opened SearchStates

  /** The state a depth-first search threads through its recursion. */
  datatype Search = Search(parent: seq<int>, order: seq<int>)

  /** A parent entry per vertex, and a discovery order of distinct vertices in range. */
  ghost predicate SearchOk(nb: seq<seq<Edge>>, s: Search) {
    && |s.parent| == |nb|
    && NoDuplicates(s.order)
    && (forall k :: 0 <= k < |s.order| ==> 0 <= s.order[k] < |nb|)
  }

  /**
   * Visit `u`: append it to the order, then explore its edges. The recursive
   * search records `u` as visited before it looks at any edge.
   */
  function DfsVisit(nb: seq<seq<Edge>>, u: int, s: Search): (r: Search)
    requires WellFormed(nb) && SearchOk(nb, s) && 0 <= u < |nb| && u !in s.order
    ensures SearchOk(nb, r) && Extends(r.order, s.order + [u])
    decreases |nb| - |s.order|, 0
  {
    AppendFresh(|nb|, s.order, u);
    DfsEdges(nb, u, 0, Search(s.parent, s.order + [u]))
  }

  /**
   * Explore the edges of `u` from the `j`-th on, in list order: an edge to an
   * unvisited vertex makes `u` its parent and visits it before the next edge.
   */
  function DfsEdges(nb: seq<seq<Edge>>, u: int, j: int, s: Search): (r: Search)
    requires WellFormed(nb) && SearchOk(nb, s) && 0 <= u < |nb| && 0 <= j <= |nb[u]|
    ensures SearchOk(nb, r) && Extends(r.order, s.order)
    decreases |nb| - |s.order|, |nb[u]| - j
  {
    if j == |nb[u]| then s
    else
      assert ListWellFormed(nb, u);
      var w := nb[u][j].v;
      if w in s.order then DfsEdges(nb, u, j + 1, s)
      else
        var s1 := DfsVisit(nb, w, Search(s.parent[w := u], s.order));
        NoDuplicatesBound(s1.order, |nb|);
        var r := DfsEdges(nb, u, j + 1, s1);
        ExtendsTrans(r.order, s1.order, s.order + [w]);
        ExtendsTrans(r.order, s.order + [w], s.order);
        r
  }

  /** Depth-first search from `v`: parent entries start at -1 and nothing is visited. */
  function Dfs(nb: seq<seq<Edge>>, v: int): (t: Tree)
    requires WellFormed(nb) && 0 <= v < |nb|
    ensures t.root == v && |t.parent| == |nb|
  {
    var s := DfsVisit(nb, v, Search(NoParents(|nb|), []));
    Tree(v, s.parent, s.order)
  }

  // ---------------------------------------------------------------------------
  // Parent entries are stored edges
  // ---------------------------------------------------------------------------

  lemma {:induction false} VisitParentEdges(nb: seq<seq<Edge>>, u: int, s: Search)
    requires WellFormed(nb) && SearchOk(nb, s) && 0 <= u < |nb| && u !in s.order
    requires ParentEdges(nb, s.parent)
    ensures ParentEdges(nb, DfsVisit(nb, u, s).parent)
    decreases |nb| - |s.order|, 0
  {
    AppendFresh(|nb|, s.order, u);
    EdgesParentEdges(nb, u, 0, Search(s.parent, s.order + [u]));
  }

  lemma {:induction false} EdgesParentEdges(nb: seq<seq<Edge>>, u: int, j: int, s: Search)
    requires WellFormed(nb) && SearchOk(nb, s) && 0 <= u < |nb| && 0 <= j <= |nb[u]|
    requires ParentEdges(nb, s.parent)
    ensures ParentEdges(nb, DfsEdges(nb, u, j, s).parent)
    decreases |nb| - |s.order|, |nb[u]| - j
  {
    if j < |nb[u]| {
      assert ListWellFormed(nb, u);
      var w := nb[u][j].v;
      if w in s.order {
        EdgesParentEdges(nb, u, j + 1, s);
      } else {
        var s0 := Search(s.parent[w := u], s.order);
        assert nb[u][j] == Edge(u, w);
        VisitParentEdges(nb, w, s0);
        var s1 := DfsVisit(nb, w, s0);
        NoDuplicatesBound(s1.order, |nb|);
        EdgesParentEdges(nb, u, j + 1, s1);
      }
    }
  }

  // ---------------------------------------------------------------------------
  // Unvisited vertices have no parent
  // ---------------------------------------------------------------------------

  lemma {:induction false} VisitOrphans(nb: seq<seq<Edge>>, u: int, s: Search)
    requires WellFormed(nb) && SearchOk(nb, s) && 0 <= u < |nb| && u !in s.order
    requires Orphans(s.parent, s.order, u)
    ensures Orphans(DfsVisit(nb, u, s).parent, DfsVisit(nb, u, s).order, -1)
    decreases |nb| - |s.order|, 0
  {
    AppendFresh(|nb|, s.order, u);
    EdgesOrphans(nb, u, 0, Search(s.parent, s.order + [u]));
  }

  lemma {:induction false} EdgesOrphans(nb: seq<seq<Edge>>, u: int, j: int, s: Search)
    requires WellFormed(nb) && SearchOk(nb, s) && 0 <= u < |nb| && 0 <= j <= |nb[u]|
    requires Orphans(s.parent, s.order, -1)
    ensures Orphans(DfsEdges(nb, u, j, s).parent, DfsEdges(nb, u, j, s).order, -1)
    decreases |nb| - |s.order|, |nb[u]| - j
  {
    if j < |nb[u]| {
      assert ListWellFormed(nb, u);
      var w := nb[u][j].v;
      if w in s.order {
        EdgesOrphans(nb, u, j + 1, s);
      } else {
        var s0 := Search(s.parent[w := u], s.order);
        VisitOrphans(nb, w, s0);
        var s1 := DfsVisit(nb, w, s0);
        NoDuplicatesBound(s1.order, |nb|);
        EdgesOrphans(nb, u, j + 1, s1);
      }
    }
  }

  // ---------------------------------------------------------------------------
  // Parents are discovered before their children
  // ---------------------------------------------------------------------------

  lemma {:induction false} VisitEarlier(nb: seq<seq<Edge>>, u: int, s: Search)
    requires WellFormed(nb) && SearchOk(nb, s) && 0 <= u < |nb| && u !in s.order
    requires EarlierParents(s.parent, s.order) && (s.parent[u] == -1 || s.parent[u] in s.order)
    ensures EarlierParents(DfsVisit(nb, u, s).parent, DfsVisit(nb, u, s).order)
    decreases |nb| - |s.order|, 0
  {
    AppendFresh(|nb|, s.order, u);
    AppendEarlier(s.parent, s.order, u);
    EdgesEarlier(nb, u, 0, Search(s.parent, s.order + [u]));
  }

  lemma {:induction false} EdgesEarlier(nb: seq<seq<Edge>>, u: int, j: int, s: Search)
    requires WellFormed(nb) && SearchOk(nb, s) && 0 <= u < |nb| && 0 <= j <= |nb[u]|
    requires EarlierParents(s.parent, s.order) && u in s.order
    ensures EarlierParents(DfsEdges(nb, u, j, s).parent, DfsEdges(nb, u, j, s).order)
    decreases |nb| - |s.order|, |nb[u]| - j
  {
    if j < |nb[u]| {
      assert ListWellFormed(nb, u);
      var w := nb[u][j].v;
      if w in s.order {
        EdgesEarlier(nb, u, j + 1, s);
      } else {
        var s0 := Search(s.parent[w := u], s.order);
        SetParentEarlier(s.parent, s.order, w, u);
        VisitEarlier(nb, w, s0);
        var s1 := DfsVisit(nb, w, s0);
        NoDuplicatesBound(s1.order, |nb|);
        ExtendsTrans(s1.order, s.order + [w], s.order);
        assert u in s1.order by {
          assert u in s1.order[..|s.order|];
        }
        EdgesEarlier(nb, u, j + 1, s1);
      }
    }
  }

  // ---------------------------------------------------------------------------
  // Every discovered vertex but the first has a parent
  // ---------------------------------------------------------------------------

  lemma {:induction false} VisitLater(nb: seq<seq<Edge>>, u: int, s: Search)
    requires WellFormed(nb) && SearchOk(nb, s) && 0 <= u < |nb| && u !in s.order
    requires LaterHaveParents(s.parent, s.order) && (s.order != [] ==> s.parent[u] != -1)
    ensures LaterHaveParents(DfsVisit(nb, u, s).parent, DfsVisit(nb, u, s).order)
    decreases |nb| - |s.order|, 0
  {
    AppendFresh(|nb|, s.order, u);
    AppendLater(s.parent, s.order, u);
    EdgesLater(nb, u, 0, Search(s.parent, s.order + [u]));
  }

  lemma {:induction false} EdgesLater(nb: seq<seq<Edge>>, u: int, j: int, s: Search)
    requires WellFormed(nb) && SearchOk(nb, s) && 0 <= u < |nb| && 0 <= j <= |nb[u]|
    requires LaterHaveParents(s.parent, s.order)
    ensures LaterHaveParents(DfsEdges(nb, u, j, s).parent, DfsEdges(nb, u, j, s).order)
    decreases |nb| - |s.order|, |nb[u]| - j
  {
    if j < |nb[u]| {
      assert ListWellFormed(nb, u);
      var w := nb[u][j].v;
      if w in s.order {
        EdgesLater(nb, u, j + 1, s);
      } else {
        var s0 := Search(s.parent[w := u], s.order);
        SetParentLater(s.parent, s.order, w, u);
        VisitLater(nb, w, s0);
        var s1 := DfsVisit(nb, w, s0);
        NoDuplicatesBound(s1.order, |nb|);
        EdgesLater(nb, u, j + 1, s1);
      }
    }
  }

  // ---------------------------------------------------------------------------
  // Every vertex a visit discovers has all its edges explored
  // ---------------------------------------------------------------------------

  lemma {:induction false} VisitFinishes(nb: seq<seq<Edge>>, u: int, s: Search)
    requires WellFormed(nb) && SearchOk(nb, s) && 0 <= u < |nb| && u !in s.order
    ensures forall k :: |s.order| <= k < |DfsVisit(nb, u, s).order| ==>
              Finished(nb, DfsVisit(nb, u, s).order, DfsVisit(nb, u, s).order[k])
    decreases |nb| - |s.order|, 0
  {
    AppendFresh(|nb|, s.order, u);
    var s1 := Search(s.parent, s.order + [u]);
    EdgesFinish(nb, u, 0, s1);
    var r := DfsVisit(nb, u, s);
    assert r.order[|s.order|] == (s.order + [u])[|s.order|];
  }

  lemma {:induction false} EdgesFinish(nb: seq<seq<Edge>>, u: int, j: int, s: Search)
    requires WellFormed(nb) && SearchOk(nb, s) && 0 <= u < |nb| && 0 <= j <= |nb[u]|
    requires ScannedUpTo(nb, u, j, s.order)
    ensures Finished(nb, DfsEdges(nb, u, j, s).order, u)
    ensures forall k :: |s.order| <= k < |DfsEdges(nb, u, j, s).order| ==>
              Finished(nb, DfsEdges(nb, u, j, s).order, DfsEdges(nb, u, j, s).order[k])
    decreases |nb| - |s.order|, |nb[u]| - j, 1
  {
    if j == |nb[u]| {
      ScannedAllFinished(nb, u, s.order);
    } else if nb[u][j].v in s.order {
      EdgesFinish(nb, u, j + 1, s);
    } else {
      EdgesFinishVisit(nb, u, j, s);
    }
  }

  /** The step of `EdgesFinish` where the `j`-th edge leads to an unvisited vertex. */
  lemma {:induction false} EdgesFinishVisit(nb: seq<seq<Edge>>, u: int, j: int, s: Search)
    requires WellFormed(nb) && SearchOk(nb, s) && 0 <= u < |nb| && 0 <= j < |nb[u]|
    requires ScannedUpTo(nb, u, j, s.order) && nb[u][j].v !in s.order
    ensures Finished(nb, DfsEdges(nb, u, j, s).order, u)
    ensures forall k :: |s.order| <= k < |DfsEdges(nb, u, j, s).order| ==>
              Finished(nb, DfsEdges(nb, u, j, s).order, DfsEdges(nb, u, j, s).order[k])
    decreases |nb| - |s.order|, |nb[u]| - j, 0
  {
    assert ListWellFormed(nb, u);
    var w := nb[u][j].v;
    var s0 := Search(s.parent[w := u], s.order);
    VisitFinishes(nb, w, s0);
    var s1 := DfsVisit(nb, w, s0);
    NoDuplicatesBound(s1.order, |nb|);
    assert s1.order[..|s.order| + 1] == s.order + [w];
    forall i | 0 <= i < j + 1 ensures nb[u][i].v in s1.order {
      if i < j {
        assert nb[u][i].v in s1.order[..|s.order| + 1];
      } else {
        assert s1.order[|s.order|] == w;
      }
    }
    EdgesFinish(nb, u, j + 1, s1);
    var r := DfsEdges(nb, u, j + 1, s1);
    forall k | |s.order| <= k < |s1.order| ensures Finished(nb, r.order, r.order[k]) {
      assert r.order[k] == r.order[..|s1.order|][k];
      FinishedGrows(nb, s1.order, r.order, s1.order[k]);
    }
  }

  // ---------------------------------------------------------------------------
  // The search as a whole
  // ---------------------------------------------------------------------------

  /**
   * Depth-first search from `v` returns a search tree rooted at `v` whose
   * parent links are stored edges and whose order holds exactly the vertices
   * reachable from `v`, each once.
   */
  lemma DfsSpec(nb: seq<seq<Edge>>, v: int)
    requires WellFormed(nb) && 0 <= v < |nb|
    ensures IsSearchTree(Dfs(nb, v))
    ensures TreeEdgesInGraph(nb, Dfs(nb, v))
    ensures Closed(nb, Dfs(nb, v).searchOrder)
    ensures forall w :: w in Dfs(nb, v).searchOrder <==> 0 <= w < |nb| && Reachable(nb, v, w)
    ensures Dfs(nb, v).GetNumberOfVerticesFound() == |ReachableSet(nb, v)|
  {
    var s0 := Search(NoParents(|nb|), []);
    VisitParentEdges(nb, v, s0);
    VisitOrphans(nb, v, s0);
    VisitEarlier(nb, v, s0);
    VisitLater(nb, v, s0);
    VisitFinishes(nb, v, s0);
    var s := DfsVisit(nb, v, s0);
    assert s.order[0] == [v][0];
    ToSearchTree(nb, v, s.parent, s.order);
    FoundIsReachable(nb, Dfs(nb, v));
  }
}
