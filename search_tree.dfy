/**
 * The result of one traversal: the root, a parent entry per vertex (-1 for
 * "none") and the order in which vertices were discovered. This module states
 * what makes such a value a search tree, walks parent links back to the root,
 * and shows that a search tree whose discovered set is closed under edges has
 * found exactly the vertices reachable from its root.
 */
module SearchTrees {
  import opened Edges
  import opened Adjacency

  datatype Tree = Tree(root: int, parent: seq<int>, searchOrder: seq<int>) {

    /** The root: in a search tree, the first vertex found and one without a parent. */
    function GetRoot(): (r: int)
      ensures r == root
      ensures IsSearchTree(this) ==> 0 <= r < |parent| && parent[r] == -1 && searchOrder[0] == r
    {
      root
    }

    /**
     * The parent entry of `v`: in a search tree, -1 or a vertex in range
     * found strictly before `v`.
     */
    function GetParent(v: int): (p: int)
      requires 0 <= v < |parent|
      ensures p == parent[v]
      ensures IsSearchTree(this) && p != -1 ==>
                0 <= p < |parent| && p in searchOrder && v in searchOrder && Pos(searchOrder, p) < Pos(searchOrder, v)
    {
      assert IsSearchTree(this) && parent[v] != -1 ==>
               parent[v] in searchOrder && v in searchOrder && Pos(searchOrder, parent[v]) < Pos(searchOrder, v) by {
        if IsSearchTree(this) && parent[v] != -1 {
          ParentIsEarlier(this, v);
        }
      }
      parent[v]
    }

    /** The discovery order: in a search tree, distinct vertices in range starting at the root. */
    function GetSearchOrder(): (s: seq<int>)
      ensures s == searchOrder
      ensures IsSearchTree(this) ==>
                |s| >= 1 && s[0] == root && NoDuplicates(s) && forall k :: 0 <= k < |s| ==> 0 <= s[k] < |parent|
    {
      searchOrder
    }

    /** The number of vertices found: in a search tree, at least one, and the number of distinct vertices in the order. */
    function GetNumberOfVerticesFound(): (n: int)
      ensures n == |searchOrder|
      ensures IsSearchTree(this) ==> 1 <= n && n == |set x | x in searchOrder|
    {
      assert IsSearchTree(this) ==> |set x | x in searchOrder| == |searchOrder| by {
        if IsSearchTree(this) {
          CardOfNoDuplicates(searchOrder);
        }
      }
      |searchOrder|
    }
  }

  /**
   * The shape every traversal result has: the order starts at the root and
   * lists distinct vertices in range; the root has no parent; every later
   * vertex in the order has a parent listed before it; vertices not in the
   * order have no parent.
   */
  ghost predicate IsSearchTree(t: Tree) {
    var n := |t.parent|;
    var order := t.searchOrder;
    && 0 <= t.root < n
    && |order| >= 1 && order[0] == t.root
    && NoDuplicates(order)
    && (forall k :: 0 <= k < |order| ==> 0 <= order[k] < n)
    && t.parent[t.root] == -1
    && (forall k {:trigger t.parent[order[k]]} :: 1 <= k < |order| ==> t.parent[order[k]] in order[..k])
    && (forall i :: 0 <= i < n && i !in order ==> t.parent[i] == -1)
  }

  /** Every parent link `parent[i] = p` is a stored edge `p -> i`. */
  ghost predicate TreeEdgesInGraph(nb: seq<seq<Edge>>, t: Tree) {
    && |t.parent| == |nb|
    && forall i :: 0 <= i < |nb| && t.parent[i] != -1 ==>
         0 <= t.parent[i] < |nb| && Edge(t.parent[i], i) in nb[t.parent[i]]
  }

  /** The first position of `x` in `s`. */
  ghost function Pos(s: seq<int>, x: int): (k: nat)
    requires x in s
    ensures k < |s| && s[k] == x && x !in s[..k]
  {
    if s[0] == x then 0
    else
      var k := Pos(s[1..], x);
      assert s[..k + 1] == [s[0]] + s[1..][..k];
      k + 1
  }

  /** In a list without duplicates the position of `s[k]` is `k`. */
  lemma PosOfNoDuplicates(s: seq<int>, k: int)
    requires NoDuplicates(s) && 0 <= k < |s|
    ensures Pos(s, s[k]) == k
  {
  }

  /** The measure that parent links decrease. */
  ghost function Rank(t: Tree, i: int): nat {
    if i in t.searchOrder then Pos(t.searchOrder, i) + 1 else 0
  }

  /** A vertex with a parent sits later in the order than that parent. */
  lemma ParentIsEarlier(t: Tree, i: int)
    requires IsSearchTree(t) && 0 <= i < |t.parent| && t.parent[i] != -1
    ensures i in t.searchOrder && t.parent[i] in t.searchOrder
    ensures Pos(t.searchOrder, t.parent[i]) < Pos(t.searchOrder, i)
    ensures 0 <= t.parent[i] < |t.parent|
  {
    var order := t.searchOrder;
    var k := Pos(order, i);
    assert k != 0;
    assert t.parent[order[k]] in order[..k];
    var j :| 0 <= j < k && order[j] == t.parent[i];
    PosOfNoDuplicates(order, j);
  }

  /**
   * The vertex indices met when walking parent links from `index` until a
   * vertex whose parent is -1: it starts at `index`, each next entry is the
   * parent of the previous one, and it stops at the first vertex without one.
   */
  function PathFrom(t: Tree, index: int): (p: seq<int>)
    requires IsSearchTree(t) && 0 <= index < |t.parent|
    ensures |p| >= 1 && p[0] == index
    ensures forall k :: 0 <= k < |p| ==> 0 <= p[k] < |t.parent|
    ensures forall k :: 0 <= k < |p| - 1 ==> t.parent[p[k]] != -1 && p[k + 1] == t.parent[p[k]]
    ensures t.parent[p[|p| - 1]] == -1
    decreases Rank(t, index)
  {
    var next := t.parent[index];
    if next == -1 then [index]
    else
      ParentIsEarlier(t, index);
      assert Rank(t, next) < Rank(t, index);
      var rest := PathFrom(t, next);
      ConsParentWalk(t.parent, index, rest);
      [index] + rest
  }

  /** Along the search order the walks back to the root never get shorter: vertices are listed by depth. */
  ghost predicate DepthOrdered(t: Tree) {
    && IsSearchTree(t)
    && forall i, j :: 0 <= i <= j < |t.searchOrder| ==>
         |PathFrom(t, t.searchOrder[i])| <= |PathFrom(t, t.searchOrder[j])|
  }

  /** No walk from the root to a vertex has fewer vertices than the tree's walk back from it. */
  ghost predicate ShortestPaths(nb: seq<seq<Edge>>, t: Tree) {
    && IsSearchTree(t) && |t.parent| == |nb|
    && forall p, w :: IsPath(nb, p) && p[0] == t.root && w == p[|p| - 1] ==> |PathFrom(t, w)| <= |p|
  }

  /**
   * In a tree along stored edges that lists vertices by depth and whose walks
   * back are shortest, vertices come by distance from the root: for `a`
   * listed no later than `b`, some walk from the root to `a` is no longer than
   * any walk from the root to `b`.
   */
  lemma ByDistance(nb: seq<seq<Edge>>, t: Tree)
    requires TreeEdgesInGraph(nb, t) && DepthOrdered(t) && ShortestPaths(nb, t)
    ensures forall i, j, q ::
              0 <= i <= j < |t.searchOrder| && IsPath(nb, q) && q[0] == t.root && q[|q| - 1] == t.searchOrder[j] ==>
                exists p :: IsPath(nb, p) && p[0] == t.root && p[|p| - 1] == t.searchOrder[i] && |p| <= |q|
  {
    forall i, j, q | 0 <= i <= j < |t.searchOrder| && IsPath(nb, q) && q[0] == t.root && q[|q| - 1] == t.searchOrder[j]
      ensures exists p :: IsPath(nb, p) && p[0] == t.root && p[|p| - 1] == t.searchOrder[i] && |p| <= |q|
    {
      var a := t.searchOrder[i];
      var b := t.searchOrder[j];
      assert |PathFrom(t, a)| <= |PathFrom(t, b)|;
      assert |PathFrom(t, b)| <= |q|;
      TreeWalkTo(nb, t, a);
    }
  }

  /** The tree's walk to a discovered vertex, read from the root, is a walk of as many vertices. */
  lemma TreeWalkTo(nb: seq<seq<Edge>>, t: Tree, a: int)
    requires IsSearchTree(t) && TreeEdgesInGraph(nb, t) && a in t.searchOrder
    ensures 0 <= a < |t.parent|
    ensures exists p :: IsPath(nb, p) && p[0] == t.root && p[|p| - 1] == a && |p| == |PathFrom(t, a)|
  {
    PathIsGraphPath(nb, t, a);
    var p := Reverse(PathFrom(t, a));
    assert IsPath(nb, p) && p[0] == t.root && p[|p| - 1] == a;
  }

  /** Putting `index` in front of a walk from its parent gives a walk from `index`. */
  lemma ConsParentWalk(parent: seq<int>, index: int, rest: seq<int>)
    requires 0 <= index < |parent| && |rest| >= 1 && rest[0] == parent[index]
    requires forall k :: 0 <= k < |rest| ==> 0 <= rest[k] < |parent|
    requires forall k :: 0 <= k < |rest| - 1 ==> parent[rest[k]] != -1 && rest[k + 1] == parent[rest[k]]
    requires parent[index] != -1
    ensures forall k :: 0 <= k < |rest| + 1 ==> 0 <= ([index] + rest)[k] < |parent|
    ensures forall k :: 0 <= k < |rest| ==>
              parent[([index] + rest)[k]] != -1 && ([index] + rest)[k + 1] == parent[([index] + rest)[k]]
    ensures ([index] + rest)[|rest|] == rest[|rest| - 1]
  {
    var p := [index] + rest;
    assert forall k :: 1 <= k < |p| ==> p[k] == rest[k - 1];
  }

  /**
   * Walking from a vertex the tree reached ends at the root; walking from a
   * vertex without a parent (an unreached vertex, or the root) yields that
   * vertex alone.
   */
  lemma {:induction false} PathEndsAtRoot(t: Tree, index: int)
    requires IsSearchTree(t) && 0 <= index < |t.parent|
    ensures index in t.searchOrder ==> PathFrom(t, index)[|PathFrom(t, index)| - 1] == t.root
    ensures t.parent[index] == -1 ==> PathFrom(t, index) == [index]
    ensures index !in t.searchOrder ==> PathFrom(t, index) == [index]
    decreases Rank(t, index)
  {
    var next := t.parent[index];
    if next != -1 {
      ParentIsEarlier(t, index);
      PathEndsAtRoot(t, next);
    } else if index in t.searchOrder {
      var k := Pos(t.searchOrder, index);
      if k != 0 {
        assert false;
      }
    }
  }

  /** The reverse of a sequence. */
  function Reverse(s: seq<int>): (r: seq<int>)
    ensures |r| == |s|
    ensures forall k :: 0 <= k < |s| ==> r[k] == s[|s| - 1 - k]
  {
    if s == [] then [] else Reverse(s[1..]) + [s[0]]
  }

  /** Consecutive entries of a walk along parent links are stored edges, read backwards. */
  lemma ParentWalkEdges(nb: seq<seq<Edge>>, t: Tree, index: int)
    requires IsSearchTree(t) && TreeEdgesInGraph(nb, t) && 0 <= index < |t.parent|
    ensures forall k :: 0 <= k < |PathFrom(t, index)| - 1 ==>
              Edge(PathFrom(t, index)[k + 1], PathFrom(t, index)[k]) in nb[PathFrom(t, index)[k + 1]]
  {
  }

  /** A walk whose every step is a stored edge read backwards is, reversed, a walk. */
  lemma ReverseIsPath(nb: seq<seq<Edge>>, p: seq<int>)
    requires |p| >= 1 && forall k :: 0 <= k < |p| ==> 0 <= p[k] < |nb|
    requires forall k :: 0 <= k < |p| - 1 ==> Edge(p[k + 1], p[k]) in nb[p[k + 1]]
    ensures IsPath(nb, Reverse(p))
  {
    BackwardsIsPath(nb, p, Reverse(p));
  }

  /** The same, for any `q` that lists `p` backwards. */
  lemma BackwardsIsPath(nb: seq<seq<Edge>>, p: seq<int>, q: seq<int>)
    requires |p| >= 1 && forall k :: 0 <= k < |p| ==> 0 <= p[k] < |nb|
    requires forall k :: 0 <= k < |p| - 1 ==> Edge(p[k + 1], p[k]) in nb[p[k + 1]]
    requires |q| == |p| && forall k :: 0 <= k < |q| ==> q[k] == p[|p| - 1 - k]
    ensures IsPath(nb, q)
  {
    var m := |p|;
    forall k | 0 <= k < m - 1 ensures Edge(q[k], q[k + 1]) in nb[q[k]] {
      var j := m - 2 - k;
      assert q[k] == p[j + 1] && q[k + 1] == p[j];
    }
  }

  /**
   * When parent links are stored edges, the walk from a reached vertex, read
   * backwards, is a walk in the graph from the root to that vertex.
   */
  lemma PathIsGraphPath(nb: seq<seq<Edge>>, t: Tree, index: int)
    requires IsSearchTree(t) && TreeEdgesInGraph(nb, t)
    requires 0 <= index < |t.parent| && index in t.searchOrder
    ensures IsPath(nb, Reverse(PathFrom(t, index)))
    ensures Reverse(PathFrom(t, index))[0] == t.root
    ensures Reverse(PathFrom(t, index))[|PathFrom(t, index)| - 1] == index
    ensures Reachable(nb, t.root, index)
  {
    var p := PathFrom(t, index);
    PathEndsAtRoot(t, index);
    ParentWalkEdges(nb, t, index);
    ReverseIsPath(nb, p);
    var q := Reverse(p);
    assert q[0] == p[|p| - 1] && q[|q| - 1] == p[0];
  }

  /** Every vertex in the order of a tree along stored edges is reachable from the root. */
  lemma OrderIsReachable(nb: seq<seq<Edge>>, t: Tree)
    requires IsSearchTree(t) && TreeEdgesInGraph(nb, t)
    ensures forall w :: w in t.searchOrder ==> Reachable(nb, t.root, w)
  {
    forall w | w in t.searchOrder ensures Reachable(nb, t.root, w) {
      var k :| 0 <= k < |t.searchOrder| && t.searchOrder[k] == w;
      PathIsGraphPath(nb, t, w);
    }
  }

  /** A list without duplicates has as many elements as its set of values. */
  lemma {:induction false} CardOfNoDuplicates(s: seq<int>)
    requires NoDuplicates(s)
    ensures |set x | x in s| == |s|
  {
    if s != [] {
      var rest := s[1..];
      assert NoDuplicates(rest) by {
        forall i, j | 0 <= i < j < |rest| ensures rest[i] != rest[j] {
          assert rest[i] == s[i + 1] && rest[j] == s[j + 1];
        }
      }
      CardOfNoDuplicates(rest);
      assert (set x | x in s) == (set x | x in rest) + {s[0]};
      assert s[0] !in rest;
    }
  }

  /**
   * A search tree along stored edges whose order is closed under edges has
   * found exactly the vertices reachable from its root, so the number of
   * vertices found is the number of reachable vertices.
   */
  lemma FoundIsReachable(nb: seq<seq<Edge>>, t: Tree)
    requires IsSearchTree(t) && TreeEdgesInGraph(nb, t) && Closed(nb, t.searchOrder)
    ensures forall w :: w in t.searchOrder <==> 0 <= w < |nb| && Reachable(nb, t.root, w)
    ensures (set w | w in t.searchOrder) == ReachableSet(nb, t.root)
    ensures t.GetNumberOfVerticesFound() == |ReachableSet(nb, t.root)|
  {
    OrderIsReachable(nb, t);
    forall w | 0 <= w < |nb| && Reachable(nb, t.root, w) ensures w in t.searchOrder {
      var p :| IsPath(nb, p) && p[0] == t.root && p[|p| - 1] == w;
      ClosedContainsWalk(nb, t.searchOrder, p);
    }
    assert (set w | w in t.searchOrder) == ReachableSet(nb, t.root);
    CardOfNoDuplicates(t.searchOrder);
  }
}
