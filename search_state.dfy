/**
 * Facts shared by both traversals about the state they build up: a parent
 * entry per vertex and a discovery order. Each invariant is its own
 * predicate so that each can be carried through a traversal on its own.
 */
module SearchStates {
  import opened Edges
  import opened Adjacency
  import opened SearchTrees

  /** The indices `0, 1, ..., n - 1`. */
  function Upto(n: nat): (r: seq<int>)
    ensures |r| == n && forall i :: 0 <= i < n ==> r[i] == i
  {
    if n == 0 then [] else Upto(n - 1) + [n - 1]
  }

  /** Distinct vertices in `[0, n)` number at most `n`. */
  lemma NoDuplicatesBound(s: seq<int>, n: nat)
    requires NoDuplicates(s) && forall k :: 0 <= k < |s| ==> 0 <= s[k] < n
    ensures |s| <= n
  {
    var all := Upto(n);
    CardOfNoDuplicates(s);
    CardOfNoDuplicates(all);
    var a := set x | x in s;
    var b := set x | x in all;
    forall x | x in a ensures x in b {
      assert all[x] == x;
    }
    assert a - b == {} && a * b == a && a + b == b;
    assert |a - b| + |b - a| + |a * b| == |a + b|;
  }

  /** Appending a vertex not yet discovered keeps the order distinct and in range. */
  lemma AppendFresh(n: nat, order: seq<int>, w: int)
    requires NoDuplicates(order) && (forall k :: 0 <= k < |order| ==> 0 <= order[k] < n)
    requires 0 <= w < n && w !in order
    ensures NoDuplicates(order + [w]) && (forall k :: 0 <= k < |order| + 1 ==> 0 <= (order + [w])[k] < n)
    ensures |order| < n
  {
    NoDuplicatesBound(order + [w], n);
  }

  /** `a` is a prefix of `b`. */
  ghost predicate Extends(b: seq<int>, a: seq<int>) {
    |a| <= |b| && b[..|a|] == a
  }

  lemma ExtendsTrans(c: seq<int>, b: seq<int>, a: seq<int>)
    requires Extends(c, b) && Extends(b, a)
    ensures Extends(c, a)
  {
    assert c[..|a|] == c[..|b|][..|a|];
  }

  /** All edges leaving `x` end in a vertex of `order`. */
  ghost predicate Finished(nb: seq<seq<Edge>>, order: seq<int>, x: int)
    requires 0 <= x < |nb|
  {
    forall e :: e in nb[x] ==> e.v in order
  }

  /** A finished vertex stays finished as the order grows. */
  lemma FinishedGrows(nb: seq<seq<Edge>>, a: seq<int>, b: seq<int>, x: int)
    requires 0 <= x < |nb| && Finished(nb, a, x) && Extends(b, a)
    ensures Finished(nb, b, x)
  {
    forall e | e in nb[x] ensures e.v in b {
      assert e.v in b[..|a|];
    }
  }

  /** Every edge of `u` up to the `j`-th ends in `order`. */
  ghost predicate ScannedUpTo(nb: seq<seq<Edge>>, u: int, j: int, order: seq<int>)
    requires 0 <= u < |nb| && 0 <= j <= |nb[u]|
  {
    forall i :: 0 <= i < j ==> nb[u][i].v in order
  }

  /** Scanning every edge of `u` finishes it. */
  lemma ScannedAllFinished(nb: seq<seq<Edge>>, u: int, order: seq<int>)
    requires 0 <= u < |nb| && ScannedUpTo(nb, u, |nb[u]|, order)
    ensures Finished(nb, order, u)
  {
    forall e | e in nb[u] ensures e.v in order {
      var i :| 0 <= i < |nb[u]| && nb[u][i] == e;
    }
  }

  /** The parent entries a traversal starts from: every one is -1. */
  function NoParents(n: nat): (p: seq<int>)
    ensures |p| == n && forall i :: 0 <= i < n ==> p[i] == -1
  {
    seq(n, _ => -1)
  }

  /** Every parent entry other than -1 is a stored edge into its vertex. */
  ghost predicate ParentEdges(nb: seq<seq<Edge>>, parent: seq<int>) {
    forall i :: 0 <= i < |nb| && 0 <= i < |parent| && parent[i] != -1 ==>
      0 <= parent[i] < |nb| && Edge(parent[i], i) in nb[parent[i]]
  }

  /** Every discovered vertex has no parent or a parent discovered before it. */
  ghost predicate EarlierParents(parent: seq<int>, order: seq<int>) {
    forall k {:trigger parent[order[k]]} :: 0 <= k < |order| && 0 <= order[k] < |parent| ==>
      parent[order[k]] == -1 || parent[order[k]] in order[..k]
  }

  /** Every discovered vertex but the first has a parent. */
  ghost predicate LaterHaveParents(parent: seq<int>, order: seq<int>) {
    forall k :: 1 <= k < |order| && 0 <= order[k] < |parent| ==> parent[order[k]] != -1
  }

  /** Undiscovered vertices other than `except` have no parent. */
  ghost predicate Orphans(parent: seq<int>, order: seq<int>, except: int) {
    forall i :: 0 <= i < |parent| && i !in order && i != except ==> parent[i] == -1
  }

  /** Appending a vertex whose parent is discovered keeps parents earlier. */
  lemma AppendEarlier(parent: seq<int>, order: seq<int>, u: int)
    requires EarlierParents(parent, order) && 0 <= u < |parent|
    requires parent[u] == -1 || parent[u] in order
    ensures EarlierParents(parent, order + [u])
  {
    var o := order + [u];
    forall k | 0 <= k < |o| && 0 <= o[k] < |parent|
      ensures parent[o[k]] == -1 || parent[o[k]] in o[..k]
    {
      if k < |order| {
        assert o[k] == order[k] && o[..k] == order[..k];
      } else {
        assert o[..k] == order;
      }
    }
  }

  /** Giving an undiscovered `w` the discovered parent `u` keeps parents earlier. */
  lemma SetParentEarlier(parent: seq<int>, order: seq<int>, w: int, u: int)
    requires EarlierParents(parent, order) && 0 <= w < |parent| && w !in order
    ensures EarlierParents(parent[w := u], order)
  {
    var p := parent[w := u];
    forall k | 0 <= k < |order| && 0 <= order[k] < |p|
      ensures p[order[k]] == -1 || p[order[k]] in order[..k]
    {
      assert order[k] != w;
      assert p[order[k]] == parent[order[k]];
    }
  }

  /** Discovering `w` from the discovered `u` keeps parents earlier. */
  lemma DiscoverEarlier(parent: seq<int>, order: seq<int>, w: int, u: int)
    requires EarlierParents(parent, order) && 0 <= w < |parent| && w !in order && u in order
    ensures EarlierParents(parent[w := u], order + [w])
  {
    SetParentEarlier(parent, order, w, u);
    AppendEarlier(parent[w := u], order, w);
  }

  /** Appending a vertex that has a parent keeps later vertices parented. */
  lemma AppendLater(parent: seq<int>, order: seq<int>, u: int)
    requires LaterHaveParents(parent, order) && 0 <= u < |parent|
    requires order != [] ==> parent[u] != -1
    ensures LaterHaveParents(parent, order + [u])
  {
    var o := order + [u];
    forall k | 1 <= k < |o| && 0 <= o[k] < |parent| ensures parent[o[k]] != -1 {
      if k < |order| { assert o[k] == order[k]; }
    }
  }

  /** Giving an undiscovered `w` a parent `u >= 0` keeps later vertices parented. */
  lemma SetParentLater(parent: seq<int>, order: seq<int>, w: int, u: int)
    requires LaterHaveParents(parent, order) && 0 <= w < |parent| && w !in order && u >= 0
    ensures LaterHaveParents(parent[w := u], order)
  {
    var p := parent[w := u];
    forall k | 1 <= k < |order| && 0 <= order[k] < |p| ensures p[order[k]] != -1 {
      assert order[k] != w;
    }
  }

  /** Discovering `w` from `u >= 0` keeps later vertices parented. */
  lemma DiscoverLater(parent: seq<int>, order: seq<int>, w: int, u: int)
    requires LaterHaveParents(parent, order) && 0 <= w < |parent| && w !in order && u >= 0
    ensures LaterHaveParents(parent[w := u], order + [w])
  {
    SetParentLater(parent, order, w, u);
    AppendLater(parent[w := u], order, w);
  }

  /**
   * A finished traversal state whose order starts at `root` and satisfies the
   * invariants above is a search tree along stored edges, closed under edges.
   */
  lemma ToSearchTree(nb: seq<seq<Edge>>, root: int, parent: seq<int>, order: seq<int>)
    requires |parent| == |nb| && |order| >= 1 && order[0] == root
    requires NoDuplicates(order) && (forall k :: 0 <= k < |order| ==> 0 <= order[k] < |nb|)
    requires EarlierParents(parent, order) && LaterHaveParents(parent, order)
    requires Orphans(parent, order, -1) && ParentEdges(nb, parent)
    requires forall k :: 0 <= k < |order| ==> Finished(nb, order, order[k])
    ensures IsSearchTree(Tree(root, parent, order))
    ensures TreeEdgesInGraph(nb, Tree(root, parent, order))
    ensures Closed(nb, order)
  {
    assert parent[order[0]] == -1;
    forall k | 1 <= k < |order| ensures parent[order[k]] in order[..k] {
      assert parent[order[k]] != -1;
    }
  }
}
