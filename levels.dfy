/**
 * Levels of a traversal state: the number of parent links from a discovered
 * vertex back to one without a parent. Breadth-first search discovers
 * vertices level by level, and a state whose every edge rises by at most one
 * level measures shortest walks. These facts are independent of how the
 * state was built; the search itself is in `BreadthFirst`.
 */
module Levels {
  import opened Edges
  import opened Adjacency
  import opened SearchTrees
  import opened SearchStates

  /** Parents are discovered before their children, and the order is in range of the parent entries. */
  ghost predicate Leveled(parent: seq<int>, order: seq<int>) {
    && EarlierParents(parent, order)
    && forall k :: 0 <= k < |order| ==> 0 <= order[k] < |parent|
  }

  /** A value at position `j` has its first position at `j` or before. */
  lemma {:induction false} PosAtMost(s: seq<int>, x: int, j: int)
    requires 0 <= j < |s| && s[j] == x
    ensures Pos(s, x) <= j
  {
    if s[0] != x {
      PosAtMost(s[1..], x, j - 1);
    }
  }

  /** The parent of a discovered vertex is discovered, strictly earlier. */
  lemma ParentPos(parent: seq<int>, order: seq<int>, x: int)
    requires Leveled(parent, order) && x in order && parent[x] != -1
    ensures parent[x] in order && Pos(order, parent[x]) < Pos(order, x)
  {
    var k := Pos(order, x);
    assert parent[order[k]] in order[..k];
    var j :| 0 <= j < k && order[..k][j] == parent[x];
    PosAtMost(order, parent[x], j);
  }

  /** The number of parent links from the discovered `x` back to a vertex without a parent. */
  ghost function Level(parent: seq<int>, order: seq<int>, x: int): nat
    requires Leveled(parent, order) && x in order
    decreases Pos(order, x)
  {
    if parent[x] == -1 then 0
    else
      ParentPos(parent, order, x);
      1 + Level(parent, order, parent[x])
  }

  /** Discovering `w` from the discovered `u` leaves the level of every discovered vertex as it was. */
  lemma {:induction false} LevelDiscover(parent: seq<int>, order: seq<int>, w: int, u: int, x: int)
    requires Leveled(parent, order) && 0 <= w < |parent| && w !in order && u in order && x in order
    ensures Leveled(parent[w := u], order + [w]) && x in order + [w]
    ensures Level(parent[w := u], order + [w], x) == Level(parent, order, x)
    decreases Pos(order, x)
  {
    DiscoverEarlier(parent, order, w, u);
    var o := order + [w];
    assert forall k :: 0 <= k < |o| ==> 0 <= o[k] < |parent|;
    if parent[x] != -1 {
      ParentPos(parent, order, x);
      LevelDiscover(parent, order, w, u, parent[x]);
    }
  }

  /** A vertex discovered from `u` sits one level below `u`. */
  lemma LevelNew(parent: seq<int>, order: seq<int>, w: int, u: int)
    requires Leveled(parent, order) && 0 <= w < |parent| && w !in order && u in order
    ensures Leveled(parent[w := u], order + [w]) && w in order + [w]
    ensures Level(parent[w := u], order + [w], w) == Level(parent, order, u) + 1
  {
    LevelDiscover(parent, order, w, u, u);
  }

  /** The level of the vertex at position `i` of the order. */
  ghost function LevelAt(parent: seq<int>, seen: seq<int>, i: int): nat
    requires Leveled(parent, seen) && 0 <= i < |seen|
  {
    Level(parent, seen, seen[i])
  }

  /** Levels never decrease along the order. */
  ghost predicate Monotone(parent: seq<int>, seen: seq<int>) {
    && Leveled(parent, seen)
    && forall i, j :: 0 <= i <= j < |seen| ==> LevelAt(parent, seen, i) <= LevelAt(parent, seen, j)
  }

  /** From position `from` on, levels exceed that of `seen[from]` by at most one. */
  ghost predicate Spread(parent: seq<int>, seen: seq<int>, from: int) {
    && Leveled(parent, seen)
    && forall j :: 0 <= from <= j < |seen| ==> LevelAt(parent, seen, j) <= LevelAt(parent, seen, from) + 1
  }

  /** The spread from a position carries over to the next one. */
  lemma SpreadShift(parent: seq<int>, seen: seq<int>, from: int)
    requires Monotone(parent, seen) && Spread(parent, seen, from) && from >= 0
    ensures Spread(parent, seen, from + 1)
  {
    forall j | from + 1 <= j < |seen|
      ensures LevelAt(parent, seen, j) <= LevelAt(parent, seen, from + 1) + 1
    {
      assert LevelAt(parent, seen, j) <= LevelAt(parent, seen, from) + 1;
      assert LevelAt(parent, seen, from) <= LevelAt(parent, seen, from + 1);
    }
  }

  /**
   * Discovering `w` from `seen[from]` keeps levels monotone and spread from
   * `from`: the new vertex is one level below its parent and no other level
   * changes.
   */
  lemma Discover(parent: seq<int>, seen: seq<int>, from: int, w: int)
    requires Monotone(parent, seen) && Spread(parent, seen, from) && 0 <= from < |seen|
    requires 0 <= w < |parent| && w !in seen
    ensures Monotone(parent[w := seen[from]], seen + [w]) && Spread(parent[w := seen[from]], seen + [w], from)
    ensures Level(parent[w := seen[from]], seen + [w], w) == Level(parent, seen, seen[from]) + 1
    ensures forall x :: x in seen ==> Level(parent[w := seen[from]], seen + [w], x) == Level(parent, seen, x)
  {
    var u := seen[from];
    var p := parent[w := u];
    var s := seen + [w];
    LevelNew(parent, seen, w, u);
    forall x | x in seen ensures Level(p, s, x) == Level(parent, seen, x) {
      LevelDiscover(parent, seen, w, u, x);
    }
    forall i, j | 0 <= i <= j < |s| ensures LevelAt(p, s, i) <= LevelAt(p, s, j) {
      if j < |seen| {
        assert s[i] == seen[i] && s[j] == seen[j];
        assert LevelAt(parent, seen, i) <= LevelAt(parent, seen, j);
      } else if i < |seen| {
        assert s[i] == seen[i] && s[j] == w;
        if i < from {
          assert LevelAt(parent, seen, i) <= LevelAt(parent, seen, from);
        } else {
          assert LevelAt(parent, seen, i) <= LevelAt(parent, seen, from) + 1;
        }
      }
    }
    forall j | 0 <= from <= j < |s| ensures LevelAt(p, s, j) <= LevelAt(p, s, from) + 1 {
      assert s[from] == u;
      if j < |seen| {
        assert s[j] == seen[j];
        assert LevelAt(parent, seen, j) <= LevelAt(parent, seen, from) + 1;
      }
    }
  }

  /** Every edge leaving the discovered `x` ends at a discovered vertex at most one level below `x`. */
  ghost predicate ShortEdges(nb: seq<seq<Edge>>, parent: seq<int>, seen: seq<int>, x: int) {
    && Leveled(parent, seen) && x in seen && 0 <= x < |nb|
    && forall e :: e in nb[x] ==> e.v in seen && Level(parent, seen, e.v) <= Level(parent, seen, x) + 1
  }

  /** The first `n` vertices of the order have short edges. */
  ghost predicate AllShort(nb: seq<seq<Edge>>, parent: seq<int>, seen: seq<int>, n: int) {
    forall k {:trigger ShortEdges(nb, parent, seen, seen[k])} :: 0 <= k < n && k < |seen| ==> ShortEdges(nb, parent, seen, seen[k])
  }

  /** Discovering a new vertex keeps the edges of a discovered vertex short. */
  lemma ShortEdgesDiscover(nb: seq<seq<Edge>>, parent: seq<int>, seen: seq<int>, w: int, u: int, x: int)
    requires ShortEdges(nb, parent, seen, x) && 0 <= w < |parent| && w !in seen && u in seen
    ensures ShortEdges(nb, parent[w := u], seen + [w], x)
  {
    LevelDiscover(parent, seen, w, u, x);
    forall e | e in nb[x]
      ensures e.v in seen + [w] && Level(parent[w := u], seen + [w], e.v) <= Level(parent[w := u], seen + [w], x) + 1
    {
      LevelDiscover(parent, seen, w, u, e.v);
    }
  }

  /**
   * The levels while the edges of `u = seen[m]` are scanned up to the `j`-th:
   * monotone, within one of `u`'s from `u` on, the scanned edges of `u` short,
   * and the edges of every vertex before `u` short.
   */
  ghost predicate ScanLevels(nb: seq<seq<Edge>>, parent: seq<int>, seen: seq<int>, m: int, j: int) {
    && Monotone(parent, seen) && Spread(parent, seen, m) && 0 <= m < |seen| && 0 <= seen[m] < |nb|
    && 0 <= j <= |nb[seen[m]]|
    && (forall i :: 0 <= i < j ==>
          nb[seen[m]][i].v in seen && Level(parent, seen, nb[seen[m]][i].v) <= Level(parent, seen, seen[m]) + 1)
    && AllShort(nb, parent, seen, m)
  }

  /** An edge of `u` to a vertex already discovered is short. */
  lemma ScanKnown(nb: seq<seq<Edge>>, parent: seq<int>, seen: seq<int>, m: int, j: int)
    requires ScanLevels(nb, parent, seen, m, j) && j < |nb[seen[m]]| && nb[seen[m]][j].v in seen
    ensures ScanLevels(nb, parent, seen, m, j + 1)
  {
    var w := nb[seen[m]][j].v;
    var pw :| 0 <= pw < |seen| && seen[pw] == w;
    if pw < m {
      assert LevelAt(parent, seen, pw) <= LevelAt(parent, seen, m);
    } else {
      assert LevelAt(parent, seen, pw) <= LevelAt(parent, seen, m) + 1;
    }
  }

  /** An edge of `u` to a new vertex discovers it one level below `u`. */
  lemma ScanNew(nb: seq<seq<Edge>>, parent: seq<int>, seen: seq<int>, m: int, j: int, u: int, w: int)
    requires ScanLevels(nb, parent, seen, m, j) && seen[m] == u && j < |nb[u]| && nb[u][j].v == w
    requires 0 <= w < |parent| && w !in seen
    ensures ScanLevels(nb, parent[w := u], seen + [w], m, j + 1)
  {
    var p := parent[w := u];
    var s := seen + [w];
    Discover(parent, seen, m, w);
    assert s[m] == u;
    forall k | 0 <= k < m ensures ShortEdges(nb, p, s, s[k]) {
      assert s[k] == seen[k];
      ShortEdgesDiscover(nb, parent, seen, w, u, seen[k]);
    }
    forall i | 0 <= i < j + 1 ensures nb[u][i].v in s && Level(p, s, nb[u][i].v) <= Level(p, s, u) + 1 {
      if i < j {
        assert nb[u][i].v in seen;
      }
    }
  }

  /** Once every edge of `u` is scanned, the edges of `u` are short as well. */
  lemma ScanDone(nb: seq<seq<Edge>>, parent: seq<int>, seen: seq<int>, m: int)
    requires 0 <= m < |seen| && 0 <= seen[m] < |nb| && ScanLevels(nb, parent, seen, m, |nb[seen[m]]|)
    ensures AllShort(nb, parent, seen, m + 1)
  {
    var u := seen[m];
    forall e | e in nb[u] ensures e.v in seen && Level(parent, seen, e.v) <= Level(parent, seen, u) + 1 {
      var i :| 0 <= i < |nb[u]| && nb[u][i] == e;
    }
    assert ShortEdges(nb, parent, seen, seen[m]);
  }

  /** When every discovered vertex has short edges, a walk rises by at most one level per edge. */
  lemma {:induction false} WalkBound(nb: seq<seq<Edge>>, parent: seq<int>, order: seq<int>, p: seq<int>)
    requires IsPath(nb, p) && Leveled(parent, order) && p[0] in order
    requires AllShort(nb, parent, order, |order|)
    ensures p[|p| - 1] in order
    ensures Level(parent, order, p[|p| - 1]) <= Level(parent, order, p[0]) + |p| - 1
  {
    if |p| > 1 {
      var q := p[..|p| - 1];
      assert IsPath(nb, q);
      WalkBound(nb, parent, order, q);
      var a := p[|p| - 2];
      var k :| 0 <= k < |order| && order[k] == a;
      assert ShortEdges(nb, parent, order, order[k]);
      assert Edge(a, p[|p| - 1]) in nb[a];
    }
  }

  /** A search tree's parents are discovered before their children. */
  lemma SearchTreeLeveled(t: Tree)
    requires IsSearchTree(t)
    ensures Leveled(t.parent, t.searchOrder)
  {
    var order := t.searchOrder;
    forall k | 0 <= k < |order| && 0 <= order[k] < |t.parent|
      ensures t.parent[order[k]] == -1 || t.parent[order[k]] in order[..k]
    {
      if k == 0 {
        assert order[k] == t.root;
      }
    }
  }

  /** The walk from a discovered vertex has one entry more than the vertex has levels. */
  lemma {:induction false} DepthIsLevel(t: Tree, w: int)
    requires IsSearchTree(t) && w in t.searchOrder
    ensures Leveled(t.parent, t.searchOrder) && 0 <= w < |t.parent|
    ensures |PathFrom(t, w)| == Level(t.parent, t.searchOrder, w) + 1
    decreases Rank(t, w)
  {
    SearchTreeLeveled(t);
    if t.parent[w] != -1 {
      ParentIsEarlier(t, w);
      DepthIsLevel(t, t.parent[w]);
    }
  }

  /**
   * A search tree whose levels are monotone along the order and whose every
   * discovered vertex has short edges lists its vertices by depth, and its
   * parent walks are shortest walks from the root.
   */
  lemma LevelsGiveShortestPaths(nb: seq<seq<Edge>>, t: Tree)
    requires IsSearchTree(t) && |t.parent| == |nb| && Monotone(t.parent, t.searchOrder)
    requires AllShort(nb, t.parent, t.searchOrder, |t.searchOrder|)
    ensures DepthOrdered(t) && ShortestPaths(nb, t)
  {
    var order := t.searchOrder;
    forall i, j | 0 <= i <= j < |order| ensures |PathFrom(t, order[i])| <= |PathFrom(t, order[j])| {
      DepthIsLevel(t, order[i]);
      DepthIsLevel(t, order[j]);
      assert LevelAt(t.parent, order, i) <= LevelAt(t.parent, order, j);
    }
    forall p, w | IsPath(nb, p) && p[0] == t.root && w == p[|p| - 1] ensures |PathFrom(t, w)| <= |p| {
      DepthIsLevel(t, t.root);
      WalkBound(nb, t.parent, order, p);
      DepthIsLevel(t, w);
    }
  }
}
