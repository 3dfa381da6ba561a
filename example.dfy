/**
 * A four-vertex graph A, B, C, D with the edges 0->1, 1->2, 0->2, 2->3, on
 * which the two traversals visit the vertices in the same order but give
 * vertex 2 different parents: depth-first search reaches it through 1,
 * breadth-first search straight from 0, which is the shorter walk.
 */
module Examples {
  import opened Edges
  import opened Adjacency
  import opened SearchTrees
  import SearchStates
  import DepthFirst
  import BreadthFirst
  import opened Graphs

  /** The adjacency lists of the example graph. */
  function ExampleLists(): seq<seq<Edge>> {
    [[Edge(0, 1), Edge(0, 2)], [Edge(1, 2)], [Edge(2, 3)], []]
  }

  lemma ExampleWellFormed()
    ensures WellFormed(ExampleLists())
  {
    var nb := ExampleLists();
    assert ListWellFormed(nb, 0) && ListWellFormed(nb, 1) && ListWellFormed(nb, 2) && ListWellFormed(nb, 3);
  }

  /** Visiting 3, which has no edges, only appends it. */
  lemma DfsExampleVisit3()
    requires WellFormed(ExampleLists())
    ensures DepthFirst.DfsVisit(ExampleLists(), 3, DepthFirst.Search([-1, 0, 1, 2], [0, 1, 2]))
            == DepthFirst.Search([-1, 0, 1, 2], [0, 1, 2, 3])
  {
    assert [0, 1, 2] + [3] == [0, 1, 2, 3];
  }

  /** Visiting 2 makes it the parent of 3 and visits 3. */
  lemma DfsExampleVisit2()
    requires WellFormed(ExampleLists())
    ensures DepthFirst.DfsVisit(ExampleLists(), 2, DepthFirst.Search([-1, 0, 1, -1], [0, 1]))
            == DepthFirst.Search([-1, 0, 1, 2], [0, 1, 2, 3])
  {
    DfsExampleVisit3();
    var nb := ExampleLists();
    var done := DepthFirst.Search([-1, 0, 1, 2], [0, 1, 2, 3]);
    assert DepthFirst.DfsEdges(nb, 2, 1, done) == done;
    assert [-1, 0, 1, -1][3 := 2] == [-1, 0, 1, 2];
    assert [0, 1] + [2] == [0, 1, 2];
  }

  /** Visiting 1 makes it the parent of 2 and visits 2. */
  lemma DfsExampleVisit1()
    requires WellFormed(ExampleLists())
    ensures DepthFirst.DfsVisit(ExampleLists(), 1, DepthFirst.Search([-1, 0, -1, -1], [0]))
            == DepthFirst.Search([-1, 0, 1, 2], [0, 1, 2, 3])
  {
    DfsExampleVisit2();
    var nb := ExampleLists();
    var done := DepthFirst.Search([-1, 0, 1, 2], [0, 1, 2, 3]);
    assert DepthFirst.DfsEdges(nb, 1, 1, done) == done;
    assert [-1, 0, -1, -1][2 := 1] == [-1, 0, 1, -1];
    assert [0] + [1] == [0, 1];
  }

  /** Depth-first search from 0 finds 0, 1, 2, 3 with parents -1, 0, 1, 2. */
  lemma DfsExample()
    ensures WellFormed(ExampleLists())
    ensures DepthFirst.Dfs(ExampleLists(), 0) == Tree(0, [-1, 0, 1, 2], [0, 1, 2, 3])
  {
    ExampleWellFormed();
    DfsExampleVisit1();
    var nb := ExampleLists();
    var p0 := [-1, -1, -1, -1];
    var done := DepthFirst.Search([-1, 0, 1, 2], [0, 1, 2, 3]);
    assert SearchStates.NoParents(4) == p0;
    assert DepthFirst.DfsEdges(nb, 0, 2, done) == done;
    assert DepthFirst.DfsEdges(nb, 0, 1, done) == done;
    assert p0[1 := 0] == [-1, 0, -1, -1];
    assert [] + [0] == [0];
    assert DepthFirst.DfsVisit(nb, 0, DepthFirst.Search(p0, [])) == done;
  }

  /** The scan of the edges of 0, the first vertex dequeued. */
  lemma BfsExampleFirstScan()
    requires WellFormed(ExampleLists())
    ensures BreadthFirst.BfsEdges(ExampleLists(), 0, 0, BreadthFirst.Queued([-1, -1, -1, -1], [0], []))
            == BreadthFirst.Queued([-1, 0, 0, -1], [0], [1, 2])
  {
    var nb := ExampleLists();
    var q1 := BreadthFirst.Queued([-1, 0, -1, -1], [0], [1]);
    var q2 := BreadthFirst.Queued([-1, 0, 0, -1], [0], [1, 2]);
    assert q2.Seen() == [0, 1, 2];
    assert BreadthFirst.BfsEdges(nb, 0, 2, q2) == q2;
    assert [-1, 0, -1, -1][2 := 0] == [-1, 0, 0, -1];
    assert q1.Seen() == [0, 1];
    assert BreadthFirst.BfsEdges(nb, 0, 1, q1) == q2;
    assert [-1, -1, -1, -1][1 := 0] == [-1, 0, -1, -1];
  }

  /** The scan of 1 finds nothing new. */
  lemma BfsExampleScan1()
    requires WellFormed(ExampleLists())
    ensures BreadthFirst.BfsEdges(ExampleLists(), 1, 0, BreadthFirst.Queued([-1, 0, 0, -1], [0, 1], [2]))
            == BreadthFirst.Queued([-1, 0, 0, -1], [0, 1], [2])
  {
    var a := BreadthFirst.Queued([-1, 0, 0, -1], [0, 1], [2]);
    assert a.Seen() == [0, 1, 2];
    assert BreadthFirst.BfsEdges(ExampleLists(), 1, 1, a) == a;
  }

  /** The scan of 2 enqueues 3 with parent 2. */
  lemma BfsExampleScan2()
    requires WellFormed(ExampleLists())
    ensures BreadthFirst.BfsEdges(ExampleLists(), 2, 0, BreadthFirst.Queued([-1, 0, 0, -1], [0, 1, 2], []))
            == BreadthFirst.Queued([-1, 0, 0, 2], [0, 1, 2], [3])
  {
    var b := BreadthFirst.Queued([-1, 0, 0, 2], [0, 1, 2], [3]);
    assert b.Seen() == [0, 1, 2, 3];
    assert BreadthFirst.BfsEdges(ExampleLists(), 2, 1, b) == b;
    assert BreadthFirst.Queued([-1, 0, 0, -1], [0, 1, 2], []).Seen() == [0, 1, 2];
    assert [-1, 0, 0, -1][3 := 2] == [-1, 0, 0, 2];
  }

  /** The round that dequeues 3, the last one. */
  lemma BfsExampleRound3()
    requires WellFormed(ExampleLists())
    ensures BreadthFirst.BfsLoop(ExampleLists(), BreadthFirst.Queued([-1, 0, 0, 2], [0, 1, 2], [3]))
            == BreadthFirst.Queued([-1, 0, 0, 2], [0, 1, 2, 3], [])
  {
    var done := BreadthFirst.Queued([-1, 0, 0, 2], [0, 1, 2, 3], []);
    assert BreadthFirst.BfsEdges(ExampleLists(), 3, 0, done) == done;
    assert BreadthFirst.BfsLoop(ExampleLists(), done) == done;
    assert [0, 1, 2] + [3] == [0, 1, 2, 3];
  }

  /** The last three rounds of the dequeue loop: 1, then 2, then 3. */
  lemma BfsExampleLoopTail()
    requires WellFormed(ExampleLists())
    ensures BreadthFirst.BfsLoop(ExampleLists(), BreadthFirst.Queued([-1, 0, 0, -1], [0, 1], [2]))
            == BreadthFirst.Queued([-1, 0, 0, 2], [0, 1, 2, 3], [])
  {
    BfsExampleScan2();
    BfsExampleRound3();
    assert [0, 1] + [2] == [0, 1, 2];
  }

  /** The dequeue loop from the state after the scan of 0. */
  lemma BfsExampleLoop()
    requires WellFormed(ExampleLists())
    ensures BreadthFirst.BfsLoop(ExampleLists(), BreadthFirst.Queued([-1, 0, 0, -1], [0], [1, 2]))
            == BreadthFirst.Queued([-1, 0, 0, 2], [0, 1, 2, 3], [])
  {
    BfsExampleLoopTail();
    BfsExampleScan1();
    assert [0] + [1] == [0, 1];
  }

  /** Breadth-first search from 0 finds 0, 1, 2, 3 with parents -1, 0, 0, 2. */
  lemma BfsExample()
    ensures WellFormed(ExampleLists())
    ensures BreadthFirst.Bfs(ExampleLists(), 0) == Tree(0, [-1, 0, 0, 2], [0, 1, 2, 3])
  {
    ExampleWellFormed();
    BfsExampleFirstScan();
    BfsExampleLoop();
    var p0 := [-1, -1, -1, -1];
    assert SearchStates.NoParents(4) == p0;
    assert [] + [0] == [0];
  }

  /** A fresh graph with the vertices A, B, C, D and no edges. */
  method ExampleVertices() returns (g: UnweightedGraph<char>)
    ensures fresh(g) && g.Valid()
    ensures g.vertices == ['A', 'B', 'C', 'D'] && g.neighbors == [[], [], [], []]
  {
    g := new UnweightedGraph<char>();
    var _ := g.AddVertex('A');
    var _ := g.AddVertex('B');
    var _ := g.AddVertex('C');
    var _ := g.AddVertex('D');
  }

  /** Build the example graph on a fresh object, vertex by vertex and edge by edge. */
  method BuildExample() returns (g: UnweightedGraph<char>)
    ensures fresh(g) && g.Valid()
    ensures g.vertices == ['A', 'B', 'C', 'D'] && g.neighbors == ExampleLists()
  {
    g := ExampleVertices();
    ghost var e: seq<Edge> := [];
    assert g.neighbors == [e, e, e, e];
    var _ := g.AddEdgeByIndex(0, 1);
    assert e + [Edge(0, 1)] == [Edge(0, 1)];
    assert g.neighbors == [[Edge(0, 1)], e, e, e];
    var _ := g.AddEdgeByIndex(1, 2);
    assert e + [Edge(1, 2)] == [Edge(1, 2)];
    assert g.neighbors == [[Edge(0, 1)], [Edge(1, 2)], e, e];
    var _ := g.AddEdgeByIndex(0, 2);
    assert [Edge(0, 1)] + [Edge(0, 2)] == [Edge(0, 1), Edge(0, 2)];
    assert g.neighbors == [[Edge(0, 1), Edge(0, 2)], [Edge(1, 2)], e, e];
    var _ := g.AddEdgeByIndex(2, 3);
    assert e + [Edge(2, 3)] == [Edge(2, 3)];
  }

  /** The walk back from 3 in the depth-first tree of the example. */
  lemma ExamplePath(t: Tree)
    requires t == Tree(0, [-1, 0, 1, 2], [0, 1, 2, 3]) && IsSearchTree(t)
    ensures PathFrom(t, 3) == [3, 2, 1, 0]
  {
    assert PathFrom(t, 0) == [0];
    assert PathFrom(t, 1) == [1] + PathFrom(t, 0);
    assert PathFrom(t, 2) == [2] + PathFrom(t, 1);
    assert PathFrom(t, 3) == [3] + PathFrom(t, 2);
  }

  /**
   * Depth-first search from 0 on the example graph, and the walk back from 3
   * in its tree: D, C, B, A.
   */
  method ExampleDfs() returns (dfs: Tree, path: seq<char>)
    ensures dfs.searchOrder == [0, 1, 2, 3] && dfs.parent == [-1, 0, 1, 2] && dfs.GetParent(2) == 1
    ensures path == ['D', 'C', 'B', 'A']
  {
    var g := BuildExample();
    DfsExample();
    dfs := g.Dfs(0);
    path := g.GetPath(dfs, 3);
    ExamplePath(dfs);
  }

  /** The example graph and its depth-first tree from 0. */
  method ExampleDfsTree() returns (g: UnweightedGraph<char>, dfs: Tree)
    ensures fresh(g) && g.Valid() && g.vertices == ['A', 'B', 'C', 'D']
    ensures dfs == Tree(0, [-1, 0, 1, 2], [0, 1, 2, 3]) && IsSearchTree(dfs)
  {
    g := BuildExample();
    DfsExample();
    dfs := g.Dfs(0);
  }

  /**
   * A tree taken before a vertex is added still gives its walks afterwards:
   * the walk back from 3 is D, C, B, A once E has been added.
   */
  method ExamplePathAfterGrowth() returns (path: seq<char>)
    ensures path == ['D', 'C', 'B', 'A']
  {
    var g, dfs := ExampleDfsTree();
    var added := g.AddVertex('E');
    assert added && g.vertices == ['A', 'B', 'C', 'D', 'E'];
    path := g.GetPath(dfs, 3);
    ExamplePath(dfs);
  }

  /** In the depth-first tree of the example the walk back from 2 goes through 1. */
  lemma DfsTreeWalk(t: Tree)
    requires t == Tree(0, [-1, 0, 1, 2], [0, 1, 2, 3]) && IsSearchTree(t)
    ensures PathFrom(t, 2) == [2, 1, 0]
  {
    assert PathFrom(t, 0) == [0];
    assert PathFrom(t, 1) == [1] + PathFrom(t, 0);
    assert PathFrom(t, 2) == [2] + PathFrom(t, 1);
  }

  /**
   * Depth-first search does not find shortest walks: the edge 0 -> 2 is a
   * walk of two vertices, while its tree walks back from 2 through 1, so the
   * tree is not one of shortest walks.
   */
  lemma DfsNotShortest()
    ensures IsSearchTree(DepthFirst.Dfs(ExampleLists(), 0))
    ensures IsPath(ExampleLists(), [0, 2]) && |PathFrom(DepthFirst.Dfs(ExampleLists(), 0), 2)| == 3
    ensures !ShortestPaths(ExampleLists(), DepthFirst.Dfs(ExampleLists(), 0))
  {
    DfsExample();
    var nb := ExampleLists();
    DepthFirst.DfsSpec(nb, 0);
    var t := DepthFirst.Dfs(nb, 0);
    DfsTreeWalk(t);
    var p := [0, 2];
    assert IsPath(nb, p) && p[0] == t.root && p[|p| - 1] == 2;
  }

  /** Breadth-first search from 0 on the example graph: 2 is reached straight from 0. */
  method ExampleBfs() returns (bfs: Tree)
    ensures bfs.searchOrder == [0, 1, 2, 3] && bfs.parent == [-1, 0, 0, 2] && bfs.GetParent(2) == 0
    ensures ShortestPaths(ExampleLists(), bfs)
  {
    var g := BuildExample();
    BfsExample();
    bfs := g.Bfs(0);
  }

  /**
   * On the example graph, inserting 0 -> 1 again is rejected with `false`,
   * and inserting 3 -> 4 fails with a range error naming 4.
   */
  method ExampleEdges() returns (again: Result<bool>, bad: Result<bool>)
    ensures again == Ok(false) && bad == Err(NoSuchIndex(4))
  {
    var g := BuildExample();
    again := g.AddEdgeByIndex(0, 1);
    bad := g.AddEdgeByIndex(3, 4);
  }
}
