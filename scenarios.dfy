/**
 * Concrete runs of the backends, following the repository's unit tests and
 * one run that shows how `AdjListGraph` can hand out an id already in use.
 */
module Scenarios {
  import AdjMatrix
  import AdjList

  /**
   * The cycle 1 -> 2 -> 3 -> 1, then its nodes removed one by one: the
   * (node count, edge count) pairs after building it and after each removal.
   */
  method RemoveNodesOfCycle() returns (counts: seq<(nat, nat)>)
    ensures counts == [(3, 3), (2, 1), (1, 0), (0, 0)]
  {
    var g := BuildCycle();
    counts := [(g.NodeCount(), g.EdgeCount())];
    RemoveFirst(g);
    counts := counts + [(g.NodeCount(), g.EdgeCount())];
    RemoveSecond(g);
    counts := counts + [(g.NodeCount(), g.EdgeCount())];
    g.RemoveNode(3);
    counts := counts + [(g.NodeCount(), g.EdgeCount())];
  }

  method BuildCycle() returns (g: AdjMatrix.AdjMatrixGraph<int>)
    ensures fresh(g) && g.Valid() && g.nodes == [1, 2, 3] && g.edgeCount == 3
    ensures g.edges.Keys == {1, 2, 3} && g.edges[1] == [2] && g.edges[2] == [3] && g.edges[3] == [1]
  {
    g := new AdjMatrix.AdjMatrixGraph<int>();
    g.AddEdge(1, 2);
    assert g.nodes == [1, 2] && g.edges.Keys == {1, 2} && g.edges[1] == [2] && g.edges[2] == [];
    LinkSecond(g);
    LinkThird(g);
  }

  method LinkSecond(g: AdjMatrix.AdjMatrixGraph<int>)
    requires g.Valid() && g.nodes == [1, 2] && g.edgeCount == 1
    requires g.edges.Keys == {1, 2} && g.edges[1] == [2] && g.edges[2] == []
    modifies g
    ensures g.Valid() && g.nodes == [1, 2, 3] && g.edgeCount == 2
    ensures g.edges.Keys == {1, 2, 3} && g.edges[1] == [2] && g.edges[2] == [3] && g.edges[3] == []
  {
    g.AddEdge(2, 3);
  }

  method LinkThird(g: AdjMatrix.AdjMatrixGraph<int>)
    requires g.Valid() && g.nodes == [1, 2, 3] && g.edgeCount == 2
    requires g.edges.Keys == {1, 2, 3} && g.edges[1] == [2] && g.edges[2] == [3] && g.edges[3] == []
    modifies g
    ensures g.Valid() && g.nodes == [1, 2, 3] && g.edgeCount == 3
    ensures g.edges.Keys == {1, 2, 3} && g.edges[1] == [2] && g.edges[2] == [3] && g.edges[3] == [1]
  {
    g.AddEdge(3, 1);
  }

  method RemoveFirst(g: AdjMatrix.AdjMatrixGraph<int>)
    requires g.Valid() && g.nodes == [1, 2, 3] && g.edgeCount == 3
    requires g.edges.Keys == {1, 2, 3} && g.edges[1] == [2] && g.edges[2] == [3] && g.edges[3] == [1]
    modifies g
    ensures g.Valid() && g.nodes == [2, 3] && g.edgeCount == 1
    ensures g.edges.Keys == {2, 3} && g.edges[2] == [3] && g.edges[3] == []
  {
    FirstRemoved(g.edges);
    g.RemoveNode(1);
  }

  /** What removing node 1 does to the lists of the cycle. */
  lemma FirstRemoved(m: map<int, seq<int>>)
    requires m.Keys == {1, 2, 3} && m[1] == [2] && m[2] == [3] && m[3] == [1]
    ensures AdjMatrix.Forgotten([1, 2, 3], 1) == [2, 3]
    ensures |m[1]| + |AdjMatrix.Holders(m - {1}, 1)| == 2
    ensures var u := AdjMatrix.Unlinked(m, 1); u.Keys == {2, 3} && u[2] == [3] && u[3] == []
  {
    assert AdjMatrix.Holders(m - {1}, 1) == {3};
    assert AdjMatrix.Forgotten([1], 1) == [];
    assert AdjMatrix.Forgotten([3], 1) == [3];
  }

  method RemoveSecond(g: AdjMatrix.AdjMatrixGraph<int>)
    requires g.Valid() && g.nodes == [2, 3] && g.edgeCount == 1
    requires g.edges.Keys == {2, 3} && g.edges[2] == [3] && g.edges[3] == []
    modifies g
    ensures g.Valid() && g.nodes == [3] && g.edgeCount == 0
  {
    assert AdjMatrix.Holders(g.edges - {2}, 2) == {};
    assert AdjMatrix.Forgotten([2, 3], 2) == [3];
    g.RemoveNode(2);
  }

  /**
   * An edge whose source id was never issued, followed by `add_node`: the new
   * node receives that id and its fresh empty set replaces the edge, while the
   * counter still reports it.
   */
  method ForeignEdgeOverwritten() returns (id: AdjList.Index, before: bool, after: bool, count: nat)
    ensures id == AdjList.Index(1)
    ensures before && !after
    ensures count == 1
  {
    var g := new AdjList.AdjListGraph();
    g.AddEdge(AdjList.Index(1), AdjList.Index(2));
    before := g.HasEdge(AdjList.Index(1), AdjList.Index(2));
    id := g.AddNode();
    after := g.HasEdge(AdjList.Index(1), AdjList.Index(2));
    count := g.EdgeCount();
  }
}
