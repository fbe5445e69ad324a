/**
 * The free-function algorithms of src/utils.rs, written against the same
 * object-keyed contract as the library's `Dfs` and `Dijkstra`.
 */
module Utils {
  import opened Wrappers
  import opened GraphContract
  import Dijkstra

  /**
   * `inner_dfs` of src/utils.rs. It differs from the library's `Dfs::inner_dfs`
   * in one place: a node is marked visited only when `iter_adj` has an entry for
   * it, so a node without one is never marked (it has nothing to expand).
   */
  method InnerDfs<N(==)>(g: View<N>, visited: set<N>, cur: seq<N>, to: N)
    returns (found: bool, visited': set<N>, cur': seq<N>)
    requires |cur| >= 1 && IsPath(g, cur) && Distinct(cur)
    requires forall k :: 0 <= k < |cur| - 1 ==> cur[k] in visited
    requires cur[|cur| - 1] !in visited && to !in visited
    ensures visited <= visited'
    ensures found ==> |cur| <= |cur'| && cur'[..|cur|] == cur
    ensures found ==> IsPath(g, cur') && Distinct(cur') && cur'[|cur'| - 1] == to
    ensures !found ==> cur' == cur && to !in visited'
    ensures !found ==> Covered(g, visited', cur[|cur| - 1], to)
    ensures !found ==> ClosedOver(g, visited', visited' - visited, to)
    decreases |(Targets(g) + {cur[0]}) - visited|
  {
    var from := cur[|cur| - 1];
    if from == to {
      return true, visited, cur;
    }
    visited', cur' := visited, cur;
    var entry := g.IterAdj(from);
    if entry.Some? {
      var adj := entry.value;
      visited' := visited + {from};
      ghost var universe := Targets(g) + {cur[0]};
      assert from in universe by {
        if |cur| > 1 {
          assert g.HasEdge(cur[|cur| - 2], from);
        }
      }
      var i := 0;
      while i < |adj|
        invariant 0 <= i <= |adj|
        invariant cur' == cur
        invariant visited + {from} <= visited' && to !in visited'
        invariant forall j :: 0 <= j < i ==> Covered(g, visited', adj[j], to)
        invariant ClosedOver(g, visited', visited' - visited - {from}, to)
      {
        var a := adj[i];
        if a !in visited' {
          ghost var before := visited';
          VisitShrinks(universe, visited, before, from);
          assert g.HasEdge(from, a);
          PushNeighbour(g, visited', cur, a);
          cur' := cur' + [a];
          var f;
          f, visited', cur' := InnerDfs(g, visited', cur', to);
          if f {
            PrefixKept(cur, a, cur');
            return true, visited', cur';
          }
          ChildExhausted(g, visited, from, adj, i, before, visited', to);
          cur' := cur'[..|cur'| - 1];
        }
        i := i + 1;
      }
      NeighboursExhausted(g, visited, visited', from, adj, to);
    }
    found := false;
  }

  /**
   * `dfs` of src/utils.rs: the same contract as the library's `Dfs::run`.
   */
  method Dfs<N(==)>(g: View<N>, from: N, to: N) returns (r: Option<seq<N>>)
    ensures r.Some? ==> |r.value| >= 2 && PathBetween(g, r.value, from, to) && Distinct(r.value)
    ensures !g.HasNode(from) || !g.HasNode(to) || from == to ==> r.None?
    ensures r.None? && g.HasNode(from) && g.HasNode(to) && from != to ==>
              forall p :: !PathBetween(g, p, from, to)
  {
    var cur: seq<N> := [];
    if g.HasNode(from) && g.HasNode(to) {
      var found, visited;
      found, visited, cur := InnerDfs(g, {}, [from], to);
      if !found {
        forall p ensures !PathBetween(g, p, from, to) {
          ClosedBlocksPaths(g, visited, from, to, p);
        }
      }
    }
    r := if |cur| >= 2 then Some(cur) else None;
  }

  /**
   * `dijkstra` of src/utils.rs: line for line the library's `Dijkstra::run`,
   * except that the neighbours of a popped node are read with `unwrap()`, so the
   * caller must supply an adjacency entry for every node that can be popped.
   */
  method ShortestPath<N(==, !new)>(g: View<N>, from: N, to: N) returns (r: Option<seq<N>>)
    requires g.WellFormed()
    requires forall n :: n in g.nodes ==> n in g.adj
    ensures r.Some? ==> |r.value| >= 2 && PathBetween(g, r.value, from, to) && Distinct(r.value)
    ensures r.Some? ==> forall p :: PathBetween(g, p, from, to) ==> |r.value| <= |p|
    ensures !g.HasNode(from) || !g.HasNode(to) || from == to ==> r.None?
    ensures r.None? && g.HasNode(from) && g.HasNode(to) && from != to ==>
              forall p :: !PathBetween(g, p, from, to)
  {
    r := Dijkstra.Run(g, from, to);
  }
}
