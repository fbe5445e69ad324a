/**
 * Depth-first search of rust_graph_lib: `Dfs::run` returns the first simple path
 * from `from` to `to` that a backtracking search finds, with a visited set and an
 * explicit stack of the current path. The graph is read through the contract
 * only; neighbours are tried in the order `iter_adj` yields them.
 */
module Dfs {
  import opened Wrappers
  import opened GraphContract

  /**
   * `Dfs::inner_dfs`. The mutable `visited` set and `cur` stack are passed in and
   * handed back. On success the stack has grown into a simple path ending at `to`;
   * on failure it is restored, `to` was never visited, and every node this call
   * visited has had all of its neighbours accounted for.
   */
  method InnerDfs<N(==)>(g: View<N>, visited: set<N>, cur: seq<N>, to: N)
    returns (found: bool, visited': set<N>, cur': seq<N>)
    requires |cur| >= 1 && IsPath(g, cur) && Distinct(cur)
    requires forall k :: 0 <= k < |cur| - 1 ==> cur[k] in visited
    requires cur[|cur| - 1] !in visited && to !in visited
    ensures visited <= visited'
    ensures found ==> |cur| <= |cur'| && cur'[..|cur|] == cur
    ensures found ==> IsPath(g, cur') && Distinct(cur') && cur'[|cur'| - 1] == to
    ensures !found ==> cur' == cur && to !in visited'
    ensures !found ==> Covered(g, visited', cur[|cur| - 1], to)
    ensures !found ==> ClosedOver(g, visited', visited' - visited, to)
    decreases |(Targets(g) + {cur[0]}) - visited|
  {
    var from := cur[|cur| - 1];
    if from == to {
      return true, visited, cur;
    }
    visited' := visited + {from};
    cur' := cur;
    var adj := if from in g.adj then g.adj[from] else [];
    ghost var universe := Targets(g) + {cur[0]};
    assert from in universe by {
      if |cur| > 1 {
        assert g.HasEdge(cur[|cur| - 2], from);
      }
    }
    var i := 0;
    while i < |adj|
      invariant 0 <= i <= |adj|
      invariant cur' == cur
      invariant visited + {from} <= visited' && to !in visited'
      invariant forall j :: 0 <= j < i ==> Covered(g, visited', adj[j], to)
      invariant ClosedOver(g, visited', visited' - visited - {from}, to)
    {
      var a := adj[i];
      if a !in visited' {
        ghost var before := visited';
        VisitShrinks(universe, visited, before, from);
        assert g.HasEdge(from, a);
        PushNeighbour(g, visited', cur, a);
        cur' := cur' + [a];
        var f;
        f, visited', cur' := InnerDfs(g, visited', cur', to);
        if f {
          PrefixKept(cur, a, cur');
          return true, visited', cur';
        }
        ChildExhausted(g, visited, from, adj, i, before, visited', to);
        cur' := cur'[..|cur'| - 1];
      }
      i := i + 1;
    }
    NeighboursExhausted(g, visited, visited', from, adj, to);
    found := false;
  }

  /**
   * `Dfs::run`: none unless both endpoints are registered; otherwise the search
   * stack, kept only when it holds at least two nodes. A returned path is simple,
   * runs from `from` to `to` along edges, and none is returned only when no path
   * exists (or the endpoints coincide, or one is unregistered).
   */
  method Run<N(==)>(g: View<N>, from: N, to: N) returns (r: Option<seq<N>>)
    ensures r.Some? ==> |r.value| >= 2 && PathBetween(g, r.value, from, to) && Distinct(r.value)
    ensures !g.HasNode(from) || !g.HasNode(to) || from == to ==> r.None?
    ensures r.None? && g.HasNode(from) && g.HasNode(to) && from != to ==>
              forall p :: !PathBetween(g, p, from, to)
  {
    var cur: seq<N> := [];
    if g.HasNode(from) && g.HasNode(to) {
      var found, visited;
      found, visited, cur := InnerDfs(g, {}, [from], to);
      if !found {
        forall p ensures !PathBetween(g, p, from, to) {
          ClosedBlocksPaths(g, visited, from, to, p);
        }
      }
    }
    r := if |cur| >= 2 then Some(cur) else None;
  }
}
