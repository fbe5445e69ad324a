/**
 * The object-keyed graph contract (the `Graph<N>` trait of src/graph.rs) as the
 * algorithms see it: which nodes are registered, and for each node that has an
 * adjacency entry, the out-neighbours in the order `iter_adj` yields them.
 * Paths, simple paths and the closure argument behind the depth-first search
 * are stated here once, for every backend and both algorithms.
 */
module GraphContract {
  import opened Wrappers

  datatype View<N(==)> = View(nodes: set<N>, adj: map<N, seq<N>>)
  {
    /** `has_node`: membership in the registered nodes. */
    predicate HasNode(n: N) {
      n in nodes
    }

    /** An ordered pair is an edge when `t` is yielded by `iter_adj(f)`. */
    predicate HasEdge(f: N, t: N) {
      f in adj && t in adj[f]
    }

    /**
     * `iter_adj`: none for a node without an adjacency entry, otherwise its
     * out-neighbours, each of which `has_node` accepts on a well-formed view.
     */
    function IterAdj(n: N): (r: Option<seq<N>>)
      ensures r.None? <==> n !in adj
      ensures r.Some? ==> forall i :: 0 <= i < |r.value| ==> HasEdge(n, r.value[i])
      ensures WellFormed() && r.Some? ==> forall i :: 0 <= i < |r.value| ==> HasNode(r.value[i])
    {
      if n in adj then Some(adj[n]) else None
    }

    /** Every neighbour that `iter_adj` yields is a registered node. */
    ghost predicate WellFormed() {
      forall f, t :: f in adj && t in adj[f] ==> t in nodes
    }
  }

  /** A non-empty node sequence whose consecutive pairs are edges. */
  predicate IsPath<N(==)>(g: View<N>, p: seq<N>) {
    |p| >= 1 && forall i :: 0 <= i < |p| - 1 ==> g.HasEdge(p[i], p[i + 1])
  }

  predicate PathBetween<N(==)>(g: View<N>, p: seq<N>, a: N, b: N) {
    IsPath(g, p) && p[0] == a && p[|p| - 1] == b
  }

  /** No node occurs twice (a simple path, when `s` is a path). */
  predicate Distinct<T(==)>(s: seq<T>) {
    forall i, j :: 0 <= i < j < |s| ==> s[i] != s[j]
  }

  /** Every node that occurs as some node's neighbour. */
  ghost function Targets<N>(g: View<N>): set<N> {
    set f, t | f in g.adj && t in g.adj[f] :: t
  }

  /**
   * A depth-first search that gave up has accounted for `t`: it was visited, or it
   * has no adjacency entry to expand and is not the target.
   */
  predicate Covered<N(==)>(g: View<N>, visited: set<N>, t: N, to: N) {
    t in visited || (t !in g.adj && t != to)
  }

  /** Every out-neighbour of every node in `expanded` is covered by `visited`. */
  ghost predicate ClosedOver<N>(g: View<N>, visited: set<N>, expanded: set<N>, to: N) {
    forall y, t :: y in expanded && y in g.adj && t in g.adj[y] ==> Covered(g, visited, t, to)
  }

  lemma {:induction false} SubsetNoLarger<T>(a: set<T>, b: set<T>)
    requires a <= b
    ensures |a| <= |b|
  {
    if a != {} {
      var y :| y in a;
      SubsetNoLarger(a - {y}, b - {y});
    }
  }

  lemma ProperSubsetSmaller<T>(a: set<T>, b: set<T>)
    requires a < b
    ensures |a| < |b|
  {
    var x :| x in b && x !in a;
    SubsetNoLarger(a, b - {x});
  }

  lemma ClosedOverGrow<N>(g: View<N>, s: set<N>, s': set<N>, r: set<N>, r': set<N>, to: N)
    requires ClosedOver(g, s, r, to) && ClosedOver(g, s', r', to) && s <= s'
    ensures ClosedOver(g, s', r + r', to)
  {
    forall y, t | y in r + r' && y in g.adj && t in g.adj[y]
      ensures Covered(g, s', t, to)
    {
      if y in r {
        assert Covered(g, s, t, to);
      }
    }
  }

  /** Pushing an unvisited neighbour of the last node keeps the stack a simple path. */
  lemma PushNeighbour<N>(g: View<N>, visited: set<N>, cur: seq<N>, a: N)
    requires |cur| >= 1 && IsPath(g, cur) && Distinct(cur)
    requires forall k :: 0 <= k < |cur| ==> cur[k] in visited
    requires g.HasEdge(cur[|cur| - 1], a) && a !in visited
    ensures IsPath(g, cur + [a]) && Distinct(cur + [a]) && (cur + [a])[0] == cur[0]
    ensures forall k :: 0 <= k < |cur + [a]| - 1 ==> (cur + [a])[k] in visited
  {
    var c := cur + [a];
    forall i | 0 <= i < |c| - 1 ensures g.HasEdge(c[i], c[i + 1]) {
      if i < |cur| - 1 {
        assert c[i] == cur[i] && c[i + 1] == cur[i + 1];
      }
    }
  }

  /** A stack that grew from `cur + [a]` still starts with `cur`. */
  lemma PrefixKept<T>(cur: seq<T>, a: T, cur': seq<T>)
    requires |cur + [a]| <= |cur'| && cur'[..|cur + [a]|] == cur + [a]
    ensures |cur| <= |cur'| && cur'[..|cur|] == cur
  {
    assert cur'[..|cur|] == cur'[..|cur| + 1][..|cur|];
  }

  /** Visiting `from` shrinks what is left of the universe: the depth-first search terminates. */
  lemma VisitShrinks<N>(universe: set<N>, visited: set<N>, visited': set<N>, from: N)
    requires from in universe && from !in visited && visited + {from} <= visited'
    ensures |universe - visited'| < |universe - visited|
  {
    assert from in universe - visited && from !in universe - visited';
    ProperSubsetSmaller(universe - visited', universe - visited);
  }

  /**
   * After a failed descent into the `i`-th neighbour of `from`, the neighbours so
   * far are covered by the grown visited set, and so are all neighbours of the
   * nodes visited below `from`.
   */
  lemma ChildExhausted<N>(g: View<N>, visited: set<N>, from: N, adj: seq<N>, i: nat,
                          before: set<N>, after: set<N>, to: N)
    requires i < |adj| && visited + {from} <= before <= after
    requires forall j :: 0 <= j < i ==> Covered(g, before, adj[j], to)
    requires Covered(g, after, adj[i], to)
    requires ClosedOver(g, before, before - visited - {from}, to) && ClosedOver(g, after, after - before, to)
    ensures forall j :: 0 <= j < i + 1 ==> Covered(g, after, adj[j], to)
    ensures ClosedOver(g, after, after - visited - {from}, to)
  {
    ClosedOverGrow(g, before, after, before - visited - {from}, after - before, to);
    assert after - visited - {from} == (before - visited - {from}) + (after - before);
  }

  /** Once every neighbour of `from` is covered, `from` itself is expanded. */
  lemma NeighboursExhausted<N>(g: View<N>, visited: set<N>, visited': set<N>, from: N, adj: seq<N>, to: N)
    requires from in g.adj ==> adj == g.adj[from]
    requires forall j :: 0 <= j < |adj| ==> Covered(g, visited', adj[j], to)
    requires ClosedOver(g, visited', visited' - visited - {from}, to)
    ensures ClosedOver(g, visited', visited' - visited, to)
  {
    forall y, t | y in visited' - visited && y in g.adj && t in g.adj[y]
      ensures Covered(g, visited', t, to)
    {
      if y == from {
        var j :| 0 <= j < |adj| && adj[j] == t;
      }
    }
  }

  lemma {:induction false} CoveredAlong<N>(g: View<N>, visited: set<N>, to: N, p: seq<N>, k: nat)
    requires ClosedOver(g, visited, visited, to)
    requires IsPath(g, p) && Covered(g, visited, p[0], to)
    requires k < |p|
    ensures Covered(g, visited, p[k], to)
  {
    if k > 0 {
      CoveredAlong(g, visited, to, p, k - 1);
      assert g.HasEdge(p[k - 1], p[k]);
    }
  }

  /**
   * A visited set closed under expansion that holds `from` (or accounts for it)
   * but not `to` rules out every path from `from` to `to`: the argument that a
   * search which gave up has really found nothing.
   */
  lemma {:induction false} ClosedBlocksPaths<N>(g: View<N>, visited: set<N>, from: N, to: N, p: seq<N>)
    requires ClosedOver(g, visited, visited, to) && to !in visited
    requires Covered(g, visited, from, to)
    ensures !PathBetween(g, p, from, to)
  {
    if IsPath(g, p) && p[0] == from {
      CoveredAlong(g, visited, to, p, |p| - 1);
    }
  }
}
