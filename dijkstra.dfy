/**
 * Unit-weight Dijkstra of rust_graph_lib: `Dijkstra::run` computes a path with
 * the fewest edges from `from` to `to`, using a binary heap of (node, distance)
 * entries, a map of predecessors and tentative distances, and a final walk back
 * along the predecessors. Stale heap entries are never removed; they are simply
 * popped later.
 */
module Dijkstra {
  import opened Wrappers
  import opened GraphContract

  /** `std::cmp::Ordering`. */
  datatype Ordering = Less | Equal | Greater

  /** A tentative distance; `Inf` stands for the `u32::MAX` sentinel. */
  datatype Dist = Fin(n: nat) | Inf

  /** `a` is a strictly shorter distance than `b`. */
  predicate Below(a: Dist, b: Dist) {
    a.Fin? && (b.Inf? || a.n < b.n)
  }

  /** `a` is no longer than `b`. */
  predicate AtMost(a: Dist, b: Dist) {
    b.Inf? || (a.Fin? && a.n <= b.n)
  }

  /** `u32::cmp` on distances, with the sentinel above every real distance. */
  function CompareDist(a: Dist, b: Dist): (r: Ordering)
    ensures r == Less <==> Below(a, b)
    ensures r == Greater <==> Below(b, a)
    ensures r == Equal <==> a == b
  {
    match (a, b)
    case (Fin(x), Fin(y)) => if x < y then Less else if x == y then Equal else Greater
    case (Fin(_), Inf) => Less
    case (Inf, Fin(_)) => Greater
    case (Inf, Inf) => Equal
  }

  /** A heap entry: a node and the distance it was pushed with. */
  datatype NodeWithDist<N> = NodeWithDist(node: N, cost: Dist)

  /**
   * The `Ord` of `NodeWithDist`: distances compared in reverse, then nodes by
   * their own order `cmp`. The max-heap therefore pops an entry whose distance is
   * smallest; among entries of equal distance, the greatest node.
   */
  function Compare<N>(a: NodeWithDist<N>, b: NodeWithDist<N>, cmp: (N, N) -> Ordering): (r: Ordering)
    ensures r != Less ==> AtMost(a.cost, b.cost)
    ensures Below(a.cost, b.cost) ==> r == Greater
    ensures a.cost == b.cost ==> r == cmp(a.node, b.node)
  {
    var byDist := CompareDist(b.cost, a.cost);
    if byDist != Equal then byDist else cmp(a.node, b.node)
  }

  /** The entry `BinaryHeap::pop` returns is one of smallest distance. */
  lemma PopIsNearest<N>(heap: multiset<NodeWithDist<N>>, e: NodeWithDist<N>, cmp: (N, N) -> Ordering)
    requires e in heap && forall x :: x in heap ==> Compare(e, x, cmp) != Less
    ensures forall x :: x in heap ==> AtMost(e.cost, x.cost)
  {
  }

  lemma {:induction false} NearestExists<N>(heap: multiset<NodeWithDist<N>>) returns (e: NodeWithDist<N>)
    requires heap != multiset{}
    ensures e in heap && forall x :: x in heap ==> AtMost(e.cost, x.cost)
  {
    var y :| y in heap;
    var rest := heap - multiset{y};
    assert forall x :: x in heap ==> x == y || x in rest;
    if rest == multiset{} {
      e := y;
    } else {
      var m := NearestExists(rest);
      e := if AtMost(y.cost, m.cost) then y else m;
    }
  }

  /** The `preds` value of a node: its predecessor and tentative distance. */
  datatype Entry<N> = Entry(pred: Option<N>, dist: Dist)

  function InitialCost<N(==)>(n: N, from: N): Dist {
    if n == from then Fin(0) else Inf
  }

  /**
   * Predecessor links go back along edges to strictly smaller distances and end
   * at `from`, the only node at distance 0 without a predecessor.
   */
  ghost predicate PredsSound<N>(g: View<N>, preds: map<N, Entry<N>>, from: N) {
    && preds.Keys == g.nodes
    && (from in preds ==> preds[from] == Entry(None, Fin(0)))
    && (forall y :: y in preds && preds[y].pred.Some? ==>
          var p := preds[y].pred.value;
          && p in preds && y != from && g.HasEdge(p, y)
          && preds[y].dist.Fin? && preds[p].dist.Fin? && preds[p].dist.n < preds[y].dist.n)
    && (forall y {:trigger preds[y].pred} :: y in preds && preds[y].dist.Fin? && y != from ==> preds[y].pred.Some?)
    && (from in preds || forall y {:trigger preds[y].dist} :: y in preds ==> preds[y].dist == Inf)
  }

  /** Every heap entry is for a node, never below that node's distance nor below `lo`. */
  ghost predicate HeapSound<N>(preds: map<N, Entry<N>>, heap: multiset<NodeWithDist<N>>, lo: nat) {
    forall e {:trigger heap[e]} :: e in heap ==> e.node in preds && AtMost(preds[e.node].dist, e.cost) && AtMost(Fin(lo), e.cost)
  }

  /**
   * Nodes whose neighbours have been relaxed: their distance is final (at most
   * `lo`, the last distance popped) and no neighbour is more than one step further.
   */
  ghost predicate SettledSound<N>(g: View<N>, preds: map<N, Entry<N>>, settled: set<N>, lo: nat) {
    && settled <= preds.Keys
    && (forall s {:trigger s in settled} :: s in settled ==> preds[s].dist.Fin? && preds[s].dist.n <= lo)
    && (forall s, t {:trigger t in g.adj[s], s in settled} :: s in settled && s in g.adj && t in g.adj[s] ==>
          t in preds && preds[t].dist.Fin? && preds[t].dist.n <= preds[s].dist.n + 1)
  }

  /** Every reached node not yet settled (apart from `except`) has its current distance queued. */
  ghost predicate FrontierQueued<N>(preds: map<N, Entry<N>>, heap: multiset<NodeWithDist<N>>, settled: set<N>, except: set<N>) {
    forall y {:trigger y in settled} :: y in preds && y !in settled && y !in except && preds[y].dist.Fin? ==>
      NodeWithDist(y, preds[y].dist) in heap
  }

  /** Nodes whose distance can still be lowered once `lo` has been popped. */
  ghost function Improvable<N>(preds: map<N, Entry<N>>, lo: nat): set<N> {
    set y | y in preds && !(preds[y].dist.Fin? && preds[y].dist.n <= lo + 1)
  }

  /** Along any path from `from`, the first node not settled has a distance at most its position. */
  lemma {:induction false} FirstUnsettled<N>(g: View<N>, preds: map<N, Entry<N>>, settled: set<N>, lo: nat, p: seq<N>, j: nat)
    returns (k: nat)
    requires SettledSound(g, preds, settled, lo)
    requires IsPath(g, p) && j < |p| && p[|p| - 1] !in settled
    requires p[j] in preds && preds[p[j]].dist.Fin? && preds[p[j]].dist.n <= j
    ensures j <= k < |p| && p[k] in preds && p[k] !in settled
    ensures preds[p[k]].dist.Fin? && preds[p[k]].dist.n <= k
    decreases |p| - j
  {
    if p[j] !in settled {
      k := j;
    } else {
      assert g.HasEdge(p[j], p[j + 1]);
      k := FirstUnsettled(g, preds, settled, lo, p, j + 1);
    }
  }

  lemma FinalAtStop<N>(g: View<N>, preds: map<N, Entry<N>>, heap: multiset<NodeWithDist<N>>, settled: set<N>, lo: nat, from: N, to: N, e: NodeWithDist<N>)
    requires g.WellFormed() && PredsSound(g, preds, from)
    requires HeapSound(preds, heap, lo) && SettledSound(g, preds, settled, lo)
    requires FrontierQueued(preds, heap, settled, {}) && to !in settled
    requires e in heap && forall x :: x in heap ==> AtMost(e.cost, x.cost)
    requires e.cost == Inf || e.node == to
    ensures forall p :: PathBetween(g, p, from, to) && from != to && from in preds ==>
              to in preds && preds[to].dist.Fin? && preds[to].dist.n <= |p| - 1
  {
    forall p | PathBetween(g, p, from, to) && from != to && from in preds
      ensures to in preds && preds[to].dist.Fin? && preds[to].dist.n <= |p| - 1
    {
      assert g.HasEdge(p[0], p[1]);
      var k := FirstUnsettled(g, preds, settled, lo, p, 0);
      assert NodeWithDist(p[k], preds[p[k]].dist) in heap;
    }
  }

  lemma FinalWhenExhausted<N>(g: View<N>, preds: map<N, Entry<N>>, settled: set<N>, lo: nat, from: N, to: N)
    requires g.WellFormed() && PredsSound(g, preds, from)
    requires SettledSound(g, preds, settled, lo)
    requires FrontierQueued(preds, multiset{}, settled, {}) && to !in settled
    ensures forall p :: !(PathBetween(g, p, from, to) && from != to && from in preds)
  {
    forall p ensures !(PathBetween(g, p, from, to) && from != to && from in preds) {
      if IsPath(g, p) && p[0] == from && |p| >= 2 && from in preds {
        assert g.HasEdge(p[0], p[1]);
        SettledAlong(g, preds, settled, lo, p, |p| - 1);
      }
    }
  }

  lemma {:induction false} SettledAlong<N>(g: View<N>, preds: map<N, Entry<N>>, settled: set<N>, lo: nat, p: seq<N>, k: nat)
    requires SettledSound(g, preds, settled, lo) && FrontierQueued(preds, multiset{}, settled, {})
    requires IsPath(g, p) && k < |p|
    requires p[0] in preds && preds[p[0]].dist.Fin?
    ensures p[k] in settled
  {
    if k > 0 {
      SettledAlong(g, preds, settled, lo, p, k - 1);
      assert g.HasEdge(p[k - 1], p[k]);
    }
    assert p[k] in preds && preds[p[k]].dist.Fin?;
    assert NodeWithDist(p[k], preds[p[k]].dist) !in multiset{};
    assert p[k] !in {};
  }

  /** Popping a nearest entry that is not the sentinel raises `lo` to its distance. */
  lemma PopStep<N>(g: View<N>, preds: map<N, Entry<N>>, heap: multiset<NodeWithDist<N>>, settled: set<N>, lo: nat, e: NodeWithDist<N>)
    requires HeapSound(preds, heap, lo) && SettledSound(g, preds, settled, lo)
    requires FrontierQueued(preds, heap, settled, {})
    requires e in heap && forall x :: x in heap ==> AtMost(e.cost, x.cost)
    requires e.cost.Fin?
    ensures HeapSound(preds, heap - multiset{e}, e.cost.n)
    ensures SettledSound(g, preds, settled, e.cost.n)
    ensures FrontierQueued(preds, heap - multiset{e}, settled, {e.node})
    ensures e.node in preds && preds[e.node].dist.Fin? && preds[e.node].dist.n <= e.cost.n
    ensures e.node in settled || preds[e.node].dist.n == e.cost.n
    ensures |heap - multiset{e}| + |Improvable(preds, e.cost.n)| < |heap| + |Improvable(preds, lo)|
  {
    var n := e.node;
    if n !in settled {
      assert NodeWithDist(n, preds[n].dist) in heap;
    }
    forall y | y in preds && y !in settled && y !in {n} && preds[y].dist.Fin?
      ensures NodeWithDist(y, preds[y].dist) in heap - multiset{e}
    {
      assert NodeWithDist(y, preds[y].dist) != e;
    }
    SubsetNoLarger(Improvable(preds, e.cost.n), Improvable(preds, lo));
  }

  /** One successful relaxation of the edge `node -> adj` keeps every invariant and the measure. */
  lemma RelaxStep<N>(g: View<N>, preds: map<N, Entry<N>>, heap: multiset<NodeWithDist<N>>, settled: set<N>, lo: nat, from: N,
                     node: N, adj: N, preds': map<N, Entry<N>>, heap': multiset<NodeWithDist<N>>)
    requires PredsSound(g, preds, from) && HeapSound(preds, heap, lo) && SettledSound(g, preds, settled, lo)
    requires FrontierQueued(preds, heap, settled, {node})
    requires g.HasEdge(node, adj) && node in preds && adj in preds
    requires preds[node].dist.Fin? && (node in settled || preds[node].dist.n == lo)
    requires Below(Fin(preds[node].dist.n + 1), preds[adj].dist)
    requires preds' == preds[adj := Entry(Some(node), Fin(preds[node].dist.n + 1))]
    requires heap' == heap + multiset{NodeWithDist(adj, Fin(preds[node].dist.n + 1))}
    ensures adj != node && adj !in settled
    ensures PredsSound(g, preds', from) && HeapSound(preds', heap', lo) && SettledSound(g, preds', settled, lo)
    ensures FrontierQueued(preds', heap', settled, {node})
    ensures |heap'| + |Improvable(preds', lo)| == |heap| + |Improvable(preds, lo)|
  {
    var alt := Fin(preds[node].dist.n + 1);
    assert node !in settled;
    assert adj !in settled;
    RelaxKeepsPreds(g, preds, from, node, adj, alt);
    RelaxKeepsSettled(g, preds, settled, lo, adj, alt, node);
    RelaxKeepsHeap(preds, heap, lo, adj, alt, node);
    RelaxKeepsFrontier(preds, heap, settled, adj, alt, node);
    RelaxKeepsMeasure(preds, lo, adj, alt, node);
  }

  lemma RelaxKeepsHeap<N>(preds: map<N, Entry<N>>, heap: multiset<NodeWithDist<N>>, lo: nat, adj: N, alt: Dist, node: N)
    requires HeapSound(preds, heap, lo)
    requires adj in preds && Below(alt, preds[adj].dist) && AtMost(Fin(lo), alt)
    ensures HeapSound(preds[adj := Entry(Some(node), alt)], heap + multiset{NodeWithDist(adj, alt)}, lo)
  {
  }

  lemma RelaxKeepsFrontier<N>(preds: map<N, Entry<N>>, heap: multiset<NodeWithDist<N>>, settled: set<N>, adj: N, alt: Dist, node: N)
    requires FrontierQueued(preds, heap, settled, {node}) && adj in preds
    ensures FrontierQueued(preds[adj := Entry(Some(node), alt)], heap + multiset{NodeWithDist(adj, alt)}, settled, {node})
  {
  }

  lemma RelaxKeepsMeasure<N>(preds: map<N, Entry<N>>, lo: nat, adj: N, alt: Dist, node: N)
    requires adj in preds && alt == Fin(lo + 1) && Below(alt, preds[adj].dist)
    ensures Improvable(preds[adj := Entry(Some(node), alt)], lo) == Improvable(preds, lo) - {adj}
    ensures adj in Improvable(preds, lo)
  {
  }

  lemma RelaxKeepsPreds<N>(g: View<N>, preds: map<N, Entry<N>>, from: N, node: N, adj: N, alt: Dist)
    requires PredsSound(g, preds, from)
    requires g.HasEdge(node, adj) && node in preds && adj in preds
    requires preds[node].dist.Fin? && alt == Fin(preds[node].dist.n + 1) && Below(alt, preds[adj].dist)
    ensures PredsSound(g, preds[adj := Entry(Some(node), alt)], from)
  {
    var preds' := preds[adj := Entry(Some(node), alt)];
    assert adj != from;
    forall y | y in preds' && preds'[y].pred.Some?
      ensures var p := preds'[y].pred.value;
              && p in preds' && y != from && g.HasEdge(p, y)
              && preds'[y].dist.Fin? && preds'[p].dist.Fin? && preds'[p].dist.n < preds'[y].dist.n
    {
      if y != adj {
        var p := preds[y].pred.value;
        assert preds'[y] == preds[y];
      }
    }
  }

  lemma RelaxKeepsSettled<N>(g: View<N>, preds: map<N, Entry<N>>, settled: set<N>, lo: nat, adj: N, alt: Dist, node: N)
    requires SettledSound(g, preds, settled, lo)
    requires adj in preds && adj !in settled && Below(alt, preds[adj].dist)
    ensures SettledSound(g, preds[adj := Entry(Some(node), alt)], settled, lo)
  {
  }

  /** Relaxing `adjs[i]` leaves the bound on the earlier neighbours in place and adds it for `adjs[i]`. */
  lemma BoundExtends<N>(adjs: seq<N>, i: nat, before: map<N, Entry<N>>, after: map<N, Entry<N>>, bound: nat)
    requires i < |adjs|
    requires forall j :: 0 <= j < i ==>
               adjs[j] in before && before[adjs[j]].dist.Fin? && before[adjs[j]].dist.n <= bound
    requires forall y :: y in before && y != adjs[i] ==> y in after && after[y] == before[y]
    requires adjs[i] in after && after[adjs[i]].dist.Fin? && after[adjs[i]].dist.n <= bound
    ensures forall j :: 0 <= j < i + 1 ==>
              adjs[j] in after && after[adjs[j]].dist.Fin? && after[adjs[j]].dist.n <= bound
  {
  }

  /** Once all of `node`'s neighbours are relaxed, `node` is settled. */
  lemma SettleStep<N>(g: View<N>, preds: map<N, Entry<N>>, heap: multiset<NodeWithDist<N>>, settled: set<N>, lo: nat, node: N)
    requires SettledSound(g, preds, settled, lo) && FrontierQueued(preds, heap, settled, {node})
    requires node in preds && preds[node].dist.Fin? && preds[node].dist.n <= lo
    requires forall t :: node in g.adj && t in g.adj[node] ==>
               t in preds && preds[t].dist.Fin? && preds[t].dist.n <= preds[node].dist.n + 1
    ensures SettledSound(g, preds, settled + {node}, lo) && FrontierQueued(preds, heap, settled + {node}, {})
  {
  }

  /**
   * The initialisation of `Dijkstra::run`: every node enters `preds` without a
   * predecessor and the heap with its starting distance, 0 for `from` and the
   * sentinel for every other node.
   */
  method Initialise<N(==)>(g: View<N>, from: N) returns (preds: map<N, Entry<N>>, heap: multiset<NodeWithDist<N>>)
    ensures preds.Keys == g.nodes
    ensures forall y :: y in preds ==> preds[y] == Entry(None, InitialCost(y, from))
    ensures forall e :: e in heap ==> e.node in preds && e.cost == preds[e.node].dist
    ensures forall y :: y in preds ==> NodeWithDist(y, preds[y].dist) in heap
  {
    preds, heap := map[], multiset{};
    var rest := g.nodes;
    while rest != {}
      invariant rest <= g.nodes && preds.Keys == g.nodes - rest
      invariant forall y :: y in preds ==> preds[y] == Entry(None, InitialCost(y, from))
      invariant forall e :: e in heap ==> e.node in preds && e.cost == preds[e.node].dist
      invariant forall y :: y in preds ==> NodeWithDist(y, preds[y].dist) in heap
      decreases rest
    {
      var node :| node in rest;
      var cost := InitialCost(node, from);
      heap := heap + multiset{NodeWithDist(node, cost)};
      preds := preds[node := Entry(None, cost)];
      rest := rest - {node};
    }
  }

  /**
   * The body of the main loop of `Dijkstra::run` after popping `node`: every
   * neighbour whose distance one more step from `node` improves gets `node` as
   * predecessor and a fresh heap entry. Afterwards no neighbour of `node` is more
   * than one step further than `node`, so `node` joins the settled nodes.
   */
  method RelaxNeighbours<N(==)>(g: View<N>, preds: map<N, Entry<N>>, heap: multiset<NodeWithDist<N>>, node: N,
                                ghost settled: set<N>, ghost lo: nat, ghost from: N)
    returns (preds': map<N, Entry<N>>, heap': multiset<NodeWithDist<N>>)
    requires g.WellFormed() && PredsSound(g, preds, from)
    requires HeapSound(preds, heap, lo) && SettledSound(g, preds, settled, lo)
    requires FrontierQueued(preds, heap, settled, {node})
    requires node in preds && preds[node].dist.Fin? && preds[node].dist.n <= lo
    requires node in settled || preds[node].dist.n == lo
    ensures preds'.Keys == preds.Keys && preds'[node] == preds[node]
    ensures forall t :: node in g.adj && t in g.adj[node] ==>
              preds'[t].dist.Fin? && preds'[t].dist.n <= preds[node].dist.n + 1
    ensures PredsSound(g, preds', from)
    ensures HeapSound(preds', heap', lo) && SettledSound(g, preds', settled + {node}, lo)
    ensures FrontierQueued(preds', heap', settled + {node}, {})
    ensures |heap'| + |Improvable(preds', lo)| == |heap| + |Improvable(preds, lo)|
  {
    preds', heap' := preds, heap;
    var adjs := if node in g.adj then g.adj[node] else [];
    var i := 0;
    while i < |adjs|
      invariant 0 <= i <= |adjs|
      invariant preds'.Keys == preds.Keys && preds'[node] == preds[node]
      invariant PredsSound(g, preds', from)
      invariant HeapSound(preds', heap', lo) && SettledSound(g, preds', settled, lo)
      invariant FrontierQueued(preds', heap', settled, {node})
      invariant forall j :: 0 <= j < i ==>
                  adjs[j] in preds' && preds'[adjs[j]].dist.Fin? && preds'[adjs[j]].dist.n <= preds[node].dist.n + 1
      invariant |heap'| + |Improvable(preds', lo)| == |heap| + |Improvable(preds, lo)|
    {
      var adj := adjs[i];
      assert g.HasEdge(node, adj);
      ghost var before := preds';
      var nodeDist := preds'[node].dist;
      var adjDist := preds'[adj].dist;
      var alt := Fin(nodeDist.n + 1);
      if Below(alt, adjDist) {
        RelaxStep(g, preds', heap', settled, lo, from, node, adj,
                  preds'[adj := Entry(Some(node), alt)], heap' + multiset{NodeWithDist(adj, alt)});
        preds' := preds'[adj := Entry(Some(node), alt)];
        heap' := heap' + multiset{NodeWithDist(adj, alt)};
      }
      BoundExtends(adjs, i, before, preds', preds[node].dist.n + 1);
      i := i + 1;
    }
    SettleStep(g, preds', heap', settled, lo, node);
  }

  /**
   * The walk back from `to` along the predecessors, reversed: a simple path from
   * `from` to `to` with at most as many edges as `to`'s distance, hence no longer
   * than any path when that distance is a lower bound on path lengths.
   */
  method WalkBack<N(==)>(g: View<N>, preds: map<N, Entry<N>>, from: N, to: N) returns (path: seq<N>)
    requires PredsSound(g, preds, from)
    requires to in preds && preds[to].pred.Some?
    ensures |path| >= 2 && PathBetween(g, path, from, to) && Distinct(path)
    ensures |path| <= preds[to].dist.n + 1
  {
    var ret: seq<N> := [];
    var cur := to;
    while cur != from
      invariant cur in preds && preds[cur].dist.Fin?
      invariant |ret| + preds[cur].dist.n <= preds[to].dist.n
      invariant ret == [] ==> cur == to
      invariant ret != [] ==> ret[0] == to && g.HasEdge(cur, ret[|ret| - 1])
      invariant forall k :: 0 <= k < |ret| - 1 ==> g.HasEdge(ret[k + 1], ret[k])
      invariant forall k :: 0 <= k < |ret| ==>
                  ret[k] in preds && preds[ret[k]].dist.Fin? && preds[cur].dist.n < preds[ret[k]].dist.n
      invariant forall k, l :: 0 <= k < l < |ret| ==> preds[ret[l]].dist.n < preds[ret[k]].dist.n
      decreases preds[cur].dist.n
    {
      ret := ret + [cur];
      cur := preds[cur].pred.value;
    }
    var full := ret + [from];
    path := Reversed(full);
    forall k | 0 <= k < |path| - 1 ensures g.HasEdge(path[k], path[k + 1]) {
      assert path[k] == full[|full| - 1 - k] && path[k + 1] == full[|full| - 2 - k];
    }
    forall k, l | 0 <= k < l < |path| ensures path[k] != path[l] {
      assert path[k] == full[|full| - 1 - k] && path[l] == full[|full| - 1 - l];
    }
  }

  /**
   * `Dijkstra::run` on the graph `g` with unit edge weights: a path with the
   * fewest edges from `from` to `to`, or `None` when there is none, when either
   * end is not a node, or when `from == to`. The heap pops an entry of smallest
   * distance (see `PopIsNearest`); which of several such entries comes first
   * is left open.
   */
  method Run<N(==, !new)>(g: View<N>, from: N, to: N) returns (r: Option<seq<N>>)
    requires g.WellFormed()
    ensures r.Some? ==> |r.value| >= 2 && PathBetween(g, r.value, from, to) && Distinct(r.value)
    ensures r.Some? ==> forall p :: PathBetween(g, p, from, to) ==> |r.value| <= |p|
    ensures !g.HasNode(from) || !g.HasNode(to) || from == to ==> r.None?
    ensures r.None? && g.HasNode(from) && g.HasNode(to) && from != to ==>
              forall p :: !PathBetween(g, p, from, to)
  {
    var preds, heap := Initialise(g, from);
    var stop := false;
    ghost var settled: set<N> := {};
    ghost var lo: nat := 0;
    while !stop && heap != multiset{}
      invariant PredsSound(g, preds, from)
      invariant HeapSound(preds, heap, lo) && SettledSound(g, preds, settled, lo)
      invariant !stop ==> FrontierQueued(preds, heap, settled, {})
      invariant to !in settled
      invariant stop ==> forall p :: PathBetween(g, p, from, to) && from != to && from in preds ==>
                  to in preds && preds[to].dist.Fin? && preds[to].dist.n <= |p| - 1
      decreases !stop, |heap| + |Improvable(preds, lo)|
    {
      ghost var nearest := NearestExists(heap);
      var e :| e in heap && forall x :: x in heap ==> AtMost(e.cost, x.cost);
      if e.cost == Inf || e.node == to {
        FinalAtStop(g, preds, heap, settled, lo, from, to, e);
        heap := heap - multiset{e};
        stop := true;
      } else {
        PopStep(g, preds, heap, settled, lo, e);
        heap := heap - multiset{e};
        lo := e.cost.n;
        preds, heap := RelaxNeighbours(g, preds, heap, e.node, settled, lo, from);
        settled := settled + {e.node};
      }
    }
    if !stop {
      FinalWhenExhausted(g, preds, settled, lo, from, to);
    }
    assert forall p :: PathBetween(g, p, from, to) && from != to && from in preds ==>
             to in preds && preds[to].dist.Fin? && preds[to].dist.n <= |p| - 1;
    if to !in preds || preds[to].pred.None? {
      return None;
    }
    var path := WalkBack(g, preds, from, to);
    r := Some(path);
  }

  /**
   * `Reversed(s)` holds the elements of `s` back to front (`Vec::reverse`).
   */
  function Reversed<T>(s: seq<T>): (r: seq<T>)
    ensures |r| == |s|
    ensures forall i :: 0 <= i < |s| ==> r[i] == s[|s| - 1 - i]
  {
    if s == [] then [] else Reversed(s[1..]) + [s[0]]
  }
}
