/**
 * `AdjListGraph` of rust_graph_lib: the index-keyed backend. Nodes are `Index`
 * values handed out by a counter; `edges` maps every node to the set of its
 * out-neighbours; `edgeCount` is kept by hand. The hash containers have no
 * order here, so `iter_adj` and `iter_edges` yield sets.
 */
module AdjList {
  import opened Wrappers

  datatype Index = Index(n: nat)
  {
    /** `Index::next`: a strictly larger id, so ids handed out in turn are distinct. */
    function Next(): (r: Index)
      ensures r.n > n && r != this
    {
      Index(n + 1)
    }
  }

  /** The ordered pairs stored in an adjacency map. */
  ghost function PairsOf(m: map<Index, set<Index>>): set<(Index, Index)> {
    set f, t | f in m && t in m[f] :: (f, t)
  }

  /** The map after `add_edge(f, t)`: `t` gets an entry if it had none, `f` gets one holding `t`. */
  function Linked(m: map<Index, set<Index>>, f: Index, t: Index): map<Index, set<Index>> {
    var m1 := if t in m then m else m[t := {}];
    m1[f := (if f in m1 then m1[f] else {}) + {t}]
  }

  /** The map after removing node `n`: its entry is dropped and it leaves every other set. */
  function Unlinked(m: map<Index, set<Index>>, n: Index): map<Index, set<Index>> {
    map k | k in m && k != n :: m[k] - {n}
  }

  /** Every neighbour has an entry of its own. */
  ghost predicate Closed(m: map<Index, set<Index>>) {
    forall f, t :: f in m && t in m[f] ==> t in m
  }

  lemma LinkedClosed(m: map<Index, set<Index>>, f: Index, t: Index)
    requires Closed(m)
    ensures Closed(Linked(m, f, t))
  {
  }

  lemma LinkedPairs(m: map<Index, set<Index>>, f: Index, t: Index)
    ensures PairsOf(Linked(m, f, t)) == PairsOf(m) + {(f, t)}
  {
    var m' := Linked(m, f, t);
    forall e ensures e in PairsOf(m') <==> e in PairsOf(m) + {(f, t)} {
      PairsMember(m', e);
      PairsMember(m, e);
    }
  }

  lemma PairsMember(m: map<Index, set<Index>>, e: (Index, Index))
    ensures e in PairsOf(m) <==> e.0 in m && e.1 in m[e.0]
  {
    if e.0 in m && e.1 in m[e.0] {
      assert e == (e.0, e.1);
    }
  }

  lemma DropPair(m: map<Index, set<Index>>, f: Index, t: Index)
    requires f in m
    ensures PairsOf(m[f := m[f] - {t}]) == PairsOf(m) - {(f, t)}
  {
    var m' := m[f := m[f] - {t}];
    forall e ensures e in PairsOf(m') <==> e in PairsOf(m) - {(f, t)} {
      PairsMember(m', e);
      PairsMember(m, e);
    }
  }

  /** The pairs leaving `k` towards the members of `s`. */
  ghost function Outgoing(k: Index, s: set<Index>): set<(Index, Index)> {
    set t | t in s :: (k, t)
  }

  lemma {:induction false} OutgoingSize(k: Index, s: set<Index>)
    ensures |Outgoing(k, s)| == |s|
  {
    if s != {} {
      var t :| t in s;
      OutgoingSize(k, s - {t});
      assert Outgoing(k, s) == Outgoing(k, s - {t}) + {(k, t)};
    }
  }

  /** Dropping the entry of `n` loses exactly its outgoing pairs. */
  lemma DropEntry(m: map<Index, set<Index>>, n: Index)
    requires n in m
    ensures PairsOf(m - {n}) == PairsOf(m) - Outgoing(n, m[n])
    ensures |PairsOf(m)| == |PairsOf(m - {n})| + |m[n]|
  {
    forall e ensures e in PairsOf(m - {n}) <==> e in PairsOf(m) - Outgoing(n, m[n]) {
      PairsMember(m - {n}, e);
      PairsMember(m, e);
      if e.0 == n && e.1 in m[n] {
        assert e in Outgoing(n, m[n]);
      }
    }
    assert PairsOf(m) == PairsOf(m - {n}) + Outgoing(n, m[n]);
    OutgoingSize(n, m[n]);
  }

  /** Removing node `n` keeps exactly the pairs that do not touch it. */
  lemma UnlinkedPairs(m: map<Index, set<Index>>, n: Index)
    ensures PairsOf(Unlinked(m, n)) == set e | e in PairsOf(m) && e.0 != n && e.1 != n
  {
    forall e ensures e in PairsOf(Unlinked(m, n)) <==> e in PairsOf(m) && e.0 != n && e.1 != n {
      PairsMember(Unlinked(m, n), e);
      PairsMember(m, e);
    }
  }

  class AdjListGraph {
    var edges: map<Index, set<Index>>
    var edgeCount: nat
    var nextId: Index

    /**
     * What every operation keeps as written: every neighbour is itself a
     * node, and the counter never falls below the number of stored pairs. It
     * can run ahead of them (a repeated `add_edge`, an `add_node` on an id
     * already in use).
     */
    ghost predicate Sound()
      reads this
    {
      && Closed(edges)
      && edgeCount >= |IterEdges()|
    }

    /** A sound graph whose counter is exactly the number of stored pairs. */
    ghost predicate Valid()
      reads this
    {
      && Sound()
      && edgeCount == |IterEdges()|
    }

    /** How far the counter runs ahead of the stored pairs. */
    ghost function Drift(): int
      reads this
    {
      edgeCount - |IterEdges()|
    }

    /** Every node's id lies below the counter, so the next id is not in use. */
    ghost predicate Issued()
      reads this
    {
      forall k :: k in edges ==> k.n < nextId.n
    }

    /** `AdjListGraph::new`: no nodes, no edges, ids start at 1. */
    constructor ()
      ensures Valid() && Issued()
      ensures edges == map[] && edgeCount == 0 && nextId == Index(1)
    {
      edges := map[];
      edgeCount := 0;
      nextId := Index(1);
    }

    /** `iter_nodes`: the keys of the map; exactly the ids `iter_adj` knows. */
    function IterNodes(): (r: set<Index>)
      reads this
      ensures forall n :: n in r <==> IterAdj(n).Some?
    {
      edges.Keys
    }

    /**
     * `iter_adj`: none for an unknown id, otherwise the set of its
     * out-neighbours, every one of which is a node of a sound graph.
     */
    function IterAdj(n: Index): (r: Option<set<Index>>)
      reads this
      ensures r.None? <==> n !in edges
      ensures r.Some? ==> r.value == edges[n]
      ensures Closed(edges) && r.Some? ==> r.value <= edges.Keys
    {
      if n in edges then Some(edges[n]) else None
    }

    /** `has_edge`: false for an unknown `f`, otherwise whether `t` is among its neighbours. */
    function HasEdge(f: Index, t: Index): (r: bool)
      reads this
      ensures r <==> IterAdj(f).Some? && t in IterAdj(f).value
    {
      f in edges && t in edges[f]
    }

    /** `iter_edges`: every stored pair, that is, every pair `has_edge` accepts. */
    function IterEdges(): (r: set<(Index, Index)>)
      reads this
      ensures forall f, t :: (f, t) in r <==> HasEdge(f, t)
    {
      set f, t | f in edges && t in edges[f] :: (f, t)
    }

    /** `node_count`: the number of nodes. */
    function NodeCount(): (r: nat)
      reads this
      ensures r == |IterNodes()|
    {
      |edges|
    }

    /**
     * `edge_count`: the counter. It is never below the number of stored
     * pairs, and equals it on a valid graph.
     */
    function EdgeCount(): (r: nat)
      reads this
      ensures r == edgeCount
      ensures Sound() ==> r >= |IterEdges()|
      ensures Valid() ==> r == |IterEdges()|
    {
      edgeCount
    }

    /**
     * `add_node`: hands out the current counter value and advances it, and
     * gives that id an empty neighbour set. Nothing stops the id from being in
     * use already (`add_edge` accepts any id); then its neighbours are wiped
     * while the edge counter stays, which moves the counter further ahead of
     * the stored pairs. While every node id lies below the id counter, the id
     * is fresh and the graph gains one node.
     */
    method AddNode() returns (id: Index)
      requires Sound()
      modifies this
      ensures Sound()
      ensures id == old(nextId) && nextId == id.Next()
      ensures edges == old(edges)[id := {}] && edgeCount == old(edgeCount)
      ensures Drift() == old(Drift()) + (if id in old(edges) then |old(edges)[id]| else 0)
      ensures old(nextId !in edges) ==> NodeCount() == old(NodeCount()) + 1 && (old(Valid()) ==> Valid())
      ensures old(Issued()) ==> old(nextId !in edges) && Issued()
    {
      id := nextId;
      nextId := nextId.Next();
      ClearedPairs(edges, id);
      edges := edges[id := {}];
    }

    /**
     * `add_edge` as written: both ids get an entry if they had none, `t` joins
     * the neighbours of `f`, and the counter goes up by one even when the pair
     * was already stored, so a repeated pair moves it one ahead.
     */
    method AddEdge(f: Index, t: Index)
      requires Sound()
      modifies this
      ensures Sound()
      ensures edges == Linked(old(edges), f, t) && nextId == old(nextId)
      ensures edgeCount == old(edgeCount) + 1
      ensures HasEdge(f, t) && f in edges && t in edges
      ensures IterEdges() == old(IterEdges()) + {(f, t)}
      ensures Drift() == old(Drift()) + (if old(HasEdge(f, t)) then 1 else 0)
      ensures old(Valid()) && !old(HasEdge(f, t)) ==> Valid()
      ensures old(Issued()) && f.n < nextId.n && t.n < nextId.n ==> Issued()
    {
      LinkedPairs(edges, f, t);
      LinkedClosed(edges, f, t);
      if t !in edges {
        edges := edges[t := {}];
      }
      var adjacent := if f in edges then edges[f] else {};
      edges := edges[f := adjacent + {t}];
      edgeCount := edgeCount + 1;
    }

    /**
     * `add_edge` with the counter raised only when `HashSet::insert` reports
     * a new member: a stored pair changes nothing, the counter keeps its
     * distance to the stored pairs, and a valid graph stays valid.
     */
    method AddEdgeOnce(f: Index, t: Index)
      requires Sound()
      modifies this
      ensures Sound() && Drift() == old(Drift())
      ensures old(Valid()) ==> Valid()
      ensures edges == Linked(old(edges), f, t) && nextId == old(nextId)
      ensures IterEdges() == old(IterEdges()) + {(f, t)}
      ensures edgeCount == old(edgeCount) + (if old(HasEdge(f, t)) then 0 else 1)
    {
      LinkedPairs(edges, f, t);
      LinkedClosed(edges, f, t);
      ghost var had := HasEdge(f, t);
      if t !in edges {
        edges := edges[t := {}];
      }
      var adjacent := if f in edges then edges[f] else {};
      var inserted := t !in adjacent;
      assert inserted == !had;
      edges := edges[f := adjacent + {t}];
      if inserted {
        edgeCount := edgeCount + 1;
      }
    }

    /**
     * `remove_edge`: when `t` is a neighbour of `f` it is removed and the
     * counter goes down by one; otherwise nothing changes.
     */
    method RemoveEdge(f: Index, t: Index)
      requires Sound()
      modifies this
      ensures Sound() && Drift() == old(Drift())
      ensures old(Valid()) ==> Valid()
      ensures nextId == old(nextId)
      ensures edges == if f in old(edges) then old(edges)[f := old(edges)[f] - {t}] else old(edges)
      ensures IterEdges() == old(IterEdges()) - {(f, t)}
      ensures edgeCount == old(edgeCount) - (if old(HasEdge(f, t)) then 1 else 0)
    {
      if f in edges {
        var adjacent := edges[f];
        assert IterEdges() == PairsOf(edges);
        DropPair(edges, f, t);
        if t in adjacent {
          assert (f, t) in PairsOf(edges);
        }
        edges := edges[f := adjacent - {t}];
        if t in adjacent {
          edgeCount := edgeCount - 1;
        }
      }
    }

    /**
     * `remove_node`: nothing for an unknown id. Otherwise the entry of `n` is
     * dropped and its out-degree subtracted; then `n` is removed from every
     * remaining set, counting the sets that held it, and that count is
     * subtracted. Exactly the pairs touching `n` disappear, and the counter
     * keeps its distance to the stored pairs.
     */
    method RemoveNode(n: Index)
      requires Sound()
      modifies this
      ensures Sound() && Drift() == old(Drift())
      ensures old(Valid()) ==> Valid()
      ensures nextId == old(nextId)
      ensures edges == if n in old(edges) then Unlinked(old(edges), n) else old(edges)
      ensures IterEdges() == set e | e in old(IterEdges()) && e.0 != n && e.1 != n
      ensures NodeCount() == old(NodeCount()) - (if n in old(edges) then 1 else 0)
      ensures n in old(edges) ==>
                edgeCount == old(edgeCount) - |old(edges)[n]| - |Holders(old(edges) - {n}, n)|
    {
      if n !in edges {
        return;
      }
      ghost var start := edges;
      assert IterEdges() == PairsOf(start);
      DropEntry(start, n);
      UnlinkedPairs(start, n);
      edgeCount := edgeCount - |edges[n]|;
      var m := edges - {n};
      var toRemove;
      m, toRemove := Forget(m, n);
      assert m == Unlinked(start, n);
      assert m.Keys == start.Keys - {n};
      edges := m;
      edgeCount := edgeCount - toRemove;
    }
  }

  /** Giving `k` an empty set loses exactly its outgoing pairs and keeps the map closed. */
  lemma ClearedPairs(m: map<Index, set<Index>>, k: Index)
    ensures |PairsOf(m[k := {}])| == |PairsOf(m)| - (if k in m then |m[k]| else 0)
    ensures Closed(m) ==> Closed(m[k := {}])
  {
    assert PairsOf(m[k := {}]) == PairsOf(m - {k}) by {
      forall e ensures e in PairsOf(m[k := {}]) <==> e in PairsOf(m - {k}) {
        PairsMember(m[k := {}], e);
        PairsMember(m - {k}, e);
      }
    }
    if k in m {
      DropEntry(m, k);
    } else {
      assert m - {k} == m;
    }
  }

  /** The sets of `m` that hold `n`. */
  ghost function Holders(m: map<Index, set<Index>>, n: Index): set<Index> {
    set k | k in m && n in m[k]
  }

  /**
   * The `for_each` pass of `remove_node`: `n` leaves every set, and the sets
   * that held it are counted; the stored pairs shrink by that count.
   */
  method Forget(m0: map<Index, set<Index>>, n: Index) returns (m: map<Index, set<Index>>, toRemove: nat)
    ensures m.Keys == m0.Keys && forall k :: k in m ==> m[k] == m0[k] - {n}
    ensures toRemove == |Holders(m0, n)|
    ensures |PairsOf(m)| + toRemove == |PairsOf(m0)|
  {
    m := m0;
    toRemove := 0;
    var pending := m.Keys;
    while pending != {}
      invariant pending <= m.Keys && m.Keys == m0.Keys
      invariant forall k :: k in m ==> m[k] == if k in pending then m0[k] else m0[k] - {n}
      invariant |PairsOf(m)| + toRemove == |PairsOf(m0)|
      invariant toRemove == |set k | k in m0 && k !in pending && n in m0[k]|
      decreases pending
    {
      var k :| k in pending;
      ForgetStep(m0, m, pending, k, n);
      if n in m[k] {
        DropPair(m, k, n);
        m := m[k := m[k] - {n}];
        toRemove := toRemove + 1;
      }
      pending := pending - {k};
    }
    assert (set k | k in m0 && k !in pending && n in m0[k]) == Holders(m0, n);
  }

  /** Visiting key `k` of the forgetting loop counts it exactly when its set held `n`. */
  lemma ForgetStep(mid: map<Index, set<Index>>, edges: map<Index, set<Index>>, pending: set<Index>, k: Index, n: Index)
    requires k in pending && pending <= mid.Keys && edges.Keys == mid.Keys
    requires edges[k] == mid[k]
    ensures (set j | j in mid && j !in pending - {k} && n in mid[j]) ==
              (set j | j in mid && j !in pending && n in mid[j]) + (if n in edges[k] then {k} else {})
    ensures k !in (set j | j in mid && j !in pending && n in mid[j])
  {
  }
}
