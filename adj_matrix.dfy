/**
 * `AdjMatrixGraph` of src/adj_matrix.rs, which src/graph.rs repeats line for
 * line (there `remove_from_vec` is an associated function): the object-keyed
 * backend of the `Graph<N>` contract. `nodes` is the vector of nodes in
 * insertion order, `edges` maps every node to the list of its out-neighbours,
 * and `edgeCount` is kept by hand. Nodes are held by value instead of through
 * shared `Rc` handles.
 */
module AdjMatrix {
  import opened Wrappers
  import opened GraphContract

  /** The position of the first element equal to `item` (`Iterator::position`). */
  function FirstPosition<T(==)>(v: seq<T>, item: T): (r: nat)
    requires item in v
    ensures r < |v| && v[r] == item && item !in v[..r]
  {
    if v[0] == item then 0
    else
      var r := 1 + FirstPosition(v[1..], item);
      assert v[..r] == [v[0]] + v[1..][..r - 1];
      r
  }

  /** Any position holding `item` with no earlier `item` is the first position. */
  lemma {:induction false} FirstPositionUnique<T>(v: seq<T>, item: T, i: nat)
    requires i < |v| && v[i] == item && item !in v[..i]
    ensures FirstPosition(v, item) == i
  {
    if i > 0 {
      assert v[..i][0] == v[0];
      assert v[1..][..i - 1] == v[..i][1..];
      FirstPositionUnique(v[1..], item, i - 1);
    }
  }

  /** `Vec::remove(i)`: the element at `i` taken out, the rest kept in order. */
  function Removed<T>(v: seq<T>, i: nat): seq<T>
    requires i < |v|
  {
    v[..i] + v[i + 1..]
  }

  /** The list `remove_from_vec(v, item)` leaves behind. */
  function Forgotten<T(==)>(v: seq<T>, item: T): seq<T> {
    if item in v then Removed(v, FirstPosition(v, item)) else v
  }

  /** Exactly one occurrence of `item` goes, when there is one; every other element stays. */
  lemma ForgottenOccurrences<T>(v: seq<T>, item: T)
    ensures multiset(Forgotten(v, item)) == multiset(v) - multiset{item}
  {
    if item in v {
      var p := FirstPosition(v, item);
      assert v == v[..p] + [item] + v[p + 1..];
      calc {
        multiset(v);
        multiset(v[..p]) + multiset{item} + multiset(v[p + 1..]);
        multiset(Removed(v, p)) + multiset{item};
      }
    } else {
      assert multiset(v)[item] == 0;
    }
  }

  /** In a list without repeats, removing the first `item` removes it altogether. */
  lemma ForgottenDistinct<T>(v: seq<T>, item: T)
    requires Distinct(v)
    ensures Distinct(Forgotten(v, item))
    ensures forall x :: x in Forgotten(v, item) <==> x in v && x != item
    ensures |Forgotten(v, item)| == |v| - (if item in v then 1 else 0)
  {
    if item in v {
      var p := FirstPosition(v, item);
      var w := Removed(v, p);
      assert forall k :: 0 <= k < |w| ==> w[k] == v[if k < p then k else k + 1];
      forall x | x in v && x != item ensures x in w {
        var j :| 0 <= j < |v| && v[j] == x;
        assert w[if j < p then j else j - 1] == x;
      }
    }
  }

  /**
   * `remove_from_vec`: looks for the first element equal to `item`; if there
   * is one it is removed and the answer is true, otherwise the list is kept
   * and the answer is false.
   */
  method RemoveFromVec<T(==)>(v: seq<T>, item: T) returns (v': seq<T>, found: bool)
    ensures found <==> item in v
    ensures v' == Forgotten(v, item)
    ensures found ==> |v'| == |v| - 1 && v'[..FirstPosition(v, item)] == v[..FirstPosition(v, item)]
  {
    var i := 0;
    while i < |v| && v[i] != item
      invariant i <= |v| && item !in v[..i]
    {
      assert v[..i + 1] == v[..i] + [v[i]];
      i := i + 1;
    }
    if i < |v| {
      FirstPositionUnique(v, item, i);
      v', found := v[..i] + v[i + 1..], true;
    } else {
      assert v[..i] == v;
      v', found := v, false;
    }
  }

  /** Every stored ordered pair. */
  ghost function PairsOf<N(!new)>(m: map<N, seq<N>>): set<(N, N)> {
    set f, t | f in m && t in m[f] :: (f, t)
  }

  lemma PairsMember<N(!new)>(m: map<N, seq<N>>, e: (N, N))
    ensures e in PairsOf(m) <==> e.0 in m && e.1 in m[e.0]
  {
    if e.0 in m && e.1 in m[e.0] {
      assert e == (e.0, e.1);
    }
  }

  /** The pairs leaving `k` towards the members of `s`. */
  ghost function Outgoing<N(!new)>(k: N, s: seq<N>): set<(N, N)> {
    set t | t in s :: (k, t)
  }

  /** A list without repeats yields as many pairs as it is long. */
  lemma {:induction false} OutgoingSize<N(!new)>(k: N, s: seq<N>)
    requires Distinct(s)
    ensures |Outgoing(k, s)| == |s|
  {
    if s != [] {
      var init := s[..|s| - 1];
      var last := s[|s| - 1];
      assert s == init + [last];
      assert Distinct(init);
      OutgoingSize(k, init);
      assert Outgoing(k, s) == Outgoing(k, init) + {(k, last)};
      assert last !in init;
    }
  }

  /** The pairs leaving the nodes of `ks`. */
  ghost function PairsFrom<N(!new)>(m: map<N, seq<N>>, ks: seq<N>): set<(N, N)> {
    set f, t | f in ks && f in m && t in m[f] :: (f, t)
  }

  /** The sum of the lengths of the lists of the nodes in `ks`. */
  function Lengths<N(==, !new)>(m: map<N, seq<N>>, ks: seq<N>): nat {
    if ks == [] then 0
    else Lengths(m, ks[..|ks| - 1]) + (if ks[|ks| - 1] in m then |m[ks[|ks| - 1]]| else 0)
  }

  /** With no repeats anywhere, the pairs leaving `ks` are as many as their lists' lengths add up to. */
  lemma {:induction false} PairsFromSize<N(!new)>(m: map<N, seq<N>>, ks: seq<N>)
    requires Distinct(ks) && forall k :: k in m ==> Distinct(m[k])
    ensures |PairsFrom(m, ks)| == Lengths(m, ks)
  {
    if ks != [] {
      var init := ks[..|ks| - 1];
      var last := ks[|ks| - 1];
      assert ks == init + [last];
      assert Distinct(init);
      PairsFromSize(m, init);
      if last in m {
        assert PairsFrom(m, ks) == PairsFrom(m, init) + Outgoing(last, m[last]);
        assert PairsFrom(m, init) * Outgoing(last, m[last]) == {} by {
          assert last !in init;
        }
        OutgoingSize(last, m[last]);
      } else {
        assert PairsFrom(m, ks) == PairsFrom(m, init);
      }
    }
  }

  /** Distinct elements: the set of a list without repeats is as large as the list. */
  lemma {:induction false} DistinctSize<T>(s: seq<T>)
    requires Distinct(s)
    ensures |set x | x in s| == |s|
  {
    if s != [] {
      var init := s[..|s| - 1];
      assert s == init + [s[|s| - 1]];
      assert Distinct(init);
      DistinctSize(init);
      assert (set x | x in s) == (set x | x in init) + {s[|s| - 1]};
    }
  }

  /**
   * The shape every method keeps: no node twice, a list exactly for each node,
   * no neighbour twice in a list, and every neighbour itself a node.
   */
  ghost predicate Shaped<N(!new)>(nodes: seq<N>, edges: map<N, seq<N>>) {
    && Distinct(nodes)
    && (forall n :: n in edges <==> n in nodes)
    && (forall f :: f in edges ==> Distinct(edges[f]))
    && (forall f, t :: f in edges && t in edges[f] ==> t in edges)
  }

  /** A shaped graph has as many lists as nodes. */
  lemma ShapedSize<N(!new)>(nodes: seq<N>, edges: map<N, seq<N>>)
    ensures Shaped(nodes, edges) ==> |nodes| == |edges|
  {
    if Shaped(nodes, edges) {
      DistinctSize(nodes);
      assert edges.Keys == set n | n in nodes;
    }
  }

  /** `nodes` after `find_or_add(n)`: appended when new. */
  function Registered<N(==, !new)>(nodes: seq<N>, n: N): seq<N> {
    if n in nodes then nodes else nodes + [n]
  }

  /**
   * The map after `add_edge(f, t)` on an absent pair: `f`, then `t`, gets an
   * empty list if it had none, and `t` is appended to the list of `f`.
   */
  function Linked<N(==, !new)>(m: map<N, seq<N>>, f: N, t: N): map<N, seq<N>> {
    var m1 := if f in m then m else m[f := []];
    var m2 := if t in m1 then m1 else m1[t := []];
    m2[f := m2[f] + [t]]
  }

  /** The map after `remove_node(n)`: the list of `n` dropped, `n` forgotten in every other list. */
  function Unlinked<N(==, !new)>(m: map<N, seq<N>>, n: N): map<N, seq<N>> {
    map k | k in m && k != n :: Forgotten(m[k], n)
  }

  /** The nodes (other than those dropped) whose list holds `n`. */
  ghost function Holders<N(!new)>(m: map<N, seq<N>>, n: N): set<N> {
    set k | k in m && n in m[k]
  }

  lemma AddNodeShaped<N(!new)>(nodes: seq<N>, edges: map<N, seq<N>>, n: N)
    requires Shaped(nodes, edges) && n !in nodes
    ensures Shaped(nodes + [n], edges[n := []])
    ensures PairsOf(edges[n := []]) == PairsOf(edges)
  {
    forall e ensures e in PairsOf(edges[n := []]) <==> e in PairsOf(edges) {
      PairsMember(edges[n := []], e);
      PairsMember(edges, e);
    }
  }

  lemma AppendShaped<N(!new)>(nodes: seq<N>, edges: map<N, seq<N>>, f: N, t: N)
    requires Shaped(nodes, edges) && f in edges && t in edges && t !in edges[f]
    ensures Shaped(nodes, edges[f := edges[f] + [t]])
    ensures PairsOf(edges[f := edges[f] + [t]]) == PairsOf(edges) + {(f, t)}
  {
    var m := edges[f := edges[f] + [t]];
    forall e ensures e in PairsOf(m) <==> e in PairsOf(edges) + {(f, t)} {
      PairsMember(m, e);
      PairsMember(edges, e);
    }
  }

  /**
   * `add_edge` on an absent pair keeps the shape, adds exactly that pair and
   * registers exactly its two endpoints.
   */
  lemma LinkedShaped<N(!new)>(nodes: seq<N>, edges: map<N, seq<N>>, f: N, t: N)
    requires Shaped(nodes, edges) && (f, t) !in PairsOf(edges)
    ensures Shaped(Registered(Registered(nodes, f), t), Linked(edges, f, t))
    ensures PairsOf(Linked(edges, f, t)) == PairsOf(edges) + {(f, t)}
    ensures forall n :: n in Linked(edges, f, t) <==> n in edges || n == f || n == t
  {
    var nodes1, edges1 := nodes, edges;
    if f !in nodes1 {
      AddNodeShaped(nodes1, edges1, f);
      nodes1, edges1 := nodes1 + [f], edges1[f := []];
    }
    if t !in nodes1 {
      AddNodeShaped(nodes1, edges1, t);
      nodes1, edges1 := nodes1 + [t], edges1[t := []];
    }
    assert nodes1 == Registered(Registered(nodes, f), t);
    PairsMember(edges, (f, t));
    AppendShaped(nodes1, edges1, f, t);
    assert edges1[f := edges1[f] + [t]] == Linked(edges, f, t);
  }

  /** Forgetting `n` in the list of `k` loses the pair `(k, n)` and nothing else. */
  lemma ForgetPair<N(!new)>(m: map<N, seq<N>>, k: N, n: N)
    requires k in m && Distinct(m[k])
    ensures PairsOf(m[k := Forgotten(m[k], n)]) == PairsOf(m) - {(k, n)}
  {
    var m' := m[k := Forgotten(m[k], n)];
    ForgottenDistinct(m[k], n);
    forall e ensures e in PairsOf(m') <==> e in PairsOf(m) - {(k, n)} {
      PairsMember(m', e);
      PairsMember(m, e);
    }
  }

  /** Dropping the list of `n` loses exactly its outgoing pairs, as many as the list is long. */
  lemma DropEntry<N(!new)>(m: map<N, seq<N>>, n: N)
    requires n in m && Distinct(m[n])
    ensures PairsOf(m - {n}) == PairsOf(m) - Outgoing(n, m[n])
    ensures |PairsOf(m)| == |PairsOf(m - {n})| + |m[n]|
  {
    forall e ensures e in PairsOf(m - {n}) <==> e in PairsOf(m) - Outgoing(n, m[n]) {
      PairsMember(m - {n}, e);
      PairsMember(m, e);
      if e.0 == n && e.1 in m[n] {
        assert e in Outgoing(n, m[n]);
      }
    }
    assert PairsOf(m) == PairsOf(m - {n}) + Outgoing(n, m[n]);
    OutgoingSize(n, m[n]);
  }

  /** Visiting key `k` of the forgetting pass counts it exactly when its list held `n`. */
  lemma ForgetStep<N(!new)>(m0: map<N, seq<N>>, pending: set<N>, k: N, n: N)
    requires k in pending && pending <= m0.Keys
    ensures (set j | j in m0 && j !in pending - {k} && n in m0[j]) ==
              (set j | j in m0 && j !in pending && n in m0[j]) + (if n in m0[k] then {k} else {})
    ensures k !in (set j | j in m0 && j !in pending && n in m0[j])
  {
  }

  /** The lists of the keys no longer `pending` have lost `n`; the others are untouched. */
  ghost predicate ForgetDone<N(!new)>(m0: map<N, seq<N>>, m: map<N, seq<N>>, pending: set<N>, n: N) {
    && pending <= m.Keys && m.Keys == m0.Keys
    && (forall k :: k in m ==> m[k] == if k in pending then m0[k] else Forgotten(m0[k], n))
  }

  /**
   * What the `for_each` pass of `remove_node` has done so far: `toRemove`
   * counts the finished lists that held `n`, and that many pairs are gone.
   */
  ghost predicate ForgetProgress<N(!new)>(m0: map<N, seq<N>>, m: map<N, seq<N>>, pending: set<N>, toRemove: nat, n: N) {
    && ForgetDone(m0, m, pending, n)
    && |PairsOf(m)| + toRemove == |PairsOf(m0)|
    && toRemove == |set k | k in m0 && k !in pending && n in m0[k]|
  }

  lemma ForgetDoneStep<N(!new)>(m0: map<N, seq<N>>, m: map<N, seq<N>>, pending: set<N>, n: N, k: N)
    requires ForgetDone(m0, m, pending, n) && k in pending
    ensures m[k] == m0[k]
    ensures ForgetDone(m0, m[k := Forgotten(m[k], n)], pending - {k}, n)
  {
  }

  lemma ForgetPairsStep<N(!new)>(m0: map<N, seq<N>>, m: map<N, seq<N>>, toRemove: nat, n: N, k: N)
    requires k in m && Distinct(m[k]) && |PairsOf(m)| + toRemove == |PairsOf(m0)|
    ensures |PairsOf(m[k := Forgotten(m[k], n)])| + toRemove + (if n in m[k] then 1 else 0) == |PairsOf(m0)|
  {
    ForgetPair(m, k, n);
    PairsMember(m, (k, n));
  }

  /** One key of the pass. */
  lemma ForgetProgressStep<N(!new)>(m0: map<N, seq<N>>, m: map<N, seq<N>>, pending: set<N>, toRemove: nat, n: N, k: N)
    requires forall j :: j in m0 ==> Distinct(m0[j])
    requires ForgetProgress(m0, m, pending, toRemove, n) && k in pending
    ensures ForgetProgress(m0, m[k := Forgotten(m[k], n)], pending - {k}, toRemove + (if n in m[k] then 1 else 0), n)
  {
    ForgetDoneStep(m0, m, pending, n, k);
    ForgetPairsStep(m0, m, toRemove, n, k);
    ForgetStep(m0, pending, k, n);
  }

  /**
   * The `for_each` pass of `remove_node`: `remove_from_vec(v, n)` on every
   * list, counting the lists that held `n`. The stored pairs shrink by that count.
   */
  method ForgetEverywhere<N(==, !new)>(m0: map<N, seq<N>>, n: N) returns (m: map<N, seq<N>>, toRemove: nat)
    requires forall k :: k in m0 ==> Distinct(m0[k])
    ensures m.Keys == m0.Keys && forall k :: k in m ==> m[k] == Forgotten(m0[k], n)
    ensures toRemove == |Holders(m0, n)|
    ensures |PairsOf(m)| + toRemove == |PairsOf(m0)|
  {
    m := m0;
    toRemove := 0;
    var pending := m.Keys;
    while pending != {}
      invariant ForgetProgress(m0, m, pending, toRemove, n)
      decreases pending
    {
      var k :| k in pending;
      ForgetProgressStep(m0, m, pending, toRemove, n, k);
      var v, found := RemoveFromVec(m[k], n);
      m := m[k := v];
      if found {
        toRemove := toRemove + 1;
      }
      pending := pending - {k};
    }
    assert (set k | k in m0 && k !in pending && n in m0[k]) == Holders(m0, n);
  }

  /**
   * What `remove_node` leaves once the list of `n` is dropped and the pass
   * over the other lists is done: the shape holds, the node vector is one
   * shorter, and the pairs left are those not touching `n`.
   */
  lemma RemoveNodeFacts<N(!new)>(nodes: seq<N>, edges: map<N, seq<N>>, n: N, m: map<N, seq<N>>, toRemove: nat)
    requires Shaped(nodes, edges) && n in nodes
    requires m.Keys == (edges - {n}).Keys && forall k :: k in m ==> m[k] == Forgotten((edges - {n})[k], n)
    requires |PairsOf(m)| + toRemove == |PairsOf(edges - {n})|
    ensures m == Unlinked(edges, n)
    ensures Shaped(Forgotten(nodes, n), m) && |Forgotten(nodes, n)| == |nodes| - 1
    ensures |PairsOf(edges)| - |edges[n]| - toRemove == |PairsOf(m)|
    ensures PairsOf(m) == set e | e in PairsOf(edges) && e.0 != n && e.1 != n
  {
    assert m == Unlinked(edges, n);
    RemoveNodeShaped(nodes, edges, n);
    DropEntry(edges, n);
    ForgottenDistinct(nodes, n);
  }

  /** Removing node `n` keeps the shape and exactly the pairs that do not touch it. */
  lemma RemoveNodeShaped<N(!new)>(nodes: seq<N>, edges: map<N, seq<N>>, n: N)
    requires Shaped(nodes, edges) && n in nodes
    ensures Shaped(Forgotten(nodes, n), Unlinked(edges, n))
    ensures PairsOf(Unlinked(edges, n)) == set e | e in PairsOf(edges) && e.0 != n && e.1 != n
  {
    var m := Unlinked(edges, n);
    ForgottenDistinct(nodes, n);
    forall k | k in m ensures Distinct(m[k]) && forall x :: x in m[k] <==> x in edges[k] && x != n {
      ForgottenDistinct(edges[k], n);
    }
    forall e ensures e in PairsOf(m) <==> e in PairsOf(edges) && e.0 != n && e.1 != n {
      PairsMember(m, e);
      PairsMember(edges, e);
    }
  }

  class AdjMatrixGraph<N(==, !new)> {
    var nodes: seq<N>
    var edges: map<N, seq<N>>
    var edgeCount: nat

    /** The shape holds and the counter is the number of stored pairs. */
    ghost predicate Valid()
      reads this
    {
      Shaped(nodes, edges) && edgeCount == |PairsOf(edges)|
    }

    /** The ordered pairs present in the graph. */
    ghost function Edges(): set<(N, N)>
      reads this
    {
      PairsOf(edges)
    }

    /**
     * The graph as the algorithms read it through the `Graph<N>` trait. Its
     * queries agree with this backend's, and on a valid graph it is well formed
     * and every node has an adjacency entry.
     */
    function Contract(): (g: View<N>)
      reads this
      ensures forall n :: g.HasNode(n) <==> HasNode(n)
      ensures forall f, t :: g.HasEdge(f, t) <==> HasEdge(f, t)
      ensures forall n :: g.IterAdj(n) == IterAdj(n)
      ensures Valid() ==> g.WellFormed() && forall n :: n in g.nodes ==> n in g.adj
    {
      View((set n | n in nodes), edges)
    }

    /** `AdjMatrixGraph::new`: no nodes, no edges. */
    constructor ()
      ensures Valid()
      ensures nodes == [] && edges == map[] && edgeCount == 0
    {
      nodes := [];
      edges := map[];
      edgeCount := 0;
    }

    /** `has_node`: `n` is in the node vector, which on a valid graph means it has a list. */
    function HasNode(n: N): (r: bool)
      reads this
      ensures Valid() ==> (r <==> n in edges)
    {
      n in nodes
    }

    /** `has_edge`: false when `f` has no list, otherwise whether `t` is in it. */
    function HasEdge(f: N, t: N): (r: bool)
      reads this
      ensures r <==> (f, t) in Edges()
      ensures f !in edges ==> !r
      ensures Valid() && r ==> HasNode(f) && HasNode(t)
    {
      PairsMember(edges, (f, t));
      match if f in edges then Some(edges[f]) else None
      case Some(v) => t in v
      case None => false
    }

    /** `node_count`: the length of the node vector, which is the number of lists. */
    function NodeCount(): (r: nat)
      reads this
      ensures Valid() ==> r == |edges|
    {
      ShapedSize(nodes, edges);
      |nodes|
    }

    /** `edge_count`: the counter, which is the number of present pairs and the sum of the list lengths. */
    function EdgeCount(): (r: nat)
      reads this
      requires Valid()
      ensures r == |Edges()|
      ensures r == Lengths(edges, nodes)
    {
      PairsFromSize(edges, nodes);
      assert PairsFrom(edges, nodes) == PairsOf(edges);
      edgeCount
    }

    /** `iter_nodes`: the node vector; no node twice, exactly the nodes with a list. */
    function IterNodes(): (r: seq<N>)
      reads this
      ensures Valid() ==> Distinct(r) && |r| == NodeCount() && forall n :: n in r <==> n in edges
    {
      nodes
    }

    /** `iter_adj`: none for a node without a list, otherwise its list: every target of its pairs, once. */
    function IterAdj(n: N): (r: Option<seq<N>>)
      reads this
      ensures r.None? <==> n !in edges
      ensures r.Some? ==> forall t :: t in r.value <==> HasEdge(n, t)
      ensures Valid() && r.Some? ==> Distinct(r.value)
    {
      if n in edges then Some(edges[n]) else None
    }

    /** `iter_edges`: every pair `has_edge` accepts; on a valid graph, `edge_count` of them. */
    function IterEdges(): (r: set<(N, N)>)
      reads this
      ensures forall f, t :: (f, t) in r <==> HasEdge(f, t)
      ensures Valid() ==> |r| == EdgeCount()
    {
      var s := set f, t | f in edges && t in edges[f] :: (f, t);
      assert s == PairsOf(edges);
      s
    }

    /**
     * `add_node`: appends `n` and gives it an empty list. The source does not
     * look for `n` first; adding a present node would list it twice and wipe
     * its neighbours, so the node must be new.
     */
    method AddNode(n: N)
      requires Valid() && !HasNode(n)
      modifies this
      ensures Valid()
      ensures nodes == old(nodes) + [n] && edges == old(edges)[n := []] && edgeCount == old(edgeCount)
      ensures Edges() == old(Edges()) && NodeCount() == old(NodeCount()) + 1
    {
      AddNodeShaped(nodes, edges, n);
      nodes := nodes + [n];
      edges := edges[n := []];
    }

    /** `find_or_add`: `n`, added first when it is not a node yet. */
    method FindOrAdd(n: N) returns (r: N)
      requires Valid()
      modifies this
      ensures Valid() && r == n
      ensures nodes == Registered(old(nodes), n)
      ensures edges == if n in old(edges) then old(edges) else old(edges)[n := []]
      ensures edgeCount == old(edgeCount) && Edges() == old(Edges())
    {
      if !HasNode(n) {
        AddNode(n);
      }
      r := n;
    }

    /**
     * `add_edge`: nothing when the pair is present. Otherwise both endpoints
     * are added when missing, `t` is appended to the list of `f`, and the
     * counter goes up by one.
     */
    method AddEdge(f: N, t: N)
      requires Valid()
      modifies this
      ensures Valid()
      ensures old(HasEdge(f, t)) ==> nodes == old(nodes) && edges == old(edges) && edgeCount == old(edgeCount)
      ensures !old(HasEdge(f, t)) ==>
                && nodes == Registered(Registered(old(nodes), f), t)
                && edges == Linked(old(edges), f, t)
                && edgeCount == old(edgeCount) + 1
      ensures Edges() == old(Edges()) + {(f, t)}
      ensures forall n :: HasNode(n) <==> old(HasNode(n)) || n == f || n == t
    {
      if HasEdge(f, t) {
        return;
      }
      PairsMember(edges, (f, t));
      LinkedShaped(nodes, edges, f, t);
      ghost var linked := Linked(edges, f, t);
      var fr := FindOrAdd(f);
      var tr := FindOrAdd(t);
      edges := edges[fr := edges[fr] + [tr]];
      assert edges == linked;
      edgeCount := edgeCount + 1;
    }

    /**
     * `remove_edge`: nothing when the pair is absent. Otherwise `t` is removed
     * from the list of `f` and the counter goes down by one.
     */
    method RemoveEdge(f: N, t: N)
      requires Valid()
      modifies this
      ensures Valid() && nodes == old(nodes)
      ensures !old(HasEdge(f, t)) ==> edges == old(edges) && edgeCount == old(edgeCount)
      ensures old(HasEdge(f, t)) ==>
                edges == old(edges)[f := Forgotten(old(edges)[f], t)] && edgeCount == old(edgeCount) - 1
      ensures Edges() == old(Edges()) - {(f, t)}
    {
      if !HasEdge(f, t) {
        return;
      }
      ForgetPair(edges, f, t);
      ForgottenDistinct(edges[f], t);
      var v, found := RemoveFromVec(edges[f], t);
      edges := edges[f := v];
      if found {
        edgeCount := edgeCount - 1;
      }
    }

    /**
     * `remove_node`: nothing for an absent node. Otherwise `n` leaves the node
     * vector, its list is dropped and its length subtracted, then `n` is
     * removed from every other list and one is subtracted per list that held
     * it. Exactly the pairs touching `n` disappear.
     */
    method RemoveNode(n: N)
      requires Valid()
      modifies this
      ensures Valid()
      ensures !old(HasNode(n)) ==> nodes == old(nodes) && edges == old(edges) && edgeCount == old(edgeCount)
      ensures old(HasNode(n)) ==>
                && nodes == Forgotten(old(nodes), n)
                && edges == Unlinked(old(edges), n)
                && edgeCount == old(edgeCount) - |old(edges)[n]| - |Holders(old(edges) - {n}, n)|
      ensures Edges() == set e | e in old(Edges()) && e.0 != n && e.1 != n
      ensures NodeCount() == old(NodeCount()) - (if old(HasNode(n)) then 1 else 0)
    {
      if !HasNode(n) {
        assert Edges() == set e | e in old(Edges()) && e.0 != n && e.1 != n;
        return;
      }
      DropEntry(edges, n);
      var rest, _ := RemoveFromVec(nodes, n);
      var count := edgeCount - |edges[n]|;
      var m, toRemove := ForgetEverywhere(edges - {n}, n);
      RemoveNodeFacts(nodes, edges, n, m, toRemove);
      nodes, edges, edgeCount := rest, m, count - toRemove;
    }
  }
}
