/**
 * `IncMatrixGraph` of rust_graph_lib: a square boolean matrix whose row and
 * column `id - 1` belong to the node registered under `id` in a compacting
 * `DoubleMapping`, plus an explicit edge counter. Cell `[i][j]` is the ordered
 * pair from the node in slot `i` to the node in slot `j`.
 */
module IncMatrix {
  import opened Wrappers
  import opened Mapping

  /** Cell `[i][j]`, read as absent when it lies outside the matrix. */
  predicate Cell(m: seq<seq<bool>>, i: int, j: int) {
    0 <= i < |m| && 0 <= j < |m[i]| && m[i][j]
  }

  predicate Square(m: seq<seq<bool>>) {
    forall i :: 0 <= i < |m| ==> |m[i]| == |m|
  }

  /** The number of `true` cells in a row. */
  function RowCount(r: seq<bool>): nat {
    if r == [] then 0 else RowCount(r[..|r| - 1]) + (if r[|r| - 1] then 1 else 0)
  }

  /** The number of `true` cells in a matrix. */
  function CellCount(m: seq<seq<bool>>): nat {
    if m == [] then 0 else CellCount(m[..|m| - 1]) + RowCount(m[|m| - 1])
  }

  /** The ordered pairs of registered objects whose cell is set. */
  ghost function EdgesOf<N>(toIndex: map<N, nat>, m: seq<seq<bool>>): set<(N, N)> {
    set f, t | f in toIndex && t in toIndex && Cell(m, toIndex[f] as int - 1, toIndex[t] as int - 1) :: (f, t)
  }

  /** The matrix after `add_node`: one more row and column, all unset, every old cell kept. */
  function Grown(m: seq<seq<bool>>): (r: seq<seq<bool>>)
    ensures |r| == |m| + 1 && Square(r)
  {
    seq(|m| + 1, i => seq(|m| + 1, j => Cell(m, i, j)))
  }

  /** The index a row or column had before slot `k` was deleted. */
  function Skip(i: int, k: int): int {
    if i < k then i else i + 1
  }

  /** The matrix after `remove_node` of the node in slot `k`: its row and its column deleted. */
  function Shrunk(m: seq<seq<bool>>, k: nat): (r: seq<seq<bool>>)
    requires k < |m|
    ensures |r| == |m| - 1 && Square(r)
  {
    seq(|m| - 1, i => seq(|m| - 1, j => Cell(m, Skip(i, k), Skip(j, k))))
  }

  /** `v.remove(k)` on a row. */
  function Without(r: seq<bool>, k: nat): seq<bool>
    requires k < |r|
  {
    r[..k] + r[k + 1..]
  }

  lemma {:induction false} RowCountAppend(a: seq<bool>, b: seq<bool>)
    ensures RowCount(a + b) == RowCount(a) + RowCount(b)
  {
    if b == [] {
      assert a + b == a;
    } else {
      RowCountAppend(a, b[..|b| - 1]);
      assert (a + b)[..|a + b| - 1] == a + b[..|b| - 1];
      assert (a + b)[|a + b| - 1] == b[|b| - 1];
    }
  }

  lemma {:induction false} CellCountAppend(a: seq<seq<bool>>, b: seq<seq<bool>>)
    ensures CellCount(a + b) == CellCount(a) + CellCount(b)
  {
    if b == [] {
      assert a + b == a;
    } else {
      CellCountAppend(a, b[..|b| - 1]);
      assert (a + b)[..|a + b| - 1] == a + b[..|b| - 1];
      assert (a + b)[|a + b| - 1] == b[|b| - 1];
    }
  }

  lemma {:induction false} RowCountFalse(k: nat)
    ensures RowCount(seq(k, _ => false)) == 0
  {
    if k > 0 {
      RowCountFalse(k - 1);
      assert seq(k, _ => false)[..k - 1] == seq(k - 1, _ => false);
    }
  }

  /** Dropping entry `k` of a row loses exactly that entry's count. */
  lemma {:induction false} RowCountWithout(r: seq<bool>, k: nat)
    requires k < |r|
    ensures RowCount(r) == RowCount(Without(r, k)) + (if r[k] then 1 else 0)
  {
    var front, mid, back := r[..k], [r[k]], r[k + 1..];
    assert r == front + (mid + back);
    RowCountAppend(front, mid + back);
    RowCountAppend(mid, back);
    RowCountAppend(front, back);
    assert RowCount(mid) == (if r[k] then 1 else 0) by {
      assert mid[..0] == [];
    }
  }

  /** Overwriting entry `k` of a row changes its count by the difference of the two values. */
  lemma {:induction false} RowCountUpdate(r: seq<bool>, k: nat, v: bool)
    requires k < |r|
    ensures RowCount(r[k := v]) + (if r[k] then 1 else 0) == RowCount(r) + (if v then 1 else 0)
  {
    RowCountWithout(r, k);
    RowCountWithout(r[k := v], k);
    assert Without(r[k := v], k) == Without(r, k);
  }

  /** Replacing row `k` changes the matrix count by the difference of the two row counts. */
  lemma {:induction false} CellCountUpdate(m: seq<seq<bool>>, k: nat, row: seq<bool>)
    requires k < |m|
    ensures CellCount(m[k := row]) + RowCount(m[k]) == CellCount(m) + RowCount(row)
  {
    CellCountWithout(m, k);
    CellCountWithout(m[k := row], k);
    assert m[k := row][..k] + m[k := row][k + 1..] == m[..k] + m[k + 1..];
  }

  /** Deleting row `k` loses exactly that row's count. */
  lemma {:induction false} CellCountWithout(m: seq<seq<bool>>, k: nat)
    requires k < |m|
    ensures CellCount(m) == CellCount(m[..k] + m[k + 1..]) + RowCount(m[k])
  {
    var front, mid, back := m[..k], [m[k]], m[k + 1..];
    assert m == front + (mid + back);
    CellCountAppend(front, mid + back);
    CellCountAppend(mid, back);
    CellCountAppend(front, back);
    assert CellCount(mid) == RowCount(m[k]) by {
      assert mid[..0] == [];
    }
  }

  lemma EdgesOfMember<N>(toIndex: map<N, nat>, m: seq<seq<bool>>, e: (N, N))
    ensures e in EdgesOf(toIndex, m) <==>
            e.0 in toIndex && e.1 in toIndex && Cell(m, toIndex[e.0] as int - 1, toIndex[e.1] as int - 1)
  {
    if e.0 in toIndex && e.1 in toIndex && Cell(m, toIndex[e.0] as int - 1, toIndex[e.1] as int - 1) {
      assert e == (e.0, e.1);
    }
  }

  /** Growing the matrix and registering `n` under the new last id adds no pair. */
  lemma GrowKeepsEdges<N>(toIndex: map<N, nat>, m: seq<seq<bool>>, n: N)
    requires Square(m) && n !in toIndex
    requires forall o :: o in toIndex ==> 1 <= toIndex[o] <= |m|
    ensures EdgesOf(toIndex[n := |m| + 1], Grown(m)) == EdgesOf(toIndex, m)
  {
    var t := toIndex[n := |m| + 1];
    forall f, g | f in t && g in t
      ensures Cell(Grown(m), t[f] as int - 1, t[g] as int - 1) <==>
              f != n && g != n && Cell(m, toIndex[f] as int - 1, toIndex[g] as int - 1)
    {
    }
  }

  /** Setting or clearing the cell of `(f, t)` adds or removes exactly that pair. */
  lemma UpdateCellEdges<N>(toIndex: map<N, nat>, fromIndex: seq<Option<N>>, m: seq<seq<bool>>, f: N, t: N, v: bool)
    requires Consistent(toIndex, fromIndex, true) && |fromIndex| == |m| && Square(m)
    requires f in toIndex && t in toIndex
    ensures var i, j := toIndex[f] - 1, toIndex[t] - 1;
            EdgesOf(toIndex, m[i := m[i][j := v]]) ==
              if v then EdgesOf(toIndex, m) + {(f, t)} else EdgesOf(toIndex, m) - {(f, t)}
  {
    var i, j := toIndex[f] - 1, toIndex[t] - 1;
    var before, after := EdgesOf(toIndex, m), EdgesOf(toIndex, m[i := m[i][j := v]]);
    forall e ensures e in after <==> if e == (f, t) then v else e in before {
      UpdateCellEdge(toIndex, fromIndex, m, f, t, v, e);
    }
    if v {
      assert after == before + {(f, t)};
    } else {
      assert after == before - {(f, t)};
    }
  }

  lemma UpdateCellEdge<N>(toIndex: map<N, nat>, fromIndex: seq<Option<N>>, m: seq<seq<bool>>, f: N, t: N, v: bool, e: (N, N))
    requires Consistent(toIndex, fromIndex, true) && |fromIndex| == |m| && Square(m)
    requires f in toIndex && t in toIndex
    ensures var i, j := toIndex[f] - 1, toIndex[t] - 1;
            e in EdgesOf(toIndex, m[i := m[i][j := v]]) <==> if e == (f, t) then v else e in EdgesOf(toIndex, m)
  {
    var i, j := toIndex[f] - 1, toIndex[t] - 1;
    var m' := m[i := m[i][j := v]];
    EdgesOfMember(toIndex, m', e);
    EdgesOfMember(toIndex, m, e);
    var (a, b) := e;
    if a in toIndex && b in toIndex && toIndex[a] - 1 == i && toIndex[b] - 1 == j {
      ConsistentInjective(toIndex, fromIndex, true, a, f);
      ConsistentInjective(toIndex, fromIndex, true, b, t);
    }
  }

  /** Deleting the row and column of `n` and renumbering the later ids drops exactly the pairs that touch `n`. */
  lemma ShrinkEdges<N>(toIndex: map<N, nat>, fromIndex: seq<Option<N>>, m: seq<seq<bool>>, n: N)
    requires Consistent(toIndex, fromIndex, true) && |fromIndex| == |m| && Square(m) && n in toIndex
    ensures var k := toIndex[n] - 1;
            EdgesOf(Decremented(toIndex - {n}, k), Shrunk(m, k)) ==
              set e | e in EdgesOf(toIndex, m) && e.0 != n && e.1 != n
  {
    var k := toIndex[n] - 1;
    var t := Decremented(toIndex - {n}, k);
    var before, after := EdgesOf(toIndex, m), EdgesOf(t, Shrunk(m, k));
    forall e ensures e in after <==> e in before && e.0 != n && e.1 != n {
      ShrinkEdge(toIndex, fromIndex, m, n, e);
    }
    assert after == set e | e in before && e.0 != n && e.1 != n;
  }

  lemma ShrinkEdge<N>(toIndex: map<N, nat>, fromIndex: seq<Option<N>>, m: seq<seq<bool>>, n: N, e: (N, N))
    requires Consistent(toIndex, fromIndex, true) && |fromIndex| == |m| && Square(m) && n in toIndex
    ensures var k := toIndex[n] - 1;
            e in EdgesOf(Decremented(toIndex - {n}, k), Shrunk(m, k)) <==>
              e in EdgesOf(toIndex, m) && e.0 != n && e.1 != n
  {
    var k := toIndex[n] - 1;
    var t := Decremented(toIndex - {n}, k);
    EdgesOfMember(t, Shrunk(m, k), e);
    EdgesOfMember(toIndex, m, e);
    if e.0 in t && e.1 in t {
      ShrinkCell(toIndex, fromIndex, m, n, e.0, e.1);
    }
  }

  /** After the deletion, a surviving pair of objects reads the cell it read before. */
  lemma ShrinkCell<N>(toIndex: map<N, nat>, fromIndex: seq<Option<N>>, m: seq<seq<bool>>, n: N, a: N, b: N)
    requires Consistent(toIndex, fromIndex, true) && |fromIndex| == |m| && Square(m) && n in toIndex
    requires a in toIndex && b in toIndex && a != n && b != n
    ensures var k := toIndex[n] - 1;
            var t := Decremented(toIndex - {n}, k);
            a in t && b in t &&
            (Cell(Shrunk(m, k), t[a] as int - 1, t[b] as int - 1) <==>
             Cell(m, toIndex[a] as int - 1, toIndex[b] as int - 1))
  {
    var k := toIndex[n] - 1;
    var t := Decremented(toIndex - {n}, k);
    ShrunkId(toIndex, fromIndex, n, a, |m|);
    ShrunkId(toIndex, fromIndex, n, b, |m|);
  }

  lemma ShrunkId<N>(toIndex: map<N, nat>, fromIndex: seq<Option<N>>, n: N, a: N, size: nat)
    requires Consistent(toIndex, fromIndex, true) && |fromIndex| == size && n in toIndex
    requires a in toIndex && a != n
    ensures var k := toIndex[n] - 1;
            var t := Decremented(toIndex - {n}, k);
            a in t && 1 <= t[a] <= size - 1 && Skip(t[a] - 1, k) == toIndex[a] - 1
  {
    if toIndex[a] == toIndex[n] {
      ConsistentInjective(toIndex, fromIndex, true, a, n);
    }
  }

  /** The set columns of a registered node's row are exactly the targets of its pairs. */
  lemma AdjacentAreTargets<N>(toIndex: map<N, nat>, fromIndex: seq<Option<N>>, m: seq<seq<bool>>, n: N)
    requires Consistent(toIndex, fromIndex, true) && |fromIndex| == |m| && Square(m) && n in toIndex
    ensures var i := toIndex[n] - 1;
            forall j :: 0 <= j < |m[i]| && m[i][j] ==> fromIndex[j].Some? && (n, fromIndex[j].value) in EdgesOf(toIndex, m)
    ensures var i := toIndex[n] - 1;
            forall e :: e in EdgesOf(toIndex, m) && e.0 == n ==>
              0 <= toIndex[e.1] - 1 < |m[i]| && m[i][toIndex[e.1] - 1] && fromIndex[toIndex[e.1] - 1] == Some(e.1)
  {
    var i := toIndex[n] - 1;
    forall j | 0 <= j < |m[i]| && m[i][j] ensures fromIndex[j].Some? && (n, fromIndex[j].value) in EdgesOf(toIndex, m) {
      assert fromIndex[j].Some?;
      EdgesOfMember(toIndex, m, (n, fromIndex[j].value));
    }
    forall e | e in EdgesOf(toIndex, m) && e.0 == n
      ensures 0 <= toIndex[e.1] - 1 < |m[i]| && m[i][toIndex[e.1] - 1] && fromIndex[toIndex[e.1] - 1] == Some(e.1)
    {
      EdgesOfMember(toIndex, m, e);
    }
  }

  /** Row `k` of the grown matrix is the old row, or an unset row for the new node, with one unset cell appended. */
  lemma GrowRow(m: seq<seq<bool>>, k: nat)
    requires Square(m) && k <= |m|
    ensures (if k < |m| then m[k] else seq(|m|, _ => false)) + [false] == Grown(m)[k]
  {
  }

  /** Deleting row `k` and then entry `k` of every remaining row gives the shrunk matrix. */
  lemma ShrunkRows(m: seq<seq<bool>>, k: nat, r: seq<seq<bool>>)
    requires Square(m) && k < |m| && |r| == |m| - 1
    requires forall a :: 0 <= a < |r| ==> r[a] == Without((m[..k] + m[k + 1..])[a], k)
    ensures r == Shrunk(m, k)
  {
    forall a | 0 <= a < |r| ensures r[a] == Shrunk(m, k)[a] {
      assert (m[..k] + m[k + 1..])[a] == m[Skip(a, k)];
    }
  }

  /**
   * The neighbours `iter_adj` should yield for a row: the object in slot `j`
   * for every set column `j`, in column order.
   */
  function Neighbours<N>(row: seq<bool>, slots: seq<Option<N>>): (r: seq<N>)
    requires |row| <= |slots| && NoGaps(slots)
    ensures |r| == RowCount(row)
    ensures forall t :: t in r ==> exists j :: 0 <= j < |row| && row[j] && slots[j] == Some(t)
    ensures forall j :: 0 <= j < |row| && row[j] ==> slots[j].value in r
  {
    if row == [] then []
    else
      var j := |row| - 1;
      Neighbours(row[..j], slots) + (if row[j] then [slots[j].value] else [])
  }

  /**
   * The neighbours `iter_adj` yields as written: a set column `j` is looked up
   * as id `j` although ids start at 1, so it finds the object in slot `j - 1`.
   * `None` stands for the `unwrap` panic (column 0 makes `get_by_id` subtract
   * below zero).
   */
  function NeighboursAsWritten<N>(row: seq<bool>, slots: seq<Option<N>>): seq<Option<N>> {
    if row == [] then []
    else
      var j := |row| - 1;
      NeighboursAsWritten(row[..j], slots) + (if row[j] then [if 1 <= j <= |slots| then slots[j - 1] else None] else [])
  }

  /**
   * With two nodes `a` (id 1) and `b` (id 2), the edge `a -> b` is reported as
   * `a -> a`, and listing the neighbours of `b` after adding `b -> a` panics.
   */
  lemma IterAdjShifted<N>(a: N, b: N)
    requires a != b
    ensures NeighboursAsWritten([false, true], [Some(a), Some(b)]) == [Some(a)]
    ensures Neighbours([false, true], [Some(a), Some(b)]) == [b]
    ensures NeighboursAsWritten([true, false], [Some(a), Some(b)]) == [None]
    ensures Neighbours([true, false], [Some(a), Some(b)]) == [a]
  {
    var slots := [Some(a), Some(b)];
    assert [false, true][..1] == [false] && [true, false][..1] == [true];
    assert [false][..0] == [] && [true][..0] == [];
    assert NeighboursAsWritten([false], slots) == [];
    assert NeighboursAsWritten([true], slots) == [None];
    assert Neighbours([false], slots) == [];
    assert Neighbours([true], slots) == [a];
  }

  /** The set cells of a matrix as coordinate pairs. */
  ghost function CellsOf(m: seq<seq<bool>>): set<(int, int)> {
    set i, j | 0 <= i < |m| && 0 <= j < |m[i]| && m[i][j] :: (i, j)
  }

  ghost function RowCells(i: int, r: seq<bool>): set<(int, int)> {
    set j | 0 <= j < |r| && r[j] :: (i, j)
  }

  lemma RowCellsMember(i: int, r: seq<bool>, c: (int, int))
    ensures c in RowCells(i, r) <==> c.0 == i && 0 <= c.1 < |r| && r[c.1]
  {
    if c.0 == i && 0 <= c.1 < |r| && r[c.1] {
      assert c == (i, c.1);
    }
  }

  lemma {:induction false} RowCellsSize(i: int, r: seq<bool>)
    ensures |RowCells(i, r)| == RowCount(r)
  {
    if r != [] {
      var j := |r| - 1;
      RowCellsSize(i, r[..j]);
      var extra: set<(int, int)> := if r[j] then {(i, j)} else {};
      forall c ensures c in RowCells(i, r) <==> c in RowCells(i, r[..j]) + extra {
        RowCellsMember(i, r, c);
        RowCellsMember(i, r[..j], c);
      }
      assert RowCells(i, r) == RowCells(i, r[..j]) + extra;
    }
  }

  lemma {:induction false} CellsOfSize(m: seq<seq<bool>>)
    ensures |CellsOf(m)| == CellCount(m)
  {
    if m != [] {
      var i := |m| - 1;
      CellsOfSize(m[..i]);
      RowCellsSize(i, m[i]);
      assert CellsOf(m) == CellsOf(m[..i]) + RowCells(i, m[i]);
      assert CellsOf(m[..i]) !! RowCells(i, m[i]);
    }
  }

  /** The cell a pair of objects occupies: both ids made zero-based (-1 for an unregistered object). */
  function CellOf<N>(toIndex: map<N, nat>, e: (N, N)): (int, int) {
    ((if e.0 in toIndex then toIndex[e.0] as int else 0) - 1, (if e.1 in toIndex then toIndex[e.1] as int else 0) - 1)
  }

  /**
   * On a compacting registry matching the matrix, pairs and set cells
   * correspond one to one, so there are as many present pairs as set cells.
   */
  lemma EdgesSize<N>(toIndex: map<N, nat>, fromIndex: seq<Option<N>>, m: seq<seq<bool>>)
    requires Consistent(toIndex, fromIndex, true) && |fromIndex| == |m| && Square(m)
    ensures |EdgesOf(toIndex, m)| == CellCount(m)
  {
    EdgesImageSize(toIndex, fromIndex, m);
    EdgesImage(toIndex, fromIndex, m);
    CellsOfSize(m);
  }

  lemma EdgesImageSize<N>(toIndex: map<N, nat>, fromIndex: seq<Option<N>>, m: seq<seq<bool>>)
    requires Consistent(toIndex, fromIndex, true)
    ensures |set e | e in EdgesOf(toIndex, m) :: CellOf(toIndex, e)| == |EdgesOf(toIndex, m)|
  {
    var edges := EdgesOf(toIndex, m);
    forall x, y | x in edges && y in edges && CellOf(toIndex, x) == CellOf(toIndex, y) ensures x == y {
      CellOfInjective(toIndex, fromIndex, m, x, y);
    }
    InjectiveCellsSize(toIndex, edges);
  }

  /** Pairs occupying distinct cells occupy as many cells as there are pairs. */
  lemma {:induction false} InjectiveCellsSize<N>(toIndex: map<N, nat>, s: set<(N, N)>)
    requires forall x, y :: x in s && y in s && CellOf(toIndex, x) == CellOf(toIndex, y) ==> x == y
    ensures |set e | e in s :: CellOf(toIndex, e)| == |s|
  {
    if s != {} {
      var x :| x in s;
      InjectiveCellsSize(toIndex, s - {x});
      assert (set e | e in s :: CellOf(toIndex, e)) == (set e | e in s - {x} :: CellOf(toIndex, e)) + {CellOf(toIndex, x)};
    }
  }

  lemma EdgesImage<N>(toIndex: map<N, nat>, fromIndex: seq<Option<N>>, m: seq<seq<bool>>)
    requires Consistent(toIndex, fromIndex, true) && |fromIndex| == |m| && Square(m)
    ensures (set e | e in EdgesOf(toIndex, m) :: CellOf(toIndex, e)) == CellsOf(m)
  {
    forall c ensures c in (set e | e in EdgesOf(toIndex, m) :: CellOf(toIndex, e)) <==> c in CellsOf(m) {
      CellOfMember(toIndex, fromIndex, m, c);
    }
  }

  lemma CellOfMember<N>(toIndex: map<N, nat>, fromIndex: seq<Option<N>>, m: seq<seq<bool>>, c: (int, int))
    requires Consistent(toIndex, fromIndex, true) && |fromIndex| == |m| && Square(m)
    ensures c in (set e | e in EdgesOf(toIndex, m) :: CellOf(toIndex, e)) <==> c in CellsOf(m)
  {
    if c in CellsOf(m) {
      var e := CellOfOnto(toIndex, fromIndex, m, c);
    }
    if c in (set e | e in EdgesOf(toIndex, m) :: CellOf(toIndex, e)) {
      var e :| e in EdgesOf(toIndex, m) && CellOf(toIndex, e) == c;
      EdgesOfMember(toIndex, m, e);
    }
  }

  lemma CellOfInjective<N>(toIndex: map<N, nat>, fromIndex: seq<Option<N>>, m: seq<seq<bool>>, x: (N, N), y: (N, N))
    requires Consistent(toIndex, fromIndex, true)
    requires x in EdgesOf(toIndex, m) && y in EdgesOf(toIndex, m) && CellOf(toIndex, x) == CellOf(toIndex, y)
    ensures x == y
  {
    EdgesOfMember(toIndex, m, x);
    EdgesOfMember(toIndex, m, y);
    ConsistentInjective(toIndex, fromIndex, true, x.0, y.0);
    ConsistentInjective(toIndex, fromIndex, true, x.1, y.1);
  }

  lemma CellOfOnto<N>(toIndex: map<N, nat>, fromIndex: seq<Option<N>>, m: seq<seq<bool>>, c: (int, int)) returns (e: (N, N))
    requires Consistent(toIndex, fromIndex, true) && |fromIndex| == |m| && Square(m)
    requires c in CellsOf(m)
    ensures e in EdgesOf(toIndex, m) && CellOf(toIndex, e) == c
  {
    var i, j :| 0 <= i < |m| && 0 <= j < |m[i]| && m[i][j] && c == (i, j);
    assert fromIndex[i].Some? && fromIndex[j].Some?;
    e := (fromIndex[i].value, fromIndex[j].value);
    EdgesOfMember(toIndex, m, e);
  }

  class IncMatrixGraph<N(==)> {
    const identifiers: DoubleMapping<N>
    var edgeCount: nat
    var matrix: seq<seq<bool>>

    /**
     * The registry compacts, its slots are exactly the rows and columns of the
     * square matrix, and the counter is the number of set cells.
     */
    ghost predicate Valid()
      reads this, identifiers
    {
      && identifiers.Valid() && identifiers.autodecrement
      && |identifiers.fromIndex| == |matrix| && Square(matrix)
      && edgeCount == CellCount(matrix)
    }

    /** The registered nodes. */
    ghost function Nodes(): set<N>
      reads this, identifiers
    {
      identifiers.toIndex.Keys
    }

    /** The ordered pairs present in the graph. */
    ghost function Edges(): set<(N, N)>
      reads this, identifiers
    {
      EdgesOf(identifiers.toIndex, matrix)
    }

    /** `IncMatrixGraph::new`: no nodes, no edges, a compacting registry. */
    constructor ()
      ensures Valid() && fresh(identifiers)
      ensures Nodes() == {} && Edges() == {} && edgeCount == 0
    {
      identifiers := new DoubleMapping(true);
      edgeCount := 0;
      matrix := [];
    }

    /** `has_node`: `n` is registered. */
    function HasNode(n: N): (r: bool)
      reads this, identifiers
      ensures r <==> n in Nodes()
    {
      identifiers.ContainsObj(n)
    }

    /** `has_edge`: the cell of `(f, t)`; false whenever either endpoint is unregistered. */
    function HasEdge(f: N, t: N): (r: bool)
      reads this, identifiers
      requires Valid()
      ensures r <==> (f, t) in Edges()
      ensures r ==> HasNode(f) && HasNode(t)
    {
      EdgesOfMember(identifiers.toIndex, matrix, (f, t));
      match (identifiers.GetByObj(f), identifiers.GetByObj(t))
      case (Some(a), Some(b)) => matrix[a - 1][b - 1]
      case _ => false
    }

    /**
     * `add_node`: registers `n` under the next id and grows the matrix by an
     * unset row and column. The source unwraps the registry's answer, so adding
     * a registered node panics; it is excluded here.
     */
    method AddNode(n: N)
      requires Valid() && !HasNode(n)
      modifies this, identifiers
      ensures Valid()
      ensures identifiers.toIndex == old(identifiers.toIndex)[n := old(|matrix|) + 1]
      ensures matrix == Grown(old(matrix)) && edgeCount == old(edgeCount)
      ensures Nodes() == old(Nodes()) + {n} && Edges() == old(Edges())
    {
      var id := identifiers.Insert(n);
      assert id.Some?;
      GrowMatrix();
      GrowKeepsEdges(old(identifiers.toIndex), old(matrix), n);
    }

    /** `find_or_add`: the zero-based slot of `n`, registering it first if needed. */
    method FindOrAdd(n: N) returns (idx: nat)
      requires Valid()
      modifies this, identifiers
      ensures Valid()
      ensures n in identifiers.toIndex && idx == identifiers.toIndex[n] - 1
      ensures Nodes() == old(Nodes()) + {n} && Edges() == old(Edges()) && edgeCount == old(edgeCount)
      ensures forall o :: o in old(identifiers.toIndex) ==>
                o in identifiers.toIndex && identifiers.toIndex[o] == old(identifiers.toIndex[o])
    {
      match identifiers.GetByObj(n)
      case Some(id) =>
        idx := id - 1;
      case None =>
        AddNode(n);
        idx := |matrix| - 1;
    }

    /**
     * `add_edge`: no change when the pair is present; otherwise both endpoints
     * are registered as needed, the cell is set and the counter goes up by one.
     */
    method AddEdge(f: N, t: N)
      requires Valid()
      modifies this, identifiers
      ensures Valid()
      ensures Nodes() == old(Nodes()) + {f, t}
      ensures Edges() == old(Edges()) + {(f, t)}
      ensures edgeCount == old(edgeCount) + (if (f, t) in old(Edges()) then 0 else 1)
    {
      if HasEdge(f, t) {
        return;
      }
      var i := FindOrAdd(f);
      var j := FindOrAdd(t);
      EdgesOfMember(identifiers.toIndex, matrix, (f, t));
      UpdateCellEdges(identifiers.toIndex, identifiers.fromIndex, matrix, f, t, true);
      RowCountUpdate(matrix[i], j, true);
      CellCountUpdate(matrix, i, matrix[i][j := true]);
      matrix := matrix[i := matrix[i][j := true]];
      edgeCount := edgeCount + 1;
    }

    /**
     * `remove_edge`: no change when the pair is absent; otherwise its cell is
     * cleared and the counter goes down by one.
     */
    method RemoveEdge(f: N, t: N)
      requires Valid()
      modifies this
      ensures Valid() && Nodes() == old(Nodes())
      ensures Edges() == old(Edges()) - {(f, t)}
      ensures edgeCount == old(edgeCount) - (if (f, t) in old(Edges()) then 1 else 0)
    {
      if !HasEdge(f, t) {
        return;
      }
      // Both lookups succeed here, so the source's `if let` always matches.
      var i := identifiers.GetByObj(f).value - 1;
      var j := identifiers.GetByObj(t).value - 1;
      UpdateCellEdges(identifiers.toIndex, identifiers.fromIndex, matrix, f, t, false);
      RowCountUpdate(matrix[i], j, false);
      CellCountUpdate(matrix, i, matrix[i][j := false]);
      matrix := matrix[i := matrix[i][j := false]];
      edgeCount := edgeCount - 1;
    }

    /**
     * `remove_node`: no change for an unregistered node. Otherwise the node is
     * removed from the registry (renumbering the later ids), its row is deleted
     * and its set cells subtracted, then its column is deleted from every
     * remaining row, subtracting one per set cell: a self-loop is counted once.
     * Exactly the pairs touching `n` disappear.
     */
    method RemoveNode(n: N)
      requires Valid()
      modifies this, identifiers
      ensures Valid()
      ensures Nodes() == old(Nodes()) - {n}
      ensures Edges() == set e | e in old(Edges()) && e.0 != n && e.1 != n
      ensures !old(HasNode(n)) ==> matrix == old(matrix) && identifiers.toIndex == old(identifiers.toIndex)
      ensures old(HasNode(n)) ==>
                && matrix == Shrunk(old(matrix), old(identifiers.toIndex[n]) - 1)
                && identifiers.toIndex == Decremented(old(identifiers.toIndex) - {n}, old(identifiers.toIndex[n]) - 1)
    {
      var found := identifiers.GetByObj(n);
      if found.None? {
        assert Edges() == set e | e in old(Edges()) && e.0 != n && e.1 != n;
        return;
      }
      var id := found.value;
      ghost var before, ids, slots := matrix, identifiers.toIndex, identifiers.fromIndex;
      var removed := identifiers.Remove(id);
      assert removed.Some?;
      ShrinkMatrix(id - 1);
      ShrinkEdges(ids, slots, before, n);
    }

    /**
     * The matrix half of `add_node`: push an unset row, then an unset cell onto
     * every row. No set cell is added.
     */
    method GrowMatrix()
      requires Square(matrix) && edgeCount == CellCount(matrix)
      modifies this
      ensures matrix == Grown(old(matrix)) && edgeCount == old(edgeCount) && edgeCount == CellCount(matrix)
    {
      ghost var before := matrix;
      var size := |matrix|;
      matrix := matrix + [seq(size, _ => false)];
      RowCountFalse(size);
      CellCountAppend(before, [seq(size, _ => false)]);
      assert [seq(size, _ => false)][..0] == [];
      var k := 0;
      while k < |matrix|
        invariant |matrix| == size + 1 && k <= size + 1
        invariant forall i :: 0 <= i < k ==> matrix[i] == Grown(before)[i]
        invariant forall i :: k <= i <= size ==> matrix[i] == if i < size then before[i] else seq(size, _ => false)
        invariant edgeCount == old(edgeCount) == CellCount(matrix)
      {
        GrowRow(before, k);
        RowCountAppend(matrix[k], [false]);
        assert [false][..0] == [];
        CellCountUpdate(matrix, k, matrix[k] + [false]);
        matrix := matrix[k := matrix[k] + [false]];
        k := k + 1;
      }
      assert matrix == Grown(before);
    }

    /**
     * The matrix half of `remove_node` for slot `k`: delete row `k`, subtract
     * its set cells, then delete entry `k` of every remaining row, subtracting
     * one for each that was set. The counter never goes below zero.
     */
    method ShrinkMatrix(k: nat)
      requires Square(matrix) && k < |matrix| && edgeCount == CellCount(matrix)
      modifies this
      ensures matrix == Shrunk(old(matrix), k) && edgeCount == CellCount(matrix)
    {
      ghost var before := matrix;
      var row := matrix[k];
      matrix := matrix[..k] + matrix[k + 1..];
      CellCountWithout(before, k);
      edgeCount := edgeCount - RowCount(row);
      ghost var mid := matrix;
      var r := 0;
      while r < |matrix|
        invariant |matrix| == |mid| && r <= |matrix|
        invariant forall a :: 0 <= a < r ==> matrix[a] == Without(mid[a], k)
        invariant forall a :: r <= a < |matrix| ==> matrix[a] == mid[a]
        invariant edgeCount == CellCount(matrix)
      {
        var v := matrix[r];
        assert v == before[Skip(r, k)];
        RowCountWithout(v, k);
        CellCountUpdate(matrix, r, Without(v, k));
        if v[k] {
          edgeCount := edgeCount - 1;
        }
        matrix := matrix[r := v[..k] + v[k + 1..]];
        r := r + 1;
      }
      ShrunkRows(before, k, matrix);
    }

    /** `node_count`: the number of registered nodes, which is the matrix size. */
    function NodeCount(): (r: nat)
      reads this, identifiers
      requires Valid()
      ensures r == |Nodes()|
    {
      DenseSize(identifiers.toIndex, identifiers.fromIndex);
      |matrix|
    }

    /** `edge_count`: the counter, which is the number of present pairs. */
    function EdgeCount(): (r: nat)
      reads this, identifiers
      requires Valid()
      ensures r == |Edges()|
    {
      EdgesSize(identifiers.toIndex, identifiers.fromIndex, matrix);
      edgeCount
    }

    /**
     * `iter_adj` with the column looked up by its slot: none for an
     * unregistered node, otherwise exactly the targets of its pairs, in slot
     * order. The source's lookup is shifted by one; see `NeighboursAsWritten`.
     */
    function IterAdj(n: N): (r: Option<seq<N>>)
      reads this, identifiers
      requires Valid()
      ensures r.None? <==> !HasNode(n)
      ensures r.Some? ==> forall t :: t in r.value ==> (n, t) in Edges()
      ensures r.Some? ==> forall e :: e in Edges() && e.0 == n ==> e.1 in r.value
    {
      match identifiers.GetByObj(n)
      case Some(i) =>
        AdjacentAreTargets(identifiers.toIndex, identifiers.fromIndex, matrix, n);
        Some(Neighbours(matrix[i - 1], identifiers.fromIndex))
      case None => None
    }

    /** `iter_edges` built on the corrected `iter_adj`: every present pair, each once. */
    function IterEdges(): (r: set<(N, N)>)
      reads this, identifiers
      requires Valid()
      ensures r == Edges()
    {
      var s := set f, t | f in identifiers.toIndex && IterAdj(f).Some? && t in IterAdj(f).value :: (f, t);
      assert s == Edges() by {
        forall e ensures e in s <==> e in Edges() {
          EdgesOfMember(identifiers.toIndex, matrix, e);
          if e.0 in identifiers.toIndex {
            assert IterAdj(e.0).Some?;
          }
        }
      }
      s
    }

    /** `iter_nodes`: the registered nodes. */
    function IterNodes(): (r: set<N>)
      reads this, identifiers
      requires Valid()
      ensures r == Nodes() && |r| == NodeCount()
    {
      identifiers.IterObj()
    }
  }
}
