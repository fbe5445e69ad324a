/**
 * `DoubleMapping` of rust_graph_lib: a registry that gives every object an id
 * starting at 1 and maps ids back to objects. `toIndex` is the object-to-id
 * `HashMap`; `fromIndex` is the `Vec<Option<_>>` whose slot `id - 1` holds the
 * object with that id. Sparse removal empties a slot for good; compacting
 * removal (`autodecrement`) deletes the slot and renumbers every later object.
 */
module Mapping {
  import opened Wrappers

  /**
   * The two-way invariant: each registered object's slot holds that object, each
   * occupied slot's object is registered under that slot's id, and a compacting
   * registry has no empty slots.
   */
  ghost predicate Consistent<N>(toIndex: map<N, nat>, fromIndex: seq<Option<N>>, dense: bool) {
    && SlotsOfObjects(toIndex, fromIndex)
    && ObjectsOfSlots(toIndex, fromIndex)
    && (dense ==> NoGaps(fromIndex))
  }

  /** Each registered object's id names a slot, and that slot holds the object. */
  ghost predicate SlotsOfObjects<N>(toIndex: map<N, nat>, fromIndex: seq<Option<N>>) {
    forall obj {:trigger obj in toIndex} :: obj in toIndex ==>
      1 <= toIndex[obj] <= |fromIndex| && fromIndex[toIndex[obj] - 1] == Some(obj)
  }

  /** Each occupied slot's object is registered under that slot's id. */
  ghost predicate ObjectsOfSlots<N>(toIndex: map<N, nat>, fromIndex: seq<Option<N>>) {
    forall i {:trigger fromIndex[i]} :: 0 <= i < |fromIndex| && fromIndex[i].Some? ==>
      fromIndex[i].value in toIndex && toIndex[fromIndex[i].value] == i + 1
  }

  ghost predicate NoGaps<N>(fromIndex: seq<Option<N>>) {
    forall i :: 0 <= i < |fromIndex| ==> fromIndex[i].Some?
  }

  /** The ids after a compacting removal at zero-based slot `removed`: every larger id drops by one. */
  function Decremented<N>(toIndex: map<N, nat>, removed: nat): map<N, nat> {
    map obj | obj in toIndex :: if toIndex[obj] > removed then toIndex[obj] - 1 else toIndex[obj]
  }

  /** Registering a fresh object in a new last slot keeps the registry consistent. */
  lemma InsertKeepsConsistent<N>(toIndex: map<N, nat>, fromIndex: seq<Option<N>>, dense: bool, obj: N)
    requires Consistent(toIndex, fromIndex, dense) && obj !in toIndex
    ensures Consistent(toIndex[obj := |fromIndex| + 1], fromIndex + [Some(obj)], dense)
  {
    var t, f := toIndex[obj := |fromIndex| + 1], fromIndex + [Some(obj)];
    forall i | 0 <= i < |f| && f[i].Some? ensures f[i].value in t && t[f[i].value] == i + 1 {
      if i < |fromIndex| {
        assert f[i] == fromIndex[i];
      }
    }
  }

  /** Sparse removal: emptying the slot of `obj` and forgetting `obj` keeps the registry consistent. */
  lemma SparseRemoveKeepsConsistent<N>(toIndex: map<N, nat>, fromIndex: seq<Option<N>>, slot: nat, obj: N)
    requires Consistent(toIndex, fromIndex, false) && slot < |fromIndex| && fromIndex[slot] == Some(obj)
    ensures Consistent(toIndex - {obj}, fromIndex[slot := None], false)
  {
  }

  /**
   * Compacting removal: deleting the slot of `obj` and lowering every larger id
   * by one keeps the registry consistent and free of gaps.
   */
  lemma CompactRemoveKeepsConsistent<N>(toIndex: map<N, nat>, fromIndex: seq<Option<N>>, slot: nat, obj: N)
    requires Consistent(toIndex, fromIndex, true) && slot < |fromIndex| && fromIndex[slot] == Some(obj)
    ensures Consistent(Decremented(toIndex - {obj}, slot), fromIndex[..slot] + fromIndex[slot + 1..], true)
  {
    CompactKeepsSlots(toIndex, fromIndex, slot, obj);
    CompactKeepsObjects(toIndex, fromIndex, slot, obj);
    var f := fromIndex[..slot] + fromIndex[slot + 1..];
    forall i | 0 <= i < |f| ensures f[i].Some? {
      assert f[i] == if i < slot then fromIndex[i] else fromIndex[i + 1];
    }
  }

  lemma CompactKeepsSlots<N>(toIndex: map<N, nat>, fromIndex: seq<Option<N>>, slot: nat, obj: N)
    requires Consistent(toIndex, fromIndex, true) && slot < |fromIndex| && fromIndex[slot] == Some(obj)
    ensures SlotsOfObjects(Decremented(toIndex - {obj}, slot), fromIndex[..slot] + fromIndex[slot + 1..])
  {
    var t := Decremented(toIndex - {obj}, slot);
    var f := fromIndex[..slot] + fromIndex[slot + 1..];
    forall o | o in t ensures 1 <= t[o] <= |f| && f[t[o] - 1] == Some(o) {
      var v := toIndex[o];
      assert fromIndex[v - 1] == Some(o);
      assert v != slot + 1;
      if v > slot + 1 {
        assert t[o] == v - 1;
        assert f[v - 2] == fromIndex[v - 1];
      } else {
        assert t[o] == v;
        assert f[v - 1] == fromIndex[v - 1];
      }
    }
  }

  lemma CompactKeepsObjects<N>(toIndex: map<N, nat>, fromIndex: seq<Option<N>>, slot: nat, obj: N)
    requires Consistent(toIndex, fromIndex, true) && slot < |fromIndex| && fromIndex[slot] == Some(obj)
    ensures ObjectsOfSlots(Decremented(toIndex - {obj}, slot), fromIndex[..slot] + fromIndex[slot + 1..])
  {
    var t := Decremented(toIndex - {obj}, slot);
    var f := fromIndex[..slot] + fromIndex[slot + 1..];
    forall i | 0 <= i < |f| && f[i].Some? ensures f[i].value in t && t[f[i].value] == i + 1 {
      var j := if i < slot then i else i + 1;
      assert f[i] == fromIndex[j];
      var o := fromIndex[j].value;
      assert toIndex[o] == j + 1;
      assert o != obj by {
        assert toIndex[obj] == slot + 1;
      }
    }
  }

  /** Distinct registered objects have distinct ids. */
  lemma ConsistentInjective<N>(toIndex: map<N, nat>, fromIndex: seq<Option<N>>, dense: bool, a: N, b: N)
    requires Consistent(toIndex, fromIndex, dense) && a in toIndex && b in toIndex && toIndex[a] == toIndex[b]
    ensures a == b
  {
    assert fromIndex[toIndex[a] - 1] == Some(a);
  }

  /** A gap-free registry holds exactly as many objects as it has slots. */
  lemma {:induction false} DenseSize<N>(toIndex: map<N, nat>, fromIndex: seq<Option<N>>)
    requires Consistent(toIndex, fromIndex, true)
    ensures |toIndex.Keys| == |fromIndex|
  {
    if fromIndex == [] {
      assert toIndex.Keys == {};
    } else {
      var last := |fromIndex| - 1;
      assert fromIndex[last].Some?;
      var o := fromIndex[last].value;
      DropLastKeepsConsistent(toIndex, fromIndex);
      DenseSize(toIndex - {o}, fromIndex[..last]);
      assert toIndex.Keys == (toIndex - {o}).Keys + {o};
    }
  }

  /** Dropping the last slot of a gap-free registry together with its object leaves it consistent. */
  lemma DropLastKeepsConsistent<N>(toIndex: map<N, nat>, fromIndex: seq<Option<N>>)
    requires Consistent(toIndex, fromIndex, true) && fromIndex != []
    ensures fromIndex[|fromIndex| - 1].Some?
    ensures Consistent(toIndex - {fromIndex[|fromIndex| - 1].value}, fromIndex[..|fromIndex| - 1], true)
  {
    var last := |fromIndex| - 1;
    assert fromIndex[last].Some?;
    var o := fromIndex[last].value;
    var t := toIndex - {o};
    var f := fromIndex[..last];
    forall x | x in t ensures 1 <= t[x] <= |f| && f[t[x] - 1] == Some(x) {
      assert fromIndex[toIndex[x] - 1] == Some(x);
    }
    forall i | 0 <= i < |f| && f[i].Some? ensures f[i].value in t && t[f[i].value] == i + 1 {
      assert f[i] == fromIndex[i];
    }
    forall i | 0 <= i < |f| ensures f[i].Some? {
      assert f[i] == fromIndex[i];
    }
  }

  class DoubleMapping<N(==)> {
    var toIndex: map<N, nat>
    var fromIndex: seq<Option<N>>
    const autodecrement: bool

    ghost predicate Valid()
      reads this
    {
      Consistent(toIndex, fromIndex, autodecrement)
    }

    /** `DoubleMapping::new`: an empty registry in the chosen removal mode. */
    constructor (autodecrement: bool)
      ensures Valid() && this.autodecrement == autodecrement
      ensures toIndex == map[] && fromIndex == []
    {
      toIndex := map[];
      fromIndex := [];
      this.autodecrement := autodecrement;
    }

    /**
     * `get_by_id`: the object in slot `id - 1`, if any. On a consistent registry
     * that is exactly the object registered under `id`. An id of 0 makes the
     * source subtract below zero, so it is excluded.
     */
    function GetById(id: nat): (r: Option<N>)
      reads this
      requires id >= 1
      ensures Valid() && r.Some? ==> r.value in toIndex && toIndex[r.value] == id
      ensures Valid() && r.None? ==> id !in toIndex.Values
    {
      if id - 1 < |fromIndex| then fromIndex[id - 1] else None
    }

    /** `get_by_obj`: the id of `obj`; looking it back up gives `obj` again. */
    function GetByObj(obj: N): (r: Option<nat>)
      reads this
      ensures r.Some? <==> obj in toIndex
      ensures Valid() && r.Some? ==> r.value >= 1 && GetById(r.value) == Some(obj)
    {
      if obj in toIndex then Some(toIndex[obj]) else None
    }

    /** `contains_id`: `id` is the id of some registered object. */
    function ContainsId(id: nat): (r: bool)
      reads this
      requires id >= 1
      ensures Valid() ==> (r <==> id in toIndex.Values)
    {
      GetById(id).Some?
    }

    /** `contains_obj`: `obj` is registered, that is, it occupies some slot. */
    function ContainsObj(obj: N): (r: bool)
      reads this
      ensures r <==> obj in toIndex
      ensures Valid() ==> (r <==> Some(obj) in fromIndex)
    {
      GetByObj(obj).Some?
    }

    /** `iter_obj`: the registered objects, which are exactly those occupying a slot. */
    function IterObj(): (r: set<N>)
      reads this
      ensures forall obj :: obj in r ==> ContainsObj(obj)
      ensures Valid() ==> forall i :: 0 <= i < |fromIndex| && fromIndex[i].Some? ==> fromIndex[i].value in r
    {
      toIndex.Keys
    }

    /**
     * `insert`: `None` and no change for an object already registered; otherwise
     * the object gets the next id, one past the number of slots ever used.
     */
    method Insert(obj: N) returns (r: Option<nat>)
      requires Valid()
      modifies this
      ensures Valid()
      ensures old(obj in toIndex) ==> r.None? && toIndex == old(toIndex) && fromIndex == old(fromIndex)
      ensures old(obj !in toIndex) ==>
                && r == Some(old(|fromIndex|) + 1)
                && fromIndex == old(fromIndex) + [Some(obj)]
                && toIndex == old(toIndex)[obj := old(|fromIndex|) + 1]
      ensures r.Some? ==> GetById(r.value) == Some(obj) && GetByObj(obj) == r
      ensures r.Some? ==> forall o :: o in old(toIndex) ==> old(toIndex)[o] < r.value
    {
      match GetByObj(obj)
      case Some(_) =>
        r := None;
      case None =>
        var id := |fromIndex| + 1;
        InsertKeepsConsistent(toIndex, fromIndex, autodecrement, obj);
        toIndex := toIndex[obj := id];
        fromIndex := fromIndex + [Some(obj)];
        r := Some(id);
    }

    /**
     * `remove`: `None` and no change for an id nobody holds. Otherwise the object
     * with that id is returned and forgotten. A sparse registry leaves its slot
     * empty, so the id is never handed out again; a compacting one deletes the
     * slot and lowers every larger id by one.
     */
    method Remove(id: nat) returns (r: Option<N>)
      requires id >= 1 && Valid()
      modifies this
      ensures Valid()
      ensures !old(ContainsId(id)) ==> r.None? && toIndex == old(toIndex) && fromIndex == old(fromIndex)
      ensures old(ContainsId(id)) ==> r.Some? && old(GetById(id)) == r && old(GetByObj(r.value)) == Some(id)
      ensures old(ContainsId(id)) && !autodecrement ==>
                fromIndex == old(fromIndex)[id - 1 := None] && toIndex == old(toIndex) - {r.value}
      ensures old(ContainsId(id)) && autodecrement ==>
                && fromIndex == old(fromIndex[..id - 1] + fromIndex[id..])
                && toIndex == Decremented(old(toIndex) - {r.value}, id - 1)
    {
      if !ContainsId(id) {
        return None;
      }
      var slot := id - 1;
      var obj := fromIndex[slot].value;
      fromIndex := fromIndex[slot := None];
      toIndex := toIndex - {obj};
      if autodecrement {
        CompactRemoveKeepsConsistent(old(toIndex), old(fromIndex), slot, obj);
        fromIndex := fromIndex[..slot] + fromIndex[slot + 1..];
        LowerIdsAbove(slot);
      } else {
        SparseRemoveKeepsConsistent(old(toIndex), old(fromIndex), slot, obj);
        fromIndex := fromIndex[slot := None];
      }
      r := Some(obj);
    }

    /** The renumbering loop of compacting removal: every id above `slot + 1` drops by one. */
    method LowerIdsAbove(slot: nat)
      modifies this
      ensures toIndex == Decremented(old(toIndex), slot) && fromIndex == old(fromIndex)
    {
      ghost var before := toIndex;
      var pending := toIndex.Keys;
      while pending != {}
        invariant pending <= toIndex.Keys && toIndex.Keys == before.Keys && fromIndex == old(fromIndex)
        invariant forall o :: o in toIndex ==>
                    toIndex[o] == if o in pending || before[o] <= slot then before[o] else before[o] - 1
        decreases pending
      {
        var o :| o in pending;
        if toIndex[o] > slot {
          toIndex := toIndex[o := toIndex[o] - 1];
        }
        pending := pending - {o};
      }
    }
  }
}
