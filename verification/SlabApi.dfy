/** The entry points of the library on lists without sublayers, each proved equal to the step of the
    state machine it implements. The answer of try_reap's percentage test is a parameter. */
module SlabApi {
  import opened Seqs
  import opened SlabModel
  import opened AddModel
  import opened RemModel
  import opened ListModel
  import O = OrderedModel
  import opened SlabCore
  import opened SlabList
  import opened SlabFind
  import opened SlabAdd
  import opened SlabRem
  import opened SmallList

  /** The handle describes a list in one of its two representations, and counts its elements. */
  ghost predicate Rep(sl: List)
    reads sl, sl.nodes`sml_next, sl.nodes`sml_data
    reads sl.slabs`s_next, sl.slabs`s_prev, sl.slabs`s_elems, sl.slabs`s_min, sl.slabs`s_max
    reads set x <- sl.slabs :: x.s_arr
  {
    if sl.sl_slabs == 0 then sl.Sml() else sl.Top() && sl.sl_elems == |Flatten(sl.view)|
  }

  ghost function State(sl: List): ListState
    reads sl
  {
    if sl.sl_slabs == 0 then Small(sl.items) else Slabs(sl.view)
  }

  /** What the state says of the fields. */
  lemma StateParts(sl: List)
    requires Rep(sl)
    ensures sl.sl_slabs > 1 ==> State(sl) == Slabs(sl.view) && |sl.view| == sl.sl_slabs
  {
    hide Distinct, Linked, SmlChain, SmlDistinct;
  }

  /** slab_gen_add on the slab and the status a search delivers. A new slab ns is linked at index at. */
  method SlabGenAdd(status: int, sl: List, elem: int, s: Slab, ghost m: nat) returns (how: How, ns: Slab?, ghost at: nat)
    requires sl.Top() && sl.sl_sorted && SortedBlocks(sl.view)
    requires m == ScanIndex(sl.view, elem) && s == sl.slabs[m] && status == ScanStatus(sl.view, elem)
    modifies sl`view, sl`slabs, sl`sl_slabs, sl`sl_head, sl`sl_end, sl.slabs`s_next, sl.slabs`s_prev
    modifies sl.slabs`s_min, sl.slabs`s_max, sl.slabs`s_elems, set x <- sl.slabs :: x.s_arr
    ensures sl.Top() && sl.view == GenAdd(old(sl.view), elem)
    ensures how == Edup <==> elem in Flatten(old(sl.view))
    ensures how == Edup ==> ns == null
    ensures how != Edup ==> HowView(old(sl.view), sl.view, m, how, ns != null, at)
    ensures at <= |old(sl.slabs)| && Grown(old(sl.slabs), sl.slabs, ns, at)
    ensures ns != null ==> how in {SpNx, Before, After} && at == if how == Before then m else m + 1
    ensures ns != null ==> fresh(ns) && fresh(ns.s_arr) && ns.s_below == s.s_below
    ensures forall k :: 0 <= k < |sl.slabs| ==>
              sl.slabs[k] in old(sl.slabs) || (fresh(sl.slabs[k]) && fresh(sl.slabs[k].s_arr))
  {
    hide Distinct, Linked, Data, Flatten, StrictlySorted, AddInRange, AddOver, AddUnder, InsertAt, HowView;
    ghost var v, ss := sl.view, sl.slabs;
    ScanSplits(v, elem);
    SearchInParts(v, elem);
    SlabSorted(v, m);
    if status == FS_IN_RANGE {
      NotInUnless(v[m], elem);
      how, ns := GenAddIra(sl, s, elem, m);
      at := m + 1;
      GrownMembers(ss, sl.slabs, ns, m + 1);
    } else if status == FS_OVER_RANGE {
      OverIsEnd(v[m], elem);
      how, ns := GenAddOra(sl, s, elem, m);
      at := m + 1;
      GrownMembers(ss, sl.slabs, ns, m + 1);
    } else {
      how, ns := GenAddUra(sl, s, elem, m);
      at := m;
      GrownMembers(ss, sl.slabs, ns, m);
    }
  }

  lemma GrownMembers(was: seq<Slab>, now: seq<Slab>, ns: Slab?, k: nat)
    requires Grown(was, now, ns, k)
    ensures forall j :: 0 <= j < |now| ==> now[j] in was || now[j] == ns
  {
  }

  /** Every slab of a sorted list is sorted, and so are its neighbours. */
  lemma {:induction false} SlabSorted(v: Blocks, m: nat)
    requires SortedBlocks(v) && m < |v|
    ensures StrictlySorted(v[m])
    ensures m > 0 ==> StrictlySorted(v[m - 1])
    ensures m + 1 < |v| ==> StrictlySorted(v[m + 1])
  {
    hide Flatten, StrictlySorted;
    FlattenAt(v, m);
    SortedParts(Flatten(v[..m]), v[m], Flatten(v[m + 1..]));
    if m > 0 {
      FlattenAt(v, m - 1);
      SortedParts(Flatten(v[..m - 1]), v[m - 1], Flatten(v[m..]));
    }
    if m + 1 < |v| {
      FlattenAt(v, m + 1);
      SortedParts(Flatten(v[..m + 1]), v[m + 1], Flatten(v[m + 2..]));
    }
  }

  /** slablist_add on the slabs of a sorted list. */
  method AddToSlabs(sl: List, elem: int, reap: bool) returns (ret: Ret)
    requires sl.Top() && sl.sl_sorted && SortedBlocks(sl.view) && Packed(sl.view)
    requires sl.sl_elems == |Flatten(sl.view)|
    modifies sl`view, sl`slabs, sl`sl_slabs, sl`sl_head, sl`sl_end, sl`sl_elems
    modifies sl.slabs`s_next, sl.slabs`s_prev, sl.slabs`s_min, sl.slabs`s_max, sl.slabs`s_elems
    modifies set x <- sl.slabs :: x.s_arr
    ensures sl.Top() && sl.sl_elems == |Flatten(sl.view)|
    ensures Fits(GenAdd(old(sl.view), elem)) && sl.view == TryReap(GenAdd(old(sl.view), elem), reap)
    ensures ret == if elem in old(Flatten(sl.view)) then SL_EDUP else SL_SUCCESS
  {
    hide Distinct, Linked, Data, Flatten, StrictlySorted, GenAdd, Packed, LowerBound, HowView, Grown, ScanStatus, ScanIndex, SizesOk, Reap;
    GenAddCorrect(sl.view, elem);
    TryReapCorrect(GenAdd(sl.view, elem), reap);
    var fs, s, m := FindLinearScan(sl, elem);
    var how, ns, at := SlabGenAdd(fs, sl, elem, s, m);
    if reap {
      SlablistReap(sl);
    }
    if how == Edup {
      return SL_EDUP;
    }
    sl.sl_elems := sl.sl_elems + 1;
    return SL_SUCCESS;
  }

  /** slablist_add_impl on a sorted list: the nodes of a small list, or slabs. */
  method AddAny(sl: List, elem: int, reap: bool) returns (ret: Ret)
    requires Rep(sl) && sl.sl_sorted && SortedState(State(sl))
    modifies sl, sl.nodes`sml_next, sl.slabs`s_next, sl.slabs`s_prev
    modifies sl.slabs`s_min, sl.slabs`s_max, sl.slabs`s_elems, set x <- sl.slabs :: x.s_arr
    ensures Rep(sl) && (State(sl), ret) == AddSorted(old(State(sl)), elem, reap)
  {
    hide Distinct, Linked, Data, Flatten, StrictlySorted, GenAdd, TryReap, InsertSorted, LowerBound;
    hide SmlChain, SmlDistinct, SizesOk, Packed, Fits;
    ghost var st := State(sl);
    if sl.sl_slabs == 0 && sl.sl_elems <= SMELEM_MAX - 1 {
      ret := SmallListAdd(sl, elem);
      return;
    }
    AsSlabsValid(st);
    if sl.sl_slabs == 0 && sl.sl_elems == SMELEM_MAX {
      SmallListToSlab(sl);
    }
    ret := AddToSlabs(sl, elem, reap);
  }

  /** slablist_add on a sorted list, rep = 0. */
  method AddToSorted(sl: List, elem: int, reap: bool) returns (ret: Ret)
    requires Rep(sl) && sl.sl_sorted && SortedState(State(sl))
    modifies sl, sl.nodes`sml_next, sl.slabs`s_next, sl.slabs`s_prev
    modifies sl.slabs`s_min, sl.slabs`s_max, sl.slabs`s_elems, set x <- sl.slabs :: x.s_arr
    ensures Rep(sl) && (State(sl), ret) == AddSorted(old(State(sl)), elem, reap)
    ensures reap && sl.sl_slabs > 1 ==> |sl.view[0]| == SELEM_MAX
  {
    hide *;
    ghost var st := State(sl);
    ret := AddAny(sl, elem, reap);
    AddSortedHead(st, elem, reap);
    StateParts(sl);
  }

  /** slablist_rem on the slabs of a sorted list. */
  method RemFromSlabs(sl: List, elem: int, reap: bool) returns (ret: Ret)
    requires sl.Top() && sl.sl_sorted && SortedBlocks(sl.view) && Packed(sl.view) && |Flatten(sl.view)| > 1
    requires sl.sl_elems == |Flatten(sl.view)| && elem <= Last(Last'(sl.view))
    modifies sl`view, sl`slabs, sl`sl_slabs, sl`sl_head, sl`sl_end, sl`sl_elems
    modifies sl.slabs`s_next, sl.slabs`s_prev, sl.slabs`s_min, sl.slabs`s_max, sl.slabs`s_elems
    modifies set x <- sl.slabs :: x.s_arr
    ensures sl.Top() && sl.sl_elems == |Flatten(sl.view)|
    ensures var v := old(sl.view); var m := ScanIndex(v, elem); var i := LowerBound(v[m], elem);
            && i < |v[m]|
            && ret == (if v[m][i] == elem then SL_SUCCESS else SL_ENFOUND)
            && SizesOk(RemAtBlocks(v, m, i))
            && sl.view == (if v[m][i] == elem then TryReap(RemAtBlocks(v, m, i), reap) else v)
  {
    hide Distinct, Linked, Data, Flatten, StrictlySorted, LowerBound, RemAtBlocks, TryReap, Packed;
    ghost var v := sl.view;
    var r, s, m := FindLinearScan(sl, elem);
    RemSlotIsLive(v, elem);
    SlabSorted(v, m);
    Neighbours(sl, m);
    var i := SlabBinSrch(elem, s, false, v[m]);
    RemAtBlocksCorrect(v, m, i);
    if s.s_arr[i] != elem {
      return SL_ENFOUND;
    }
    RemoveAt(sl, s, i, reap, m);
    TryReapCorrect(RemAtBlocks(v, m, i), reap);
    sl.sl_elems := sl.sl_elems - 1;
    ret := SL_SUCCESS;
  }

  /** slablist_rem_impl on a sorted list: the nodes of a small list, or slabs. */
  method RemAny(sl: List, elem: int, reap: bool) returns (ret: Ret)
    requires Rep(sl) && sl.sl_sorted && SortedState(State(sl)) && RemDefined(State(sl), elem)
    modifies sl, sl.nodes`sml_next, sl.slabs`s_next, sl.slabs`s_prev
    modifies sl.slabs`s_min, sl.slabs`s_max, sl.slabs`s_elems, set x <- sl.slabs :: x.s_arr
    ensures Rep(sl) && (State(sl), ret) == RemSorted(old(State(sl)), elem, reap)
  {
    hide Distinct, Linked, Data, Flatten, StrictlySorted, RemAtBlocks, TryReap, LowerBound, DeleteAt;
    hide SmlChain, SmlDistinct, SizesOk, Packed;
    ghost var st := State(sl);
    ShrunkLossless(st);
    if sl.sl_slabs != 0 && sl.sl_elems == SMELEM_MAX {
      HeadHoldsAll(st);
      SlabToSmallList(sl);
    }
    if sl.sl_slabs == 0 {
      ret := SmallListRemSorted(sl, elem);
      return;
    }
    ret := RemFromSlabs(sl, elem, reap);
  }

  /** slablist_rem on a sorted list, without the callback. */
  method RemFromSorted(sl: List, elem: int, reap: bool) returns (ret: Ret)
    requires Rep(sl) && sl.sl_sorted && SortedState(State(sl)) && RemDefined(State(sl), elem)
    modifies sl, sl.nodes`sml_next, sl.slabs`s_next, sl.slabs`s_prev
    modifies sl.slabs`s_min, sl.slabs`s_max, sl.slabs`s_elems, set x <- sl.slabs :: x.s_arr
    ensures Rep(sl) && (State(sl), ret) == RemSorted(old(State(sl)), elem, reap)
    ensures ret == SL_SUCCESS && reap && sl.sl_slabs > 1 ==> |sl.view[0]| == SELEM_MAX
  {
    hide *;
    ghost var st := State(sl);
    ret := RemAny(sl, elem, reap);
    RemSortedHead(st, elem, reap);
    StateParts(sl);
  }

  /** The end of slablist_find, once the slab is known. */
  method LookInSlab(sl: List, s: Slab, key: int, ghost m: nat) returns (ret: Ret, found: int)
    requires sl.Top() && SortedBlocks(sl.view) && m == ScanIndex(sl.view, key) && s == sl.slabs[m]
    ensures ret == if key in Flatten(sl.view) then SL_SUCCESS else SL_ENFOUND
    ensures ret == SL_SUCCESS ==> found == key
  {
    hide Distinct, Linked, Data, Flatten, StrictlySorted, LowerBound;
    found := 0;
    SearchInParts(sl.view, key);
    SlabSorted(sl.view, m);
    Neighbours(sl, m);
    var i := SlabBinSrch(key, s, false, sl.view[m]);
    if i == s.s_elems {
      return SL_ENFOUND, found;
    }
    found := s.s_arr[i];
    ret := if key == found then SL_SUCCESS else SL_ENFOUND;
  }

  /** slablist_find on a sorted list. */
  method SlablistFind(sl: List, key: int) returns (ret: Ret, found: int)
    requires Rep(sl) && sl.sl_sorted && SortedState(State(sl))
    ensures ret == if FindSorted(State(sl), key) then SL_SUCCESS else SL_ENFOUND
    ensures ret == SL_SUCCESS ==> found == key
  {
    hide Distinct, Linked, Data, Flatten, StrictlySorted, LowerBound, SmlChain, SmlDistinct;
    found := 0;
    if sl.sl_slabs == 0 {
      ghost var ns, xs := sl.nodes, sl.items;
      var sml, i := sl.sml_head, 0;
      while i < sl.sl_elems && (SmlStep(ns, xs, i); key != sml.sml_data)
        invariant i <= |ns| && sml == NodeAt(ns, i)
        invariant forall k :: 0 <= k < i ==> xs[k] != key
      {
        SmlStep(ns, xs, i);
        sml := sml.sml_next;
        i := i + 1;
      }
      if sml != null {
        SmlStep(ns, xs, i);
        return SL_SUCCESS, sml.sml_data;
      }
      return SL_ENFOUND, found;
    }
    var _, s, m := FindLinearScan(sl, key);
    ret, found := LookInSlab(sl, s, key, m);
    FindSortedCorrect(State(sl), key);
  }
}
