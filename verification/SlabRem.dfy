/** slablist_rem.c on a chain of slabs without sublayers: freeing a slab after a removal, and the
    reap pass. */
module SlabRem {
  import opened Seqs
  import opened SlabModel
  import opened RemModel
  import opened ListModel
  import opened SlabCore
  import opened SlabList
  import opened SlabAdd

  /** Every slab but slab m is in use. */
  ghost predicate OthersUsed(v: Blocks, m: nat) {
    forall k :: 0 <= k < |v| && k != m ==> v[k] != []
  }

  lemma TopFits(sl: List)
    requires sl.Top()
    ensures Fits(sl.view)
  {
    forall k | 0 <= k < |sl.view| ensures |sl.view[k]| <= SELEM_MAX {
      assert sl.slabs[k].Holds(sl.view[k]);
    }
  }

  /** slab_generic_rem on slab m, which has just lost an element. The source goes on with two more
      shuffles; their guards can no longer hold there. */
  method SlabGenericRem(sl: List, sm: Slab, ghost m: nat) returns (uls: Slab?)
    requires sl.Top() && m < |sl.slabs| && sm == sl.slabs[m] && OthersUsed(sl.view, m)
    requires sl.view[m] == [] ==> |sl.slabs| > 1
    modifies sl`view, sl`slabs, sl`sl_slabs, sl`sl_head, sl`sl_end, sl.slabs`s_next, sl.slabs`s_prev
    modifies sl.slabs`s_min, sl.slabs`s_max, sl.slabs`s_elems, set x <- sl.slabs :: x.s_arr
    ensures sl.Top() && Fits(old(sl.view)) && sl.view == GenericRem(old(sl.view), m)
    ensures uls == null ==> sl.slabs == old(sl.slabs)
    ensures uls != null ==> uls == sm && sl.slabs == DeleteAt(old(sl.slabs), m)
  {
    hide Distinct, Linked, Data, Slab.Holds, InsertAt, DeleteAt, MoveNext, MovePrev;
    TopFits(sl);
    Neighbours(sl, m);
    ghost var v := sl.view;
    uls := null;
    if sm.s_elems == 0 {
      sl.UnlinkSlab(sm, m);
      return sm;
    }
    if sl.sl_slabs == 1 {
      return null;
    }
    var sn, sp := sm.s_next, sm.s_prev;
    if sn != null && sm.s_elems <= SELEM_MAX - sn.s_elems {
      sl.ShiftNext(sm, sn, m);
      sl.UnlinkSlab(sm, m);
      return sm;
    }
    if sp != null && sm.s_elems <= SELEM_MAX - sp.s_elems {
      sl.ShiftPrev(sm, sp, m);
      sl.UnlinkSlab(sm, m);
      return sm;
    }
    if sp != null && sn != null && sm.s_elems <= (SELEM_MAX - sp.s_elems) + (SELEM_MAX - sn.s_elems) {
      sl.ShiftNext(sm, sn, m);
      sl.ShiftPrev(sm, sp, m);
      sl.UnlinkSlab(sm, m);
      return sm;
    }
    if sp != null && sn != null && sn.s_elems <= (SELEM_MAX - sm.s_elems) + (SELEM_MAX - sp.s_elems) {
      assert false;
    }
    if sp != null && sn != null && sp.s_elems <= (SELEM_MAX - sm.s_elems) + (SELEM_MAX - sn.s_elems) {
      assert false;
    }
  }

  /** One round of the reap loop at slab i. */
  method ReapRound(sl: List, s: Slab, ghost i: nat)
    requires sl.Top() && SizesOk(sl.view) && i + 1 < |sl.slabs| && s == sl.slabs[i]
    modifies sl`view, sl`slabs, sl`sl_slabs, sl`sl_head, sl`sl_end, sl.slabs`s_next, sl.slabs`s_prev
    modifies sl.slabs`s_min, sl.slabs`s_max, sl.slabs`s_elems, set x <- sl.slabs :: x.s_arr
    ensures sl.Top() && Fits(old(sl.view)) && sl.view == ReapStep(old(sl.view), i)
    ensures i < |sl.slabs| && sl.slabs[i] == s
    ensures forall k :: 0 <= k < |sl.slabs| ==> sl.slabs[k] in old(sl.slabs)
  {
    hide Distinct, Linked, Data, Slab.Holds, SizesOk, InsertAt, DeleteAt, MovePrev;
    TopFits(sl);
    Neighbours(sl, i);
    var sn := s.s_next;
    if s.s_elems < SELEM_MAX {
      sl.ShiftPrev(sn, s, i + 1);
      Neighbours(sl, i + 1);
      if sn.s_elems == 0 {
        DeleteAtMembers(sl.slabs, i + 1);
        sl.UnlinkSlab(sn, i + 1);
      }
    }
  }

  /** slablist_reap on a slab list. */
  method SlablistReap(sl: List)
    requires sl.Top() && SizesOk(sl.view)
    modifies sl`view, sl`slabs, sl`sl_slabs, sl`sl_head, sl`sl_end, sl.slabs`s_next, sl.slabs`s_prev
    modifies sl.slabs`s_min, sl.slabs`s_max, sl.slabs`s_elems, set x <- sl.slabs :: x.s_arr
    ensures sl.Top() && SizesOk(sl.view) && Fits(old(sl.view)) && sl.view == Reap(old(sl.view))
    ensures forall k :: 0 <= k < |sl.slabs| ==> sl.slabs[k] in old(sl.slabs)
  {
    hide Distinct, Linked, Data, Slab.Holds, SizesOk, ReapStep;
    TopFits(sl);
    var s: Slab? := sl.sl_head;
    var i := 0;
    while i < sl.sl_slabs - 1
      invariant sl.Top() && SizesOk(sl.view) && Fits(sl.view) && i <= |sl.slabs|
      invariant s == if i < |sl.slabs| then sl.slabs[i] else null
      invariant ReapFrom(sl.view, i) == Reap(old(sl.view))
      invariant forall k :: 0 <= k < |sl.slabs| ==> sl.slabs[k] in old(sl.slabs)
      decreases |sl.slabs| - i
    {
      ReapStepSizes(sl.view, i);
      ReapStepFits(sl.view, i);
      ReapRound(sl, s, i);
      Neighbours(sl, i);
      s := s.s_next;
      i := i + 1;
    }
  }

  /** The end of slablist_rem_impl: takes index i out of slab m and tries to free a slab. */
  method RemoveAt(sl: List, s: Slab, i: nat, reap: bool, ghost m: nat)
    requires sl.Top() && SizesOk(sl.view) && Packed(sl.view) && |Flatten(sl.view)| > 1
    requires m < |sl.slabs| && s == sl.slabs[m] && i < |sl.view[m]|
    modifies sl`view, sl`slabs, sl`sl_slabs, sl`sl_head, sl`sl_end, sl.slabs`s_next, sl.slabs`s_prev
    modifies sl.slabs`s_min, sl.slabs`s_max, sl.slabs`s_elems, set x <- sl.slabs :: x.s_arr
    ensures sl.Top() && SizesOk(sl.view) && Packed(sl.view)
    ensures SizesOk(RemAtBlocks(old(sl.view), m, i)) && sl.view == TryReap(RemAtBlocks(old(sl.view), m, i), reap)
    ensures ReapedIf(RemAtBlocks(old(sl.view), m, i), reap, sl.view)
  {
    hide Distinct, Linked, Data, Flatten, Packed, DeleteAt, GenericRem, ReapedIf;
    ghost var v := sl.view;
    RemAtBlocksCorrect(v, m, i);
    TryReapCorrect(RemAtBlocks(v, m, i), reap);
    TryReapReaps(RemAtBlocks(v, m, i), reap);
    SlabsAfterDelete(v, m, i);
    sl.TakeElem(s, i, m);
    var uls := SlabGenericRem(sl, s, m);
    if uls != null {
      DeleteAtMembers(old(sl.slabs), m);
    }
    if reap {
      SlablistReap(sl);
    }
  }

  lemma SlabsAfterDelete(v: Blocks, m: nat, i: nat)
    requires SizesOk(v) && m < |v| && i < |v[m]| && |Flatten(v)| > 1
    ensures OthersUsed(v[m := DeleteAt(v[m], i)], m)
    ensures DeleteAt(v[m], i) == [] ==> |v| > 1
  {
    if |v| == 1 {
      assert v == [v[0]];
      FlattenOne(v[0]);
    }
  }
}
