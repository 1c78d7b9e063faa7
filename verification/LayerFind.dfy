/** slablist_find.c: finding a slab by way of the sublayers. */
module LayerFind {
  import opened Seqs
  import opened SlabModel
  import opened Groups
  import opened IndexModel
  import opened SlabCore
  import opened SlabList
  import opened SubLayer
  import opened LayerLadder
  import opened LayerAdd
  import opened LayerPlace
  import opened LayerGen
  import opened LayerRipple
  import opened LayerDown
  import opened LayerTower
  import opened LayerApi

  /** find_subslab_in_subslab. */
  method FindSubslabInSubslab(t: Subslab, elem: int, ghost ks: seq<Subslab>) returns (r: int, found: Subslab, ghost k: nat)
    requires t.SubKids(ks) && ks != [] && OrderedSubs(ks)
    ensures StopsAt(SubMaxs(ks), elem, k) && k < |ks| && found == ks[k] && r == Bnd(elem, found.ss_min, found.ss_max)
  {
    var x := SubslabBinSrch(elem, t, ks);
    if x > t.ss_elems - 1 {
      x := t.ss_elems - 1;
    }
    k := x;
    assert t.ss_subs[x] == ks[x];
    found := t.ss_subs[x];
    r := Bnd(elem, found.ss_min, found.ss_max);
  }

  /** find_slab_in_subslab. */
  method FindSlabInSubslab(t: Subslab, elem: int, ghost ks: seq<Slab>) returns (r: int, found: Slab, ghost k: nat)
    requires t.Kids(ks) && ks != [] && Ordered(ks)
    ensures StopsAt(SlabMaxs(ks), elem, k) && k < |ks| && found == ks[k] && r == Bnd(elem, found.s_min, found.s_max)
  {
    var x := SubslabBinSrchTop(elem, t, ks);
    if x > t.ss_elems - 1 {
      x := t.ss_elems - 1;
    }
    k := x;
    assert t.ss_slabs[x] == ks[x];
    found := t.ss_slabs[x];
    r := Bnd(elem, found.s_min, found.s_max);
  }

  /** sub_find_linear_scan on a list that is not used for sorting. */
  method SubFindLinearScan(l: Layer, elem: int) returns (r: int, found: Subslab, ghost j: nat)
    requires l.subs != [] && l.sl_head == l.subs[0] && l.sl_slabs == |l.subs| && SubLinked(l.subs) && OrderedSubs(l.subs)
    ensures StopsAt(SubMaxs(l.subs), elem, j) && j < |l.subs| && found == l.subs[j] && r == Bnd(elem, found.ss_min, found.ss_max)
  {
    j := 0;
    found := l.sl_head;
    r := Bnd(elem, found.ss_min, found.ss_max);
    if r != FS_OVER_RANGE {
      return;
    }
    var i := 0;
    while i < l.sl_slabs
      invariant i == j < |l.subs| && found == l.subs[j]
      invariant forall k :: 0 <= k < j ==> l.subs[k].ss_max < elem
      decreases l.sl_slabs - i
    {
      r := Bnd(elem, found.ss_min, found.ss_max);
      if r != FS_OVER_RANGE {
        break;
      }
      if found.ss_next == null {
        assert j == |l.subs| - 1;
        break;
      }
      assert j + 1 < |l.subs| && found.ss_next == l.subs[j + 1];
      found := found.ss_next;
      j := j + 1;
      i := i + 1;
    }
  }

  /* ---- one layer up ---- */

  lemma {:induction false} MaxsSorted(ts: seq<Subslab>)
    requires OrderedSubs(ts)
    ensures StrictlySorted(SubMaxs(ts))
  {
  }

  lemma {:induction false} SlabMaxsSorted(ss: seq<Slab>)
    requires Ordered(ss)
    ensures StrictlySorted(SlabMaxs(ss))
  {
  }

  /** From the subslab a scan of layer l stops at, to the subslab a scan of the layer above stops at. */
  lemma {:induction false} UpOne(l: Layer, us: seq<Subslab>, e: int, j: nat, k: nat)
    requires DeepIndex(l, us) && OrderedSubs(us) && StopsAt(SubMaxs(l.subs), e, j)
    requires j < |l.subkids| && k < |l.subkids[j]| && StopsAt(SubMaxs(l.subkids[j]), e, k)
    ensures Spot(l.subkids, j, k) < |us| && us[Spot(l.subkids, j, k)] == l.subkids[j][k]
    ensures StopsAt(SubMaxs(us), e, Spot(l.subkids, j, k))
  {
    hide Flatten, SubDistinct, SubLinked, UsrSum, StrictlySorted, StopsAt, Spot;
    var g, f := l.subkids, SubMaxs(us);
    MaxsSorted(us);
    forall i | 0 <= i < |g| ensures g[i] != [] && Spot(g, i, |g[i]| - 1) < |f| && SubMaxs(l.subs)[i] == f[Spot(g, i, |g[i]| - 1)] {
      assert Holder(l.subs[i], g[i], us);
      EndsAt(g, i);
    }
    GroupSlice(us, g, j);
    EndsAt(g, j);
    FlattenIndex(g, j, k);
    SpotIs(g, j, k);
    GroupStop(g, f, SubMaxs(l.subs), e, j, k);
  }

  lemma {:induction false} GroupSlice(us: seq<Subslab>, g: seq<seq<Subslab>>, j: nat)
    requires Flatten(g) == us && j < |g|
    ensures Spot(g, j, 0) + |g[j]| <= |us|
    ensures SubMaxs(us)[Spot(g, j, 0)..Spot(g, j, 0) + |g[j]|] == SubMaxs(g[j])
  {
    hide Flatten;
    FlattenAt(g, j);
    forall k | 0 <= k < |g[j]| ensures us[Spot(g, j, 0) + k] == g[j][k] {
      FlattenIndex(g, j, k);
    }
  }

  lemma {:induction false} SlabGroupSlice(ss: seq<Slab>, g: seq<seq<Slab>>, j: nat)
    requires Flatten(g) == ss && j < |g|
    ensures Spot(g, j, 0) + |g[j]| <= |ss|
    ensures SlabMaxs(ss)[Spot(g, j, 0)..Spot(g, j, 0) + |g[j]|] == SlabMaxs(g[j])
  {
    hide Flatten;
    FlattenAt(g, j);
    forall k | 0 <= k < |g[j]| ensures ss[Spot(g, j, 0) + k] == g[j][k] {
      FlattenIndex(g, j, k);
    }
  }

  /** From the subslab a scan of the first sublayer stops at, to the slab a linear scan stops at. */
  lemma {:induction false} UpTop(l: Layer, ss: seq<Slab>, e: int, j: nat, k: nat)
    requires TopIndex(l, ss) && Ordered(ss) && StopsAt(SubMaxs(l.subs), e, j)
    requires j < |l.kids| && k < |l.kids[j]| && StopsAt(SlabMaxs(l.kids[j]), e, k)
    ensures Spot(l.kids, j, k) < |ss| && ss[Spot(l.kids, j, k)] == l.kids[j][k]
    ensures StopsAt(SlabMaxs(ss), e, Spot(l.kids, j, k))
  {
    hide Flatten, SubDistinct, SubLinked, Usr, StrictlySorted, StopsAt, Spot, Below, SubData;
    var g, f := l.kids, SlabMaxs(ss);
    SlabMaxsSorted(ss);
    forall i | 0 <= i < |g| ensures g[i] != [] && Spot(g, i, |g[i]| - 1) < |f| && SubMaxs(l.subs)[i] == f[Spot(g, i, |g[i]| - 1)] {
      assert ExtAt(l.subs[i], g[i], ss);
      EndsAt(g, i);
    }
    SlabGroupSlice(ss, g, j);
    EndsAt(g, j);
    FlattenIndex(g, j, k);
    SpotIs(g, j, k);
    GroupStop(g, f, SubMaxs(l.subs), e, j, k);
  }

  /* ---- find_bubble_up ---- */

  lemma {:induction false} StopsIsScan(sl: List, e: int, m: nat)
    requires sl.Top() && sl.sl_sorted && SizesOk(sl.view) && StopsAt(SlabMaxs(sl.slabs), e, m)
    ensures m == ScanIndex(sl.view, e) && m < |sl.slabs|
    ensures Bnd(e, sl.slabs[m].s_min, sl.slabs[m].s_max) == ScanStatus(sl.view, e)
  {
    hide Distinct, Linked, Data;
    TopCached(sl);
    forall k | 0 <= k < m ensures Last(sl.view[k]) < e {
      assert SlabMaxs(sl.slabs)[k] < e;
    }
    ScanIndexIs(sl.view, e, m);
  }

  /** What a tower says about layer i and its subslab j. */
  lemma {:induction false} DeepAt(hs: seq<Handle>, i: nat, j: nat)
    requires Tower(hs) && Ordered(hs[0].list.slabs) && 2 <= i < |hs| && j < |hs[i].layer.subs|
    ensures DeepIndex(hs[i].layer, hs[i - 1].layer.subs) && OrderedSubs(hs[i - 1].layer.subs)
    ensures j < |hs[i].layer.subkids| && hs[i].layer.subs[j].SubKids(hs[i].layer.subkids[j])
    ensures hs[i].layer.subkids[j] != [] && OrderedSubs(hs[i].layer.subkids[j])
  {
    hide Flatten, SubDistinct, SubLinked, UsrSum, TopIndex, Ordered, Separate;
    LayerOrdered(hs, i - 1);
    var l, us := hs[i].layer, hs[i - 1].layer.subs;
    assert Holder(l.subs[j], l.subkids[j], us);
    forall k | 0 <= k < |l.subkids[j]| ensures Spot(l.subkids, j, k) < |us| && us[Spot(l.subkids, j, k)] == l.subkids[j][k] {
      FlattenIndex(l.subkids, j, k);
    }
  }

  lemma {:induction false} TopAt(hs: seq<Handle>, j: nat)
    requires Tower(hs) && Ordered(hs[0].list.slabs) && 1 < |hs| && j < |hs[1].layer.subs|
    ensures TopIndex(hs[1].layer, hs[0].list.slabs)
    ensures j < |hs[1].layer.kids| && hs[1].layer.subs[j].Kids(hs[1].layer.kids[j])
    ensures hs[1].layer.kids[j] != [] && Ordered(hs[1].layer.kids[j])
  {
    hide Tower, Flatten, TopIndex, Ordered;
    TowerParts(hs);
    TopHolds(hs[1].layer, hs[0].list.slabs, j);
  }

  lemma {:induction false} TopHolds(l: Layer, ss: seq<Slab>, j: nat)
    requires TopIndex(l, ss) && Ordered(ss) && j < |l.subs|
    ensures j < |l.kids| && l.subs[j].Kids(l.kids[j]) && l.kids[j] != [] && Ordered(l.kids[j])
  {
    hide Flatten, SubDistinct, SubLinked, Below, Ext, Usr;
    forall k | 0 <= k < |l.kids[j]| ensures Spot(l.kids, j, k) < |ss| && ss[Spot(l.kids, j, k)] == l.kids[j][k] {
      FlattenIndex(l.kids, j, k);
    }
  }

  /** The base of a tower is fit for a linear scan. */
  lemma {:induction false} BaseAt(hs: seq<Handle>)
    requires Tower(hs) && Ordered(hs[0].list.slabs) && 1 < |hs|
    ensures var l := hs[|hs| - 1].layer;
      l.subs != [] && l.sl_head == l.subs[0] && l.sl_slabs == |l.subs| && SubLinked(l.subs) && OrderedSubs(l.subs)
  {
    hide Flatten, SubDistinct, UsrSum, Separate;
    LayerOrdered(hs, |hs| - 1);
    if |hs| > 2 {
      assert DeepIndex(hs[|hs| - 1].layer, hs[|hs| - 2].layer.subs);
    }
  }

  /** find_bubble_up on a list that is not used for sorting: for any number of sublayers and any key it
      returns the slab and the status that find_linear_scan returns. */
  method FindBubbleUp(h: Handle, elem: int, ghost hs: seq<Handle>) returns (fs: int, s: Slab, ghost m: nat)
    requires Tower(hs) && h == hs[0] && |hs| > 1 && SortedBlocks(hs[0].list.view)
    ensures m == ScanIndex(h.list.view, elem) && s == h.list.slabs[m] && fs == ScanStatus(h.list.view, elem)
  {
    hide Tower, Stack, SortedBlocks, Ordered, OrderedSubs, StopsAt, TopIndex, DeepIndex, Subslab.Kids, Subslab.SubKids;
    hide List.Top, SubLinked, SubMaxs, SlabMaxs, Spot;
    HandleFacts(hs);
    var found: Subslab;
    ghost var j: nat;
    ghost var k: nat;
    var r: int;
    if h.sl_sublayers > 1 {
      BaseAt(hs);
      r, found, j := SubFindLinearScan(h.sl_baselayer.layer, elem);
      var layers := 1;
      ghost var i := |hs| - 1;
      while layers < h.sl_sublayers
        invariant i == |hs| - layers && 1 <= i < |hs| && layers <= h.sl_sublayers
        invariant j < |hs[i].layer.subs| && found == hs[i].layer.subs[j] && StopsAt(SubMaxs(hs[i].layer.subs), elem, j)
      {
        DeepAt(hs, i, j);
        r, found, k := FindSubslabInSubslab(found, elem, hs[i].layer.subkids[j]);
        UpOne(hs[i].layer, hs[i - 1].layer.subs, elem, j, k);
        j := Spot(hs[i].layer.subkids, j, k);
        i := i - 1;
        layers := layers + 1;
      }
      TopAt(hs, j);
      fs, s, k := FindSlabInSubslab(found, elem, hs[1].layer.kids[j]);
    } else {
      BaseAt(hs);
      r, found, j := SubFindLinearScan(h.sl_sublayer.layer, elem);
      TopAt(hs, j);
      fs, s, k := FindSlabInSubslab(found, elem, hs[1].layer.kids[j]);
    }
    UpTop(hs[1].layer, h.list.slabs, elem, j, k);
    m := Spot(hs[1].layer.kids, j, k);
    StopsIsScan(h.list, elem, m);
  }

  lemma {:induction false} HandleFacts(hs: seq<Handle>)
    requires Tower(hs) && |hs| > 1 && SortedBlocks(hs[0].list.view)
    ensures hs[0].sl_sublayers == |hs| - 1 && hs[0].sl_baselayer == hs[|hs| - 1] && hs[0].sl_sublayer == hs[1]
    ensures forall i :: 1 <= i < |hs| ==> hs[i].layer != null
    ensures hs[0].list != null && hs[0].list.Top() && hs[0].list.sl_sorted && SizesOk(hs[0].list.view) && Ordered(hs[0].list.slabs)
  {
    hide Distinct, Linked, Data, DeepIndex, TopIndex, Ordered, StrictlySorted, Separate;
    TopOrdered(hs[0].list);
  }
}
