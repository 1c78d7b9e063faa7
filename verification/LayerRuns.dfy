/** slablist_add on the slabs of a sorted list with any number of sublayers, and the sublayer it may
    attach. */
module LayerRuns {
  import opened Seqs
  import opened SlabModel
  import opened Groups
  import opened AddModel
  import opened ListModel
  import opened IndexModel
  import opened SlabCore
  import opened SlabList
  import opened SlabFind
  import opened SlabAdd
  import opened SlabApi
  import opened SubLayer
  import opened LayerLadder
  import opened LayerAdd
  import opened LayerPlace
  import opened LayerGen
  import opened LayerRipple
  import opened LayerDown
  import opened LayerApi
  import opened LayerTower
  import opened LayerFind
  import opened LayerAttach

  /** The layers of a sorted list with slabs. */
  ghost predicate Sound(hs: seq<Handle>)
    reads *
  {
    Tower(hs) && SortedBlocks(hs[0].list.view)
  }

  /** Below no full subslab of the first sublayer is a full one. */
  ghost predicate Roomy(hs: seq<Handle>)
    requires 1 < |hs| ==> hs[1].layer != null
    reads *
  {
    1 < |hs| ==> forall j :: 0 <= j < |hs[1].layer.subs| ==> RoomUnder(hs[1].layer.subs[j])
  }

  /** The number of entries of the base layer's chain. */
  ghost function BaseCount(hs: seq<Handle>): nat
    requires hs != [] && hs[0].list != null && (|hs| > 1 ==> hs[|hs| - 1].layer != null)
    reads hs[0].list, if |hs| > 1 then {hs[|hs| - 1].layer} else {}
  {
    if |hs| > 1 then |hs[|hs| - 1].layer.subs| else |hs[0].list.slabs|
  }

  /** A list that is to get a sublayer when its base has req entries has fewer. */
  ghost predicate BelowReq(hs: seq<Handle>, req: nat)
    requires hs != [] && hs[0].list != null && (|hs| > 1 ==> hs[|hs| - 1].layer != null)
    reads hs[0].list, if |hs| > 1 then {hs[|hs| - 1].layer} else {}
  {
    req != 0 ==> 2 <= req <= SUBELEM_MAX && BaseCount(hs) < req
  }

  lemma SoundParts(hs: seq<Handle>)
    requires Sound(hs)
    ensures hs != [] && hs[0].list != null && hs[0].list.Top() && hs[0].list.sl_sorted && SortedBlocks(hs[0].list.view) && hs[0].list.view != []
    ensures Tower(hs) && Stack(hs) && hs[0].sl_sublayers == |hs| - 1
    ensures forall i :: 1 <= i < |hs| ==> hs[i].layer != null
    ensures |hs| > 1 ==> hs[0].sl_sublayer == hs[1] && TopIndex(hs[1].layer, hs[0].list.slabs)
  {
    hide TopIndex, DeepIndex, Separate, Bottom;
  }

  /** Finding and adding on a list without sublayers. */
  method AddFlat(h: Handle, elem: int, ghost hs: seq<Handle>) returns (how: How)
    requires Sound(hs) && hs == [h]
    modifies h.list`view, h.list`slabs, h.list`sl_slabs, h.list`sl_head, h.list`sl_end, h.list.slabs`s_next, h.list.slabs`s_prev
    modifies h.list.slabs`s_min, h.list.slabs`s_max, h.list.slabs`s_elems, set x <- h.list.slabs :: x.s_arr
    ensures Sound(hs) && h.list.view == GenAdd(old(h.list.view), elem)
    ensures how == Edup <==> elem in Flatten(old(h.list.view))
    ensures |h.list.slabs| <= |old(h.list.slabs)| + 1
    ensures forall k :: 0 <= k < |h.list.slabs| ==> h.list.slabs[k] in old(h.list.slabs) || fresh({h.list.slabs[k], h.list.slabs[k].s_arr})
  {
    hide SortedBlocks, Stack, Distinct, Linked, Data, GenAdd, Flatten, HowView, ScanIndex, ScanStatus, InsertAt;
    SoundParts(hs);
    GenAddCorrect(h.list.view, elem);
    SortedHas(h.list.view);
    var fs, s, m := FindLinearScan(h.list, elem);
    var ns: Slab?;
    ghost var at: nat;
    how, ns, at := SlabGenAdd(fs, h.list, elem, s, m);
  }

  lemma {:induction false} RoomAtSlab(hs: seq<Handle>, m: nat)
    requires Tower(hs) && 1 < |hs| && Roomy(hs) && m < |hs[0].list.slabs|
    ensures RoomBelow(hs[0].list.slabs[m])
  {
    hide Tower, TopIndex, RoomUnder, Flatten;
    TowerParts(hs);
    TopIndexParts(hs[1].layer, hs[0].list.slabs);
    var a, b := HolderOf(hs[1].layer, hs[0].list.slabs, m);
  }

  function AllOf(cs: seq<seq<Subslab>>): set<Subslab> {
    set c, t | c in cs && t in c :: t
  }

  /** The deeper layers of the handles hs are d, but for the groups of the second sublayer. */
  ghost predicate Deeper(hs: seq<Handle>, d: Deep)
    requires forall i :: 1 <= i < |hs| ==> hs[i].layer != null
    reads (set i | 2 <= i < |hs| :: hs[i].layer)`subs, (set i | 2 <= i < |hs| :: hs[i].layer)`sl_slabs
    reads (set i | 2 <= i < |hs| :: hs[i].layer)`sl_head, (set i | 2 < i < |hs| :: hs[i].layer)`subkids
  {
    && 1 < |hs| && |d.cs| == |d.gs| == |hs| - 2 && d.all == AllOf(d.cs)
    && (forall i :: 1 < i < |hs| ==> hs[i].layer != hs[1].layer)
    && (forall i :: 2 < i < |hs| ==> hs[i].layer != hs[2].layer)
    && (forall i :: 2 <= i < |hs| ==> hs[i].layer.subs == d.cs[i - 2])
    && (forall i :: 2 < i < |hs| ==> hs[i].layer.subkids == d.gs[i - 2])
    && (forall i :: 2 <= i < |hs| ==> Started(hs[i].layer))
  }

  ghost predicate Started(l: Layer)
    reads l`sl_slabs, l`subs, l`sl_head
  {
    l.sl_slabs == |l.subs| > 0 && l.sl_head == l.subs[0]
  }

  lemma {:induction false} AllOfIs(hs: seq<Handle>, cs: seq<seq<Subslab>>)
    requires 1 < |hs| && (forall i :: 1 <= i < |hs| ==> hs[i].layer != null)
    requires |cs| == |hs| - 2 && forall i :: 2 <= i < |hs| ==> hs[i].layer.subs == cs[i - 2]
    ensures DeepOf(hs).all == AllOf(cs)
  {
    forall t | t in DeepOf(hs).all ensures t in AllOf(cs) {
      var i :| 2 <= i < |hs| && t in hs[i].layer.subs;
      assert cs[i - 2] in cs;
    }
    forall t | t in AllOf(cs) ensures t in DeepOf(hs).all {
      var c :| c in cs && t in c;
      var k :| 0 <= k < |cs| && cs[k] == c;
      assert t in hs[k + 2].layer.subs;
    }
  }

  lemma {:induction false} DeepOfParts(hs: seq<Handle>)
    requires 1 < |hs| && (forall i :: 1 <= i < |hs| ==> hs[i].layer != null)
    ensures |DeepOf(hs).cs| == |DeepOf(hs).gs| == |hs| - 2
    ensures forall i :: 2 <= i < |hs| ==> DeepOf(hs).cs[i - 2] == hs[i].layer.subs && DeepOf(hs).gs[i - 2] == hs[i].layer.subkids
  {
  }

  lemma {:induction false} DeeperOf(hs: seq<Handle>)
    requires Tower(hs) && 1 < |hs|
    ensures (forall i :: 1 <= i < |hs| ==> hs[i].layer != null) && Deeper(hs, DeepOf(hs))
  {
    hide Tower, Stack, TopIndex, DeepIndex, DeepOf, AllOf, Separate;
    TowerParts(hs);
    LayersDiffer(hs);
    forall i | 2 <= i < |hs| ensures Started(hs[i].layer) {
      TowerHeaded(hs, i);
    }
    DeepOfParts(hs);
    AllOfIs(hs, DeepOf(hs).cs);
  }

  /** Handles whose deeper layers are e. */
  lemma {:induction false} DeepOfAgain(hs: seq<Handle>, d: Deep, e: Deep)
    requires (forall i :: 1 <= i < |hs| ==> hs[i].layer != null) && Deeper(hs, d) && SameBut(d, e)
    requires 2 < |hs| ==> hs[2].layer.subkids == e.gs[0]
    ensures DeepOf(hs) == e
  {
    hide DeepOf, AllOf, Started;
    DeepOfParts(hs);
    AllOfIs(hs, d.cs);
    var f := DeepOf(hs);
    forall i | 0 <= i < |hs| - 2 ensures f.cs[i] == e.cs[i] && f.gs[i] == e.gs[i] {
      assert f.cs[i + 2 - 2] == hs[i + 2].layer.subs && f.gs[i + 2 - 2] == hs[i + 2].layer.subkids;
    }
    assert f.cs == e.cs && f.gs == e.gs;
  }

  /** The tower after an addition, from what the addition says of the layers. */
  lemma {:induction false} SoundFrom(hs: seq<Handle>, d: Deep, e: Deep)
    requires Stack(hs) && 1 < |hs| && hs[0].list.Top() && SortedBlocks(hs[0].list.view) && TopIndex(hs[1].layer, hs[0].list.slabs)
    requires DeepOk(hs[1].layer.subs, e) && SameBut(d, e) && Deeper(hs, d)
    requires 2 < |hs| ==> hs[2].layer.subkids == e.gs[0]
    requires forall i, j :: 1 <= i < j < |hs| ==> hs[i].layer != hs[j].layer
    ensures Sound(hs)
  {
    hide SortedBlocks, TopIndex, DeepOk, NoneShared, List.Top, DeepOf, AllOf;
    DeepOfAgain(hs, d, e);
    DeepLengths(hs[1].layer.subs, e);
    forall i | 2 <= i < |hs| ensures Headed(hs[i].layer) {
      DeepOfIs(hs, i - 2);
      assert Started(hs[i].layer);
    }
    TowerFrom(hs);
  }

  lemma DeepLengths(us: seq<Subslab>, d: Deep)
    requires DeepOk(us, d)
    ensures |d.gs| == |d.cs| && forall i :: 0 <= i < |d.cs| ==> |d.gs[i]| == |d.cs[i]|
  {
    hide Rung, Bottom, Exts, Counts, SubDistinct, Flatten, GroupsOk, NoneShared;
  }

  lemma LayersDiffer(hs: seq<Handle>)
    requires Tower(hs)
    ensures forall i :: 1 <= i < |hs| ==> hs[i].layer != null
    ensures forall i, j :: 1 <= i < j < |hs| ==> hs[i].layer != hs[j].layer
  {
    hide Tower, Stack, TopIndex, DeepIndex, NoneShared;
    TowerParts(hs);
    forall i, j | 1 <= i < j < |hs| ensures hs[i].layer != hs[j].layer {
      assert Separate(hs[i].layer, hs[j].layer);
    }
  }

  lemma DeeperLengths(hs: seq<Handle>, d: Deep, e: Deep)
    requires (forall i :: 1 <= i < |hs| ==> hs[i].layer != null) && Deeper(hs, d) && SameBut(d, e)
    ensures |e.gs| == |hs| - 2
  {
  }

  /** Everything an addition needs to know before it starts. */
  method FindPlace(h: Handle, sl: List, l: Layer, elem: int, ghost hs: seq<Handle>, ghost ld: Deep) returns (fs: int, s: Slab, ghost m: nat)
    requires 1 < |hs| && h == hs[0] && h.list == sl && hs[1].layer == l && Sound(hs) && Roomy(hs) && ld == DeepOf(hs)
    ensures sl.Top() && sl.sl_sorted && SortedBlocks(sl.view) && TopIndex(l, sl.slabs) && DeepOk(l.subs, ld)
    ensures m == ScanIndex(sl.view, elem) && s == sl.slabs[m] && fs == ScanStatus(sl.view, elem) && RoomBelow(s)
    ensures (forall i :: 1 <= i < |hs| ==> hs[i].layer != null) && Deeper(hs, ld) && Stack(hs)
    ensures forall i, j :: 1 <= i < j < |hs| ==> hs[i].layer != hs[j].layer
  {
    hide SortedBlocks, Stack, List.Top, TopIndex, ScanIndex, ScanStatus, Tower, DeepOk, Roomy, RoomBelow, DeepOf, Deeper, Separate;
    SoundParts(hs);
    TowerParts(hs);
    TowerDeep(hs);
    DeeperOf(hs);
    LayersDiffer(hs);
    fs, s, m := FindBubbleUp(h, elem, hs);
    TopLength(sl);
    RoomAtSlab(hs, m);
  }

  /** The addition as the handles see it. */
  method AddThere(fs: int, sl: List, l: Layer, elem: int, s: Slab, ghost m: nat, ghost hs: seq<Handle>, ghost ld: Deep) returns (how: How, ghost e: Deep)
    requires 1 < |hs| && hs[0].list == sl && (forall i :: 1 <= i < |hs| ==> hs[i].layer != null) && hs[1].layer == l
    requires sl.Top() && sl.sl_sorted && SortedBlocks(sl.view) && TopIndex(l, sl.slabs) && DeepOk(l.subs, ld) && Stack(hs) && Deeper(hs, ld)
    requires m == ScanIndex(sl.view, elem) && s == sl.slabs[m] && fs == ScanStatus(sl.view, elem) && RoomBelow(s)
    requires forall i, j :: 1 <= i < j < |hs| ==> hs[i].layer != hs[j].layer
    modifies sl`view, sl`slabs, sl`sl_slabs, sl`sl_head, sl`sl_end, sl.slabs`s_next, sl.slabs`s_prev
    modifies sl.slabs`s_min, sl.slabs`s_max, sl.slabs`s_elems, sl.slabs`s_below, set x <- sl.slabs :: x.s_arr
    modifies l`subs, l`kids, l`sl_slabs, l`sl_head, l.subs`ss_next, l.subs`ss_prev, l.subs`ss_min, l.subs`ss_max
    modifies l.subs`ss_elems, l.subs`ss_usr_elems, set x <- l.subs :: x.ss_slabs
    modifies ld.all`ss_min, ld.all`ss_max, ld.all`ss_usr_elems, ld.all`ss_elems, set x <- ld.all :: x.ss_subs
    modifies (if 2 < |hs| then {hs[2].layer} else {})`subkids
    ensures sl.Top() && sl.view == GenAdd(old(sl.view), elem) && TopIndex(l, sl.slabs)
    ensures DeepOk(l.subs, e) && SameBut(ld, e) && Stack(hs) && Deeper(hs, ld) && (2 < |hs| ==> |e.gs| > 0 && hs[2].layer.subkids == e.gs[0])
    ensures how == Edup <==> elem in Flatten(old(sl.view))
    ensures |l.subs| <= |old(l.subs)| + 1
    ensures forall k :: 0 <= k < |sl.slabs| ==> sl.slabs[k] in old(sl.slabs) || fresh({sl.slabs[k], sl.slabs[k].s_arr})
    ensures forall k :: 0 <= k < |l.subs| ==> l.subs[k] in old(l.subs) || fresh({l.subs[k], l.subs[k].ss_slabs, l.subs[k].ss_subs})
  {
    hide *;
    how, e := AddWithIndex(fs, sl, l, elem, s, m, ld);
    DeeperLengths(hs, ld, e);
    if 2 < |hs| {
      hs[2].layer.subkids := e.gs[0];
    }
  }

  /** Finding and adding on a list with sublayers. */
  method AddIndexed(h: Handle, sl: List, l: Layer, elem: int, ghost hs: seq<Handle>, ghost ld: Deep) returns (how: How)
    requires 1 < |hs| && h == hs[0] && h.list == sl && hs[1].layer == l && Sound(hs) && ld == DeepOf(hs) && Roomy(hs)
    modifies sl`view, sl`slabs, sl`sl_slabs, sl`sl_head, sl`sl_end, sl.slabs`s_next, sl.slabs`s_prev
    modifies sl.slabs`s_min, sl.slabs`s_max, sl.slabs`s_elems, sl.slabs`s_below, set x <- sl.slabs :: x.s_arr
    modifies l`subs, l`kids, l`sl_slabs, l`sl_head, l.subs`ss_next, l.subs`ss_prev, l.subs`ss_min, l.subs`ss_max
    modifies l.subs`ss_elems, l.subs`ss_usr_elems, set x <- l.subs :: x.ss_slabs
    modifies ld.all`ss_min, ld.all`ss_max, ld.all`ss_usr_elems, ld.all`ss_elems, set x <- ld.all :: x.ss_subs
    modifies (if 2 < |hs| then {hs[2].layer} else {})`subkids
    ensures Sound(hs) && sl.view == GenAdd(old(sl.view), elem)
    ensures how == Edup <==> elem in Flatten(old(sl.view))
    ensures |l.subs| <= |old(l.subs)| + 1
    ensures forall k :: 0 <= k < |sl.slabs| ==> sl.slabs[k] in old(sl.slabs) || fresh({sl.slabs[k], sl.slabs[k].s_arr})
    ensures forall k :: 0 <= k < |l.subs| ==> l.subs[k] in old(l.subs) || fresh({l.subs[k], l.subs[k].ss_slabs, l.subs[k].ss_subs})
  {
    hide *;
    var fs, s, m := FindPlace(h, sl, l, elem, hs, ld);
    GenAddCorrect(sl.view, elem);
    ghost var e;
    how, e := AddThere(fs, sl, l, elem, s, m, hs, ld);
    SoundFrom(hs, ld, e);
  }

  /** Counts the element that was put in. */
  method CountElem(h: Handle, how: How, ghost hs: seq<Handle>) returns (ret: Ret)
    requires Sound(hs) && h == hs[0]
    modifies h.list`sl_elems
    ensures Sound(hs) && h.list.sl_elems == old(h.list.sl_elems) + (if how == Edup then 0 else 1)
    ensures ret == if how == Edup then SL_EDUP else SL_SUCCESS
  {
    hide SortedBlocks, Stack, Distinct, Linked, Data, TopIndex, DeepIndex, Tower, Bottom, Separate;
    SoundParts(hs);
    TowerParts(hs);
    ret := SL_EDUP;
    if how != Edup {
      h.list.sl_elems := h.list.sl_elems + 1;
      ret := SL_SUCCESS;
    }
    forall i | 2 <= i < |hs| ensures DeepIndex(hs[i].layer, hs[i - 1].layer.subs) {
      assert old(DeepIndex(hs[i].layer, hs[i - 1].layer.subs));
    }
    forall i, j | 1 <= i < j < |hs| ensures Separate(hs[i].layer, hs[j].layer) {
      assert old(Separate(hs[i].layer, hs[j].layer));
    }
    TowerBy(hs);
  }

  lemma GrownCount(v: Blocks, e: int)
    requires v != [] && SortedBlocks(v)
    ensures |Flatten(GenAdd(v, e))| == if e in Flatten(v) then |Flatten(v)| else |Flatten(v)| + 1
  {
    hide GenAdd, Flatten;
    GenAddCorrect(v, e);
  }

  /** Attaches the first sublayer if it is due. */
  method AttachFirst(h: Handle, req: nat, ghost hs: seq<Handle>) returns (ghost us: seq<Handle>)
    requires hs == [h] && Sound(hs) && (req != 0 ==> 2 <= req <= SUBELEM_MAX && |h.list.slabs| <= req)
    modifies h`sl_sublayers, h`sl_baselayer, h`sl_sublayer, h.list.slabs`s_below
    ensures Sound(us) && hs <= us && BelowReq(us, req) && h.sl_sublayers == |us| - 1
    ensures |us| == |hs| + if req != 0 && |h.list.slabs| >= req then 1 else 0
  {
    hide SortedBlocks, Tower;
    us := hs;
    SoundParts(hs);
    TopCount(h.list);
    if req != 0 && h.list.sl_slabs >= req {
      var sub := AttachToTop(h, hs);
      us := hs + [sub];
    }
    SoundParts(us);
  }

  /** Attaches the next sublayer to the base if it is due. */
  method AttachNext(h: Handle, base: Layer, req: nat, ghost hs: seq<Handle>) returns (ghost us: seq<Handle>)
    requires 1 < |hs| && h == hs[0] && hs[|hs| - 1].layer == base && Sound(hs) && (req != 0 ==> 2 <= req <= SUBELEM_MAX && |base.subs| <= req)
    modifies hs`sl_sublayers, hs`sl_baselayer, hs`sl_sublayer, base.subs`ss_below
    ensures Sound(us) && hs <= us && BelowReq(us, req) && h.sl_sublayers == |us| - 1
    ensures |us| == |hs| + if req != 0 && |base.subs| >= req then 1 else 0
  {
    hide SortedBlocks, Tower;
    us := hs;
    SoundParts(hs);
    HandleFacts(hs);
    BaseChain(hs);
    if req != 0 && h.sl_baselayer.layer.sl_slabs >= req {
      var sub := AttachToBase(h.sl_baselayer, hs);
      us := hs + [sub];
    }
    SoundParts(us);
  }

  /** slablist_add_impl on the slabs of a sorted list without sublayers, short of the reaping: attaches
      the first sublayer once there are as many slabs as required. */
  method AddAndAttachFirst(h: Handle, elem: int, req: nat, ghost hs: seq<Handle>) returns (ret: Ret, ghost us: seq<Handle>)
    requires Sound(hs) && hs == [h] && h.list.sl_elems == |Flatten(h.list.view)| && BelowReq(hs, req)
    modifies h.list`view, h.list`slabs, h.list`sl_slabs, h.list`sl_head, h.list`sl_end, h.list`sl_elems
    modifies h.list.slabs`s_next, h.list.slabs`s_prev, h.list.slabs`s_below
    modifies h.list.slabs`s_min, h.list.slabs`s_max, h.list.slabs`s_elems, set x <- h.list.slabs :: x.s_arr
    modifies h`sl_sublayers, h`sl_baselayer, h`sl_sublayer
    ensures Sound(us) && hs <= us && BelowReq(us, req) && h.sl_sublayers == |us| - 1
    ensures |us| == |hs| + if req != 0 && |h.list.slabs| >= req then 1 else 0
    ensures h.list.view == GenAdd(old(h.list.view), elem) && h.list.sl_elems == |Flatten(h.list.view)|
    ensures ret == if elem in old(Flatten(h.list.view)) then SL_EDUP else SL_SUCCESS
  {
    hide Sound, GenAdd, Flatten, SortedBlocks;
    SoundParts(hs);
    GrownCount(h.list.view, elem);
    var how := AddFlat(h, elem, hs);
    ret := CountElem(h, how, hs);
    us := AttachFirst(h, req, hs);
  }

  /** Finding, adding and counting on a list with sublayers. */
  method AddAndCount(h: Handle, sl: List, l: Layer, elem: int, ghost hs: seq<Handle>, ghost ld: Deep) returns (ret: Ret)
    requires 1 < |hs| && h == hs[0] && h.list == sl && hs[1].layer == l && Sound(hs) && ld == DeepOf(hs) && Roomy(hs)
    requires sl.sl_elems == |Flatten(sl.view)|
    modifies sl`view, sl`slabs, sl`sl_slabs, sl`sl_head, sl`sl_end, sl`sl_elems, sl.slabs`s_next, sl.slabs`s_prev
    modifies sl.slabs`s_min, sl.slabs`s_max, sl.slabs`s_elems, sl.slabs`s_below, set x <- sl.slabs :: x.s_arr
    modifies l`subs, l`kids, l`sl_slabs, l`sl_head, l.subs`ss_next, l.subs`ss_prev, l.subs`ss_min, l.subs`ss_max
    modifies l.subs`ss_elems, l.subs`ss_usr_elems, set x <- l.subs :: x.ss_slabs
    modifies ld.all`ss_min, ld.all`ss_max, ld.all`ss_usr_elems, ld.all`ss_elems, set x <- ld.all :: x.ss_subs
    modifies (if 2 < |hs| then {hs[2].layer} else {})`subkids
    ensures Sound(hs) && sl.view == GenAdd(old(sl.view), elem) && sl.sl_elems == |Flatten(sl.view)|
    ensures ret == if elem in old(Flatten(sl.view)) then SL_EDUP else SL_SUCCESS
    ensures |l.subs| <= |old(l.subs)| + 1
    ensures forall k :: 0 <= k < |l.subs| ==> l.subs[k] in old(l.subs) || fresh(l.subs[k])
  {
    hide *;
    SoundParts(hs);
    GrownCount(sl.view, elem);
    var how := AddIndexed(h, sl, l, elem, hs, ld);
    ret := CountElem(h, how, hs);
  }

  lemma BaseCountIs(hs: seq<Handle>, req: nat)
    requires 1 < |hs| && hs[0].list != null && hs[|hs| - 1].layer != null && BelowReq(hs, req)
    ensures req != 0 ==> 2 <= req <= SUBELEM_MAX && |hs[|hs| - 1].layer.subs| < req
  {
  }

  /** slablist_add_impl on a list with sublayers, short of the reaping: attaches one more sublayer once
      the base has as many subslabs as required. */
  method AddAndAttachNext(h: Handle, sl: List, l: Layer, base: Layer, elem: int, req: nat, ghost hs: seq<Handle>, ghost ld: Deep)
    returns (ret: Ret, ghost us: seq<Handle>)
    requires 1 < |hs| && h == hs[0] && h.list == sl && hs[1].layer == l && hs[|hs| - 1].layer == base && Sound(hs)
    requires ld == DeepOf(hs) && Roomy(hs) && sl.sl_elems == |Flatten(sl.view)| && BelowReq(hs, req)
    modifies sl`view, sl`slabs, sl`sl_slabs, sl`sl_head, sl`sl_end, sl`sl_elems, sl.slabs`s_next, sl.slabs`s_prev
    modifies sl.slabs`s_min, sl.slabs`s_max, sl.slabs`s_elems, sl.slabs`s_below, set x <- sl.slabs :: x.s_arr
    modifies l`subs, l`kids, l`sl_slabs, l`sl_head, l.subs`ss_next, l.subs`ss_prev, l.subs`ss_min, l.subs`ss_max
    modifies l.subs`ss_elems, l.subs`ss_usr_elems, set x <- l.subs :: x.ss_slabs
    modifies ld.all`ss_min, ld.all`ss_max, ld.all`ss_usr_elems, ld.all`ss_elems, set x <- ld.all :: x.ss_subs
    modifies (if 2 < |hs| then {hs[2].layer} else {})`subkids
    modifies base.subs`ss_below, hs`sl_sublayers, hs`sl_baselayer, hs`sl_sublayer
    ensures Sound(us) && hs <= us && BelowReq(us, req) && h.sl_sublayers == |us| - 1
    ensures |us| == |hs| + if req != 0 && |base.subs| >= req then 1 else 0
    ensures sl.view == GenAdd(old(sl.view), elem) && sl.sl_elems == |Flatten(sl.view)|
    ensures ret == if elem in old(Flatten(sl.view)) then SL_EDUP else SL_SUCCESS
  {
    hide *;
    SoundParts(hs);
    SoundDiffer(hs);
    BaseCountIs(hs, req);
    ret := AddAndCount(h, sl, l, elem, hs, ld);
    us := AttachNext(h, base, req, hs);
  }

  lemma SoundDiffer(hs: seq<Handle>)
    requires Sound(hs) && 1 < |hs|
    ensures forall i :: 1 <= i < |hs| ==> hs[i].layer != null
    ensures 2 < |hs| ==> hs[|hs| - 1].layer != hs[1].layer
  {
    hide Tower;
    LayersDiffer(hs);
  }
}
