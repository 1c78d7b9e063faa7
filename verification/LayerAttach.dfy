/** slablist_cons.c: attaching a sublayer below the base of a list. */
module LayerAttach {
  import opened Seqs
  import opened SlabModel
  import opened Groups
  import opened IndexModel
  import opened SlabCore
  import opened SlabList
  import opened SubLayer
  import opened LayerLadder
  import opened LayerAdd
  import opened LayerPlace
  import opened LayerGen
  import opened LayerRipple
  import opened LayerTower
  import opened LayerFind
  import opened LayerApi

  /** The loop of attach_sublayer over a chain of slabs. */
  method FillFromSlabs(sh: Subslab, hh: Slab, n: nat, ghost ss: seq<Slab>)
    requires Distinct(ss) && Linked(ss) && n == |ss| <= SUBELEM_MAX && ss != [] && hh == ss[0]
    requires sh.ss_slabs.Length == SUBELEM_MAX && sh.ss_elems == n && sh.ss_usr_elems == 0
    modifies ss`s_below, sh`ss_usr_elems, sh`ss_min, sh`ss_max, sh.ss_slabs
    ensures sh.Kids(ss) && (forall k :: 0 <= k < n ==> ss[k].s_below == sh)
    ensures sh.ss_usr_elems == SumOf(ss, SizesOf(ss)) && ExtAt(sh, ss, ss)
  {
    hide SumOf, Distinct;
    ghost var sz := SizesOf(ss);
    SumNone(sz);
    var c: Slab? := hh;
    var i := 0;
    while i < n
      invariant i <= n && (i < n ==> c == ss[i])
      invariant forall k :: 0 <= k < i ==> sh.ss_slabs[k] == ss[k] && ss[k].s_below == sh
      invariant sh.ss_usr_elems == SumOf(ss[..i], sz)
    {
      assert ss[..i + 1][..i] == ss[..i];
      SumCutLast(ss[..i + 1], sz);
      assert ss[i] in sz;
      sh.ss_slabs[i] := c;
      c.s_below := sh;
      sh.ss_usr_elems := sh.ss_usr_elems + c.s_elems;
      c := c.s_next;
      i := i + 1;
    }
    assert ss[..n] == ss;
    var f := sh.ss_slabs[0];
    var l := sh.ss_slabs[i - 1];
    sh.ss_min := f.s_min;
    sh.ss_max := l.s_max;
  }

  lemma SumNone(sz: map<Slab, nat>)
    ensures forall ss: seq<Slab> :: SumOf(ss[..0], sz) == 0
  {
  }

  lemma {:induction false} UsrSumCutLast(ks: seq<Subslab>)
    requires ks != []
    ensures UsrSum(ks) == UsrSum(ks[..|ks| - 1]) + ks[|ks| - 1].ss_usr_elems
  {
    if |ks| > 1 {
      UsrSumCutLast(ks[1..]);
      assert ks[1..][..|ks| - 2] == ks[..|ks| - 1][1..];
    }
  }

  lemma UsrSumNone(ts: seq<Subslab>)
    ensures UsrSum(ts[..0]) == 0
  {
  }

  /** The loop of attach_sublayer over a chain of subslabs. */
  method FillFromSubslabs(sh: Subslab, hh: Subslab, n: nat, ghost ts: seq<Subslab>)
    requires SubLinked(ts) && n == |ts| <= SUBELEM_MAX && ts != [] && hh == ts[0] && sh !in ts
    requires sh.ss_subs.Length == SUBELEM_MAX && sh.ss_elems == n && sh.ss_usr_elems == 0
    modifies ts`ss_below, sh`ss_usr_elems, sh`ss_min, sh`ss_max, sh.ss_subs
    ensures Holder(sh, ts, ts)
  {
    hide UsrSum;
    UsrSumNone(ts);
    var c: Subslab? := hh;
    var i := 0;
    while i < n
      invariant i <= n && (i < n ==> c == ts[i])
      invariant forall k :: 0 <= k < i ==> sh.ss_subs[k] == ts[k] && ts[k].ss_below == sh
      invariant sh.ss_usr_elems == UsrSum(ts[..i])
    {
      assert ts[..i + 1][..i] == ts[..i];
      UsrSumCutLast(ts[..i + 1]);
      assert c in ts;
      sh.ss_subs[i] := c;
      c.ss_below := sh;
      sh.ss_usr_elems := sh.ss_usr_elems + c.ss_usr_elems;
      c := c.ss_next;
      i := i + 1;
    }
    assert ts[..n] == ts;
    var f := sh.ss_subs[0];
    var l := sh.ss_subs[i - 1];
    sh.ss_min := f.ss_min;
    sh.ss_max := l.ss_max;
  }

  /** The handle of a new sublayer: a copy of the one it is attached to, one layer deeper, with one
      subslab for all that handle's chain. */
  method MkSublayer(h: Handle, n: nat) returns (sub: Handle, sl: Layer, sh: Subslab)
    ensures fresh(sub) && fresh(sl) && fresh(sh) && fresh(sh.ss_slabs) && fresh(sh.ss_subs) && sub.layer == sl
    ensures sub.sl_layer == h.sl_layer + 1 && sub.sl_sublayers == h.sl_sublayers && sub.sl_sublayer == h.sl_sublayer
    ensures sub.sl_superlayer == h
    ensures sl.sl_head == sh && sl.sl_slabs == 1 && sl.subs == [sh] && sl.kids == [] && sl.subkids == []
    ensures sh.ss_elems == n && sh.ss_usr_elems == 0 && sh.ss_next == null && sh.ss_prev == null && sh.ss_below == null
    ensures sh.ss_slabs.Length == SUBELEM_MAX && sh.ss_subs.Length == SUBELEM_MAX
  {
    sl := new Layer();
    sub := new Handle(null, sl);
    sub.sl_sublayers, sub.sl_sublayer, sub.sl_baselayer := h.sl_sublayers, h.sl_sublayer, h.sl_baselayer;
    sh := new Subslab();
    sl.sl_head, sl.subs := sh, [sh];
    sh.ss_elems := n;
    sl.sl_slabs := 1;
    sub.sl_superlayer := h;
    sub.sl_layer := h.sl_layer + 1;
  }

  ghost predicate Supers(hs: seq<Handle>)
    reads hs`sl_superlayer
  {
    forall i {:trigger hs[i].sl_superlayer} :: 0 <= i < |hs| ==> hs[i].sl_superlayer == if i > 0 then hs[i - 1] else null
  }

  lemma SuperAt(hs: seq<Handle>, i: nat)
    requires Supers(hs) && NoDup(hs) && i < |hs|
    ensures hs[i].sl_superlayer == if i > 0 then hs[i - 1] else null
    ensures forall k :: 0 <= k < |hs| && k != i ==> hs[k] != hs[i]
  {
  }

  /** The superlayers of h, from h up to the top, count one sublayer more and get a new base. */
  method CountSublayer(h: Handle, sub: Handle, ghost hs: seq<Handle>)
    requires Supers(hs) && NoDup(hs) && hs != [] && h == hs[|hs| - 1] && sub !in hs && sub.sl_superlayer == h
    requires forall i :: 0 <= i < |hs| ==> hs[i].sl_sublayers == |hs| - 1 - i
    modifies hs`sl_sublayers, hs`sl_baselayer
    ensures forall i :: 0 <= i < |hs| ==> hs[i].sl_sublayers == |hs| - i && hs[i].sl_baselayer == sub
  {
    hide Supers, NoDup;
    var sup: Handle? := sub.sl_superlayer;
    ghost var i := |hs| - 1;
    while sup != null
      invariant -1 <= i < |hs| && sup == (if i < 0 then null else hs[i])
      invariant forall k :: i < k < |hs| ==> hs[k].sl_sublayers == |hs| - k && hs[k].sl_baselayer == sub
      invariant forall k :: 0 <= k <= i ==> hs[k].sl_sublayers == |hs| - 1 - k
      decreases i + 1
    {
      SuperAt(hs, i);
      sup.sl_sublayers := sup.sl_sublayers + 1;
      sup.sl_baselayer := sub;
      sup := sup.sl_superlayer;
      i := i - 1;
    }
  }

  lemma OneGroup<T>(x: seq<T>)
    ensures Flatten([x]) == x
  {
    FlattenOne(x);
  }

  /** A single subslab that holds the whole chain of slabs is an index of it. */
  lemma {:induction false} TopIndexOne(l: Layer, sh: Subslab, ss: seq<Slab>)
    requires l.sl_slabs == 1 && l.sl_head == sh && l.subs == [sh] && l.kids == [ss] && ss != []
    requires sh.ss_next == null && sh.ss_prev == null && sh.Kids(ss)
    requires (forall k :: 0 <= k < |ss| ==> ss[k].s_below == sh) && sh.ss_usr_elems == SumOf(ss, SizesOf(ss)) && ExtAt(sh, ss, ss)
    ensures TopIndex(l, ss)
  {
    hide SumOf, SizesOf, Flatten;
    OneGroup(ss);
  }

  lemma {:induction false} DeepIndexOne(l: Layer, sh: Subslab, ts: seq<Subslab>)
    requires l.sl_slabs == 1 && l.sl_head == sh && l.subs == [sh] && l.subkids == [ts] && ts != [] && |ts| <= SUBELEM_MAX
    requires sh.ss_next == null && sh.ss_prev == null && Holder(sh, ts, ts)
    ensures DeepIndex(l, ts)
  {
    hide UsrSum, Flatten, Holder;
    OneGroup(ts);
  }

  /** The stack with the new base. */
  lemma {:induction false} StackGrown(hs: seq<Handle>, sub: Handle)
    requires hs != [] && sub !in hs && hs[0].list != null && hs[0].list.sl_sorted && sub.layer != null
    requires NoDup(hs) && Supers(hs)
    requires forall i :: 1 <= i < |hs| ==> hs[i].layer != null
    requires forall i :: 0 <= i < |hs| ==> hs[i].sl_layer == i && hs[i].sl_sublayers == |hs| - i && hs[i].sl_baselayer == sub
    requires forall i {:trigger hs[i].sl_sublayer} :: 0 <= i < |hs| ==> hs[i].sl_sublayer == if i < |hs| - 1 then hs[i + 1] else sub
    requires sub.sl_layer == |hs| && sub.sl_sublayers == 0 && sub.sl_sublayer == null && sub.sl_superlayer == hs[|hs| - 1]
    ensures Stack(hs + [sub])
  {
    var us := hs + [sub];
    assert forall i :: 0 <= i < |us| ==> us[i] == if i < |hs| then hs[i] else sub;
    forall i {:trigger us[i].sl_sublayer} | 0 <= i < |us| ensures us[i].sl_sublayer == if i < |us| - 1 then us[i + 1] else null {
      if i < |hs| - 1 {
        assert us[i] == hs[i] && us[i + 1] == hs[i + 1] && hs[i].sl_sublayer == hs[i + 1];
      } else if i == |hs| - 1 {
        assert us[i] == hs[i] && us[i + 1] == sub && hs[i].sl_sublayer == sub;
      } else {
        assert us[i] == sub;
      }
    }
    forall i {:trigger us[i].sl_superlayer} | 0 <= i < |us| ensures us[i].sl_superlayer == if i > 0 then us[i - 1] else null {
      if i < |hs| {
        assert us[i] == hs[i];
      } else {
        assert us[i] == sub;
      }
    }
  }

  lemma StackParts(hs: seq<Handle>)
    requires Stack(hs)
    ensures hs != [] && hs[0].list != null && hs[0].list.sl_sorted && NoDup(hs) && Supers(hs)
    ensures forall i :: 1 <= i < |hs| ==> hs[i].layer != null
    ensures forall i :: 0 <= i < |hs| ==> hs[i].sl_sublayers == |hs| - 1 - i && hs[i].sl_layer == i
    ensures forall i {:trigger hs[i].sl_sublayer} :: 0 <= i < |hs| ==> hs[i].sl_sublayer == if i < |hs| - 1 then hs[i + 1] else null
  {
  }

  /** A stack that has got a new base which indexes the old one is a tower. */
  lemma TowerGrown(hs: seq<Handle>, sub: Handle)
    requires hs != [] && Stack(hs + [sub]) && hs[0].list != null && hs[0].list.Top()
    requires forall i :: 1 <= i < |hs| ==> hs[i].layer != null
    requires sub.layer != null
    requires |hs| == 1 ==> TopIndex(sub.layer, hs[0].list.slabs)
    requires |hs| > 1 ==> TopIndex(hs[1].layer, hs[0].list.slabs) && DeepIndex(sub.layer, hs[|hs| - 1].layer.subs)
    requires forall i :: 2 <= i < |hs| ==> DeepIndex(hs[i].layer, hs[i - 1].layer.subs)
    requires forall i, j :: 1 <= i < j < |hs| ==> Separate(hs[i].layer, hs[j].layer)
    requires forall i :: 1 <= i < |hs| ==> Separate(hs[i].layer, sub.layer)
    requires Bottom(sub.layer.subs)
    ensures Tower(hs + [sub])
  {
    hide TopIndex, DeepIndex, Separate, List.Top, Stack, Bottom;
    var us := hs + [sub];
    assert forall i :: 0 <= i < |us| ==> us[i] == if i < |hs| then hs[i] else sub;
  }

  /** The new handle, and the counters and links of the handles above it. */
  method LinkSublayer(h: Handle, n: nat, ghost hs: seq<Handle>) returns (sub: Handle, sl: Layer, sh: Subslab)
    requires Stack(hs) && h == hs[|hs| - 1]
    modifies hs`sl_sublayers, hs`sl_baselayer, h`sl_sublayer
    ensures Stack(hs + [sub]) && fresh(sub) && fresh(sl) && sub.layer == sl
    ensures fresh(sh) && fresh(sh.ss_slabs) && fresh(sh.ss_subs)
    ensures sl.sl_head == sh && sl.sl_slabs == 1 && sl.subs == [sh] && sl.kids == [] && sl.subkids == []
    ensures sh.ss_elems == n && sh.ss_usr_elems == 0 && sh.ss_next == null && sh.ss_prev == null && sh.ss_below == null
    ensures sh.ss_slabs.Length == SUBELEM_MAX && sh.ss_subs.Length == SUBELEM_MAX
  {
    hide Stack, NoDup, Supers;
    StackParts(hs);
    sub, sl, sh := MkSublayer(h, n);
    h.sl_sublayer := sub;
    CountSublayer(h, sub, hs);
    StackGrown(hs, sub);
  }

  /** Fills the first sublayer from the top layer. */
  method FillFirst(sl: Layer, sh: Subslab, top: List)
    requires top.Top() && |top.slabs| <= SUBELEM_MAX && sl.sl_slabs == 1 && sl.sl_head == sh && sl.subs == [sh]
    requires sh.ss_next == null && sh.ss_prev == null && sh.ss_slabs.Length == SUBELEM_MAX
    requires sh.ss_elems == |top.slabs| && sh.ss_usr_elems == 0
    modifies top.slabs`s_below, sl`kids, sh`ss_usr_elems, sh`ss_min, sh`ss_max, sh.ss_slabs
    ensures top.Top() && TopIndex(sl, top.slabs)
  {
    hide Distinct, Linked, Data, TopIndex, SumOf, SizesOf, ExtAt;
    FillFromSlabs(sh, top.sl_head, top.sl_slabs, top.slabs);
    sl.kids := [top.slabs];
    TopIndexOne(sl, sh, top.slabs);
  }

  /** attach_sublayer on a list without sublayers: one subslab comes to hold all slabs. */
  method AttachToTop(h: Handle, ghost hs: seq<Handle>) returns (sub: Handle)
    requires Tower(hs) && hs == [h] && |h.list.slabs| <= SUBELEM_MAX
    modifies hs`sl_sublayers, hs`sl_baselayer, h`sl_sublayer, h.list.slabs`s_below
    ensures fresh(sub) && Tower(hs + [sub]) && sub.layer != null && |sub.layer.subs| == 1 && Bottom(sub.layer.subs)
  {
    hide TopIndex, DeepIndex, Tower, Stack, Separate, List.Top;
    TowerParts(hs);
    TopCount(h.list);
    var sl: Layer;
    var sh: Subslab;
    sub, sl, sh := LinkSublayer(h, h.list.sl_slabs, hs);
    FillFirst(sl, sh, h.list);
    TowerGrown(hs, sub);
  }

  lemma TopCount(sl: List)
    requires sl.Top()
    ensures sl.sl_slabs == |sl.slabs|
  {
  }

  /** Fills the new base from the old one; the indexes above do not look at what changes. */
  method FillBase(sl: Layer, sh: Subslab, base: Layer, ghost hs: seq<Handle>)
    requires 1 < |hs| && hs[0].list != null && (forall i :: 1 <= i < |hs| ==> hs[i].layer != null) && base == hs[|hs| - 1].layer
    requires TopIndex(hs[1].layer, hs[0].list.slabs)
    requires forall i :: 2 <= i < |hs| ==> DeepIndex(hs[i].layer, hs[i - 1].layer.subs)
    requires forall i, j :: 1 <= i < j < |hs| ==> Separate(hs[i].layer, hs[j].layer)
    requires base.subs != [] && base.sl_head == base.subs[0] && base.sl_slabs == |base.subs| <= SUBELEM_MAX && SubLinked(base.subs)
    requires sl.sl_slabs == 1 && sl.sl_head == sh && sl.subs == [sh]
    requires forall i :: 1 <= i < |hs| ==> hs[i].layer != sl && sh !in hs[i].layer.subs
    requires forall i, a :: 1 <= i < |hs| && 0 <= a < |hs[i].layer.subs| ==> hs[i].layer.subs[a].ss_subs != sh.ss_subs
    requires sh.ss_next == null && sh.ss_prev == null && sh.ss_subs.Length == SUBELEM_MAX && sh.ss_elems == |base.subs| && sh.ss_usr_elems == 0
    modifies base.subs`ss_below, sl`subkids, sh`ss_usr_elems, sh`ss_min, sh`ss_max, sh.ss_subs
    ensures DeepIndex(sl, base.subs)
    ensures TopIndex(hs[1].layer, hs[0].list.slabs)
    ensures forall i :: 2 <= i < |hs| ==> DeepIndex(hs[i].layer, hs[i - 1].layer.subs)
  {
    hide TopIndex, DeepIndex, SubLinked, Holder;
    ghost var ts := base.subs;
    FillFromSubslabs(sh, base.sl_head, base.sl_slabs, ts);
    sl.subkids := [ts];
    DeepIndexOne(sl, sh, ts);
    forall i | 2 <= i < |hs| ensures DeepIndex(hs[i].layer, hs[i - 1].layer.subs) {
      assert old(DeepIndex(hs[i].layer, hs[i - 1].layer.subs));
      assert Separate(hs[i - 1].layer, hs[|hs| - 1].layer);
    }
  }

  /** The new base with its handle; the indexes above are as they were. */
  method GrowBase(h: Handle, ghost hs: seq<Handle>) returns (sub: Handle, sl: Layer, sh: Subslab)
    requires 1 < |hs| && Stack(hs) && h == hs[|hs| - 1] && hs[0].list != null && hs[0].list.Top() && forall i :: 1 <= i < |hs| ==> hs[i].layer != null
    requires TopIndex(hs[1].layer, hs[0].list.slabs)
    requires forall i :: 2 <= i < |hs| ==> DeepIndex(hs[i].layer, hs[i - 1].layer.subs)
    requires forall i, j :: 1 <= i < j < |hs| ==> Separate(hs[i].layer, hs[j].layer)
    requires var base := h.layer; base.subs != [] && base.sl_head == base.subs[0] && base.sl_slabs == |base.subs| <= SUBELEM_MAX && SubLinked(base.subs)
    modifies hs`sl_sublayers, hs`sl_baselayer, h`sl_sublayer, h.layer.subs`ss_below
    ensures fresh(sub) && Stack(hs + [sub]) && sub.layer == sl && hs[0].list.Top() && TopIndex(hs[1].layer, hs[0].list.slabs)
    ensures forall i :: 2 <= i < |hs| ==> DeepIndex(hs[i].layer, hs[i - 1].layer.subs)
    ensures DeepIndex(sl, h.layer.subs) && sl.subs == [sh] && sh.ss_below == null && fresh({sl, sh, sh.ss_subs})
  {
    hide TopIndex, DeepIndex, Stack, Separate, List.Top, SubLinked;
    sub, sl, sh := LinkSublayer(h, h.layer.sl_slabs, hs);
    FillBase(sl, sh, h.layer, hs);
  }

  /** attach_sublayer on the base of a list that has sublayers: one subslab comes to hold all of its
      subslabs. */
  method AttachToBase(h: Handle, ghost hs: seq<Handle>) returns (sub: Handle)
    requires Tower(hs) && |hs| > 1 && h == hs[|hs| - 1] && |h.layer.subs| <= SUBELEM_MAX
    modifies hs`sl_sublayers, hs`sl_baselayer, h`sl_sublayer, h.layer.subs`ss_below
    ensures fresh(sub) && Tower(hs + [sub]) && sub.layer != null && |sub.layer.subs| == 1 && Bottom(sub.layer.subs)
  {
    hide TopIndex, DeepIndex, Tower, Stack, NoneShared, List.Top, SubLinked;
    TowerParts(hs);
    BaseChain(hs);
    var sl: Layer;
    var sh: Subslab;
    sub, sl, sh := GrowBase(h, hs);
    forall i, j | 1 <= i < j < |hs| ensures Separate(hs[i].layer, hs[j].layer) {
      assert old(Separate(hs[i].layer, hs[j].layer));
    }
    SeparateNew(hs, sl);
    TowerGrown(hs, sub);
  }

  lemma SeparateNew(hs: seq<Handle>, sl: Layer)
    requires forall i :: 1 <= i < |hs| ==> hs[i].layer != null && hs[i].layer != sl
    requires forall i, a, b :: 1 <= i < |hs| && 0 <= a < |hs[i].layer.subs| && 0 <= b < |sl.subs| ==>
      hs[i].layer.subs[a] != sl.subs[b] && hs[i].layer.subs[a].ss_subs != sl.subs[b].ss_subs
    ensures forall i :: 1 <= i < |hs| ==> Separate(hs[i].layer, sl)
  {
  }

  lemma BaseChain(hs: seq<Handle>)
    requires Tower(hs) && 1 < |hs|
    ensures hs[|hs| - 1].layer != null
    ensures var l := hs[|hs| - 1].layer; l.subs != [] && l.sl_head == l.subs[0] && l.sl_slabs == |l.subs| && SubLinked(l.subs)
  {
    hide Flatten, SubDistinct, UsrSum, Separate;
    if |hs| > 2 {
      assert DeepIndex(hs[|hs| - 1].layer, hs[|hs| - 2].layer.subs);
    }
  }
}
