/** A list with any number of sublayers: how the layers hang together and index one another. */
module LayerTower {
  import opened Seqs
  import opened SlabModel
  import opened Groups
  import opened IndexModel
  import opened SlabCore
  import opened SlabList
  import opened SubLayer
  import opened LayerLadder
  import opened LayerAdd
  import opened LayerPlace
  import opened LayerGen
  import opened LayerRipple
  import opened LayerDown
  import opened LayerApi

  /** The part of slablist_t that ties the layers together: one handle per layer, the top first. What
      a handle's own chain looks like is kept in a List (the top) or a Layer (a sublayer). */
  class Handle {
    var sl_layer: nat
    var sl_sublayers: nat
    var sl_sublayer: Handle?
    var sl_superlayer: Handle?
    var sl_baselayer: Handle?
    const list: List?
    const layer: Layer?

    constructor (list: List?, layer: Layer?)
      ensures this.list == list && this.layer == layer
      ensures sl_layer == 0 && sl_sublayers == 0 && sl_sublayer == null && sl_superlayer == null && sl_baselayer == null
    {
      this.list, this.layer := list, layer;
      sl_layer, sl_sublayers := 0, 0;
      sl_sublayer, sl_superlayer, sl_baselayer := null, null, null;
    }
  }

  /** The handles of a list and its sublayers, and their links and counters. The sl_baselayer of the
      base itself is a stale copy. */
  ghost predicate Stack(hs: seq<Handle>)
    reads hs
  {
    var last := |hs| - 1;
    && hs != [] && hs[0].list != null && hs[0].list.sl_sorted
    && (forall i, j :: 0 <= i < j < |hs| ==> hs[i] != hs[j])
    && (forall i :: 1 <= i < |hs| ==> hs[i].layer != null)
    && (forall i :: 0 <= i < |hs| ==> hs[i].sl_layer == i && hs[i].sl_sublayers == last - i)
    && (forall i {:trigger hs[i].sl_sublayer} :: 0 <= i < |hs| ==> hs[i].sl_sublayer == if i < last then hs[i + 1] else null)
    && (forall i {:trigger hs[i].sl_superlayer} :: 0 <= i < |hs| ==> hs[i].sl_superlayer == if i > 0 then hs[i - 1] else null)
    && (forall i :: 0 <= i < last ==> hs[i].sl_baselayer == hs[last])
  }

  ghost function UsrSum(ks: seq<Subslab>): nat
    reads ks`ss_usr_elems
  {
    if ks == [] then 0 else ks[0].ss_usr_elems + UsrSum(ks[1..])
  }

  /** A deeper sublayer indexes the chain ts of the layer above it. */
  ghost predicate DeepIndex(l: Layer, ts: seq<Subslab>)
    reads l, l.subs`ss_next, l.subs`ss_prev, l.subs`ss_elems, set t <- l.subs :: t.ss_subs
    reads l.subs`ss_usr_elems, l.subs`ss_min, l.subs`ss_max
    reads ts`ss_below, ts`ss_usr_elems, ts`ss_min, ts`ss_max
  {
    && l.sl_slabs == |l.subs| == |l.subkids| > 0 && l.sl_head == l.subs[0]
    && SubDistinct(l.subs) && SubLinked(l.subs) && GroupsOk(l.subkids) && Flatten(l.subkids) == ts
    && forall j :: 0 <= j < |l.subs| ==> Holder(l.subs[j], l.subkids[j], ts)
  }

  /** t holds the subslabs ks: pointers both ways, extrema and count. */
  ghost predicate Holder(t: Subslab, ks: seq<Subslab>, ts: seq<Subslab>)
    reads t`ss_elems, t`ss_usr_elems, t`ss_min, t`ss_max, t.ss_subs
    reads ts`ss_below, ts`ss_usr_elems, ts`ss_min, ts`ss_max
  {
    && t.SubKids(ks) && ks != []
    && (forall k :: 0 <= k < |ks| ==> ks[k] in ts && ks[k].ss_below == t)
    && t.ss_min == ks[0].ss_min && t.ss_max == ks[|ks| - 1].ss_max && t.ss_usr_elems == UsrSum(ks)
  }

  /** Every layer indexes the one above it, and nothing lies below the base. */
  ghost predicate Tower(hs: seq<Handle>)
    reads *
  {
    && Stack(hs) && hs[0].list.Top()
    && (|hs| > 1 ==> TopIndex(hs[1].layer, hs[0].list.slabs))
    && (forall i :: 2 <= i < |hs| ==> DeepIndex(hs[i].layer, hs[i - 1].layer.subs))
    && (|hs| > 1 ==> Bottom(hs[|hs| - 1].layer.subs))
    && forall i, j :: 1 <= i < j < |hs| ==> Separate(hs[i].layer, hs[j].layer)
  }

  /** Two layers are different objects and share no subslab and no array. */
  ghost predicate Separate(l: Layer, k: Layer)
    reads l`subs, k`subs
  {
    l != k && NoneShared(l.subs, k.subs)
  }

  /* ---- the deeper layers together ---- */

  lemma {:induction false} UsrSumIs(ks: seq<Subslab>, cnt: map<Subslab, nat>)
    requires forall k :: 0 <= k < |ks| ==> SizeAt(cnt, ks[k]) == ks[k].ss_usr_elems
    ensures UsrSum(ks) == SumOf(ks, cnt)
  {
    if ks != [] {
      UsrSumIs(ks[1..], cnt);
    }
  }

  /** What it takes for one deeper layer to index the one above it. */
  lemma {:induction false} DeepIndexParts(l: Layer, us: seq<Subslab>, cnt: map<Subslab, nat>)
    requires DeepIndex(l, us)
    requires forall t :: t in us || t in l.subs ==> SizeAt(cnt, t) == t.ss_usr_elems
    ensures |l.subs| == |l.subkids| && SubDistinct(l.subs) && GroupsOk(l.subkids) && Flatten(l.subkids) == us
    ensures Rung(l.subs, l.subkids, us) && ExtOut(l.subs, l.subkids, us, NONE) && Sums(l.subs, l.subkids, cnt)
  {
    hide SubDistinct, SubLinked, Flatten, UsrSum, SumOf, SizeAt, Subslab.SubKids;
    var ts, g := l.subs, l.subkids;
    forall j | 0 <= j < |ts| ensures SizeAt(cnt, ts[j]) == SumOf(g[j], cnt) {
      assert Holder(ts[j], g[j], us) && ts[j] in ts;
      UsrSumIs(g[j], cnt);
    }
    forall j, k | 0 <= j < |g| && 0 <= k < |g[j]| ensures g[j][k] in us && g[j][k].ss_below == ts[j] {
      assert Holder(ts[j], g[j], us);
    }
    assert forall j :: 0 <= j < |ts| ==> Holder(ts[j], g[j], us);
  }

  lemma {:induction false} DeepIndexFrom(l: Layer, us: seq<Subslab>, cnt: map<Subslab, nat>)
    requires l.sl_slabs == |l.subs| == |l.subkids| > 0 && l.sl_head == l.subs[0]
    requires SubDistinct(l.subs) && GroupsOk(l.subkids) && Flatten(l.subkids) == us
    requires Rung(l.subs, l.subkids, us) && ExtOut(l.subs, l.subkids, us, NONE) && Sums(l.subs, l.subkids, cnt)
    requires forall t :: t in us || t in l.subs ==> SizeAt(cnt, t) == t.ss_usr_elems
    ensures DeepIndex(l, us)
  {
    hide SubDistinct, SubLinked, Flatten, UsrSum, SumOf, SizeAt, Subslab.SubKids;
    var ts, g := l.subs, l.subkids;
    forall j | 0 <= j < |ts| ensures Holder(ts[j], g[j], us) {
      assert DeepExtAt(ts[j], g[j], us) && ts[j] in ts;
      assert forall k :: 0 <= k < |g[j]| ==> g[j][k] in us && g[j][k].ss_below == ts[j];
      UsrSumIs(g[j], cnt);
    }
  }

  /** The layers below the first sublayer. */
  ghost function DeepOf(hs: seq<Handle>): (d: Deep)
    requires forall i :: 2 <= i < |hs| ==> hs[i].layer != null
    reads set i | 2 <= i < |hs| :: hs[i].layer
  {
    var n := if |hs| > 2 then |hs| - 2 else 0;
    Deep(seq(n, i requires 0 <= i < n reads set k | 2 <= k < |hs| :: hs[k].layer => hs[i + 2].layer.subs),
         seq(n, i requires 0 <= i < n reads set k | 2 <= k < |hs| :: hs[k].layer => hs[i + 2].layer.subkids),
         set i, t | 2 <= i < |hs| && t in hs[i].layer.subs :: t)
  }
  lemma {:induction false} DeepOfIs(hs: seq<Handle>, i: nat)
    requires 1 < |hs| && (forall k :: 1 <= k < |hs| ==> hs[k].layer != null) && i < |hs| - 1
    ensures |DeepOf(hs).cs| == |DeepOf(hs).gs| == |hs| - 2
    ensures Above(hs[1].layer.subs, DeepOf(hs), i) == hs[i + 1].layer.subs
    ensures i < |hs| - 2 ==> DeepOf(hs).cs[i] == hs[i + 2].layer.subs && DeepOf(hs).gs[i] == hs[i + 2].layer.subkids
    ensures forall t :: t in hs[i + 1].layer.subs ==> t in hs[1].layer.subs || t in DeepOf(hs).all
  {
  }

  lemma TowerParts(hs: seq<Handle>)
    requires Tower(hs)
    ensures Stack(hs) && hs != [] && hs[0].list != null && hs[0].list.Top()
    ensures forall i :: 1 <= i < |hs| ==> hs[i].layer != null
    ensures |hs| > 1 ==> TopIndex(hs[1].layer, hs[0].list.slabs) && Bottom(hs[|hs| - 1].layer.subs)
    ensures forall i :: 2 <= i < |hs| ==> DeepIndex(hs[i].layer, hs[i - 1].layer.subs)
    ensures forall i, j :: 1 <= i < j < |hs| ==> Separate(hs[i].layer, hs[j].layer)
  {
    hide TopIndex, DeepIndex, Separate, List.Top, Bottom;
  }

  lemma TowerBy(hs: seq<Handle>)
    requires Stack(hs) && hs[0].list.Top()
    requires |hs| > 1 ==> TopIndex(hs[1].layer, hs[0].list.slabs) && Bottom(hs[|hs| - 1].layer.subs)
    requires forall i :: 2 <= i < |hs| ==> DeepIndex(hs[i].layer, hs[i - 1].layer.subs)
    requires forall i, j :: 1 <= i < j < |hs| ==> Separate(hs[i].layer, hs[j].layer)
    ensures Tower(hs)
  {
    hide TopIndex, DeepIndex, Separate, List.Top, Bottom;
  }

  lemma {:induction false} TowerShape(hs: seq<Handle>)
    requires Tower(hs) && 1 < |hs|
    ensures Shape(hs[1].layer.subs, DeepOf(hs))
  {
    hide Tower, TopIndex, DeepIndex, DeepOf, GroupsOk, Flatten, SubDistinct, NoneShared;
    TowerParts(hs);
    var us, d := hs[1].layer.subs, DeepOf(hs);
    DeepOfIs(hs, 0);
    DeepOfAll(hs);
    forall i | 0 <= i <= |d.cs| ensures SubDistinct(Above(us, d, i)) {
      DeepOfIs(hs, i);
      LayerDistinct(hs, i + 1);
    }
    forall i | 0 <= i < |d.cs| ensures |d.gs[i]| == |d.cs[i]| && GroupsOk(d.gs[i]) && Flatten(d.gs[i]) == Above(us, d, i) {
      DeepOfIs(hs, i);
      LayerDistinct(hs, i + 2);
    }
    forall i, j | 0 <= i < |d.cs| && 0 <= j < |d.cs[i]| ensures d.cs[i][j] in d.all {
      DeepOfIs(hs, i);
    }
    forall i, j | 0 <= i < j <= |d.cs| ensures NoneShared(Above(us, d, i), Above(us, d, j)) {
      DeepOfIs(hs, i);
      DeepOfIs(hs, j);
      assert Separate(hs[i + 1].layer, hs[j + 1].layer);
    }
    forall j | 0 <= j < |us| ensures us[j] !in d.all {
      TopNotDeep(hs, j);
    }
  }

  lemma DeepOfAll(hs: seq<Handle>)
    requires 1 < |hs| && forall k :: 1 <= k < |hs| ==> hs[k].layer != null
    ensures forall i, j :: 2 <= i < |hs| && 0 <= j < |hs[i].layer.subs| ==> hs[i].layer.subs[j] in DeepOf(hs).all
  {
    forall i, j | 2 <= i < |hs| && 0 <= j < |hs[i].layer.subs| ensures hs[i].layer.subs[j] in DeepOf(hs).all {
      assert hs[i].layer.subs[j] in hs[i].layer.subs;
    }
  }

  lemma {:induction false} TopNotDeep(hs: seq<Handle>, j: nat)
    requires Tower(hs) && 1 < |hs| && j < |hs[1].layer.subs|
    ensures hs[1].layer.subs[j] !in DeepOf(hs).all
  {
    hide Tower, Stack, TopIndex, DeepIndex;
    TowerParts(hs);
    var t := hs[1].layer.subs[j];
    forall i | 2 <= i < |hs| ensures t !in hs[i].layer.subs {
      assert Separate(hs[1].layer, hs[i].layer);
    }
  }

  /** The subslabs of every layer are different ones, and hold what they are to hold. */
  lemma {:induction false} LayerDistinct(hs: seq<Handle>, i: nat)
    requires Tower(hs) && 1 <= i < |hs|
    ensures SubDistinct(hs[i].layer.subs)
    ensures i > 1 ==> |hs[i].layer.subkids| == |hs[i].layer.subs| && GroupsOk(hs[i].layer.subkids)
    ensures i > 1 ==> Flatten(hs[i].layer.subkids) == hs[i - 1].layer.subs
  {
    hide Tower, Flatten, GroupsOk, SubDistinct;
    TowerParts(hs);
    if i == 1 {
      TopIndexParts(hs[1].layer, hs[0].list.slabs);
    } else {
      assert DeepIndex(hs[i].layer, hs[i - 1].layer.subs);
    }
  }

  /** In a tower the layers below the first sublayer index one another. */
  lemma {:induction false} TowerDeep(hs: seq<Handle>)
    requires Tower(hs) && 1 < |hs|
    ensures DeepOk(hs[1].layer.subs, DeepOf(hs))
  {
    hide Tower, Stack, TopIndex, DeepIndex, Shape, Rung, ExtOut, Sums, CountMap, SizeAt, Bottom, DeepOf, GroupsOk, Flatten, SubDistinct;
    TowerParts(hs);
    TowerShape(hs);
    var us, d := hs[1].layer.subs, DeepOf(hs);
    CountAt(us, d);
    DeepOfIs(hs, |hs| - 2);
    forall i | 0 <= i < |d.cs|
      ensures Rung(d.cs[i], d.gs[i], Above(us, d, i)) && ExtOut(d.cs[i], d.gs[i], Above(us, d, i), NONE) && Sums(d.cs[i], d.gs[i], CountMap(us, d))
    {
      DeepOfIs(hs, i);
      DeepOfIs(hs, i + 1);
      DeepIndexParts(hs[i + 2].layer, hs[i + 1].layer.subs, CountMap(us, d));
    }
  }

  /** One deeper layer, from all of them together. */
  lemma {:induction false} DeepIndexOf(hs: seq<Handle>, i: nat)
    requires 1 < |hs| && (forall k :: 1 <= k < |hs| ==> hs[k].layer != null) && 2 <= i < |hs|
    requires DeepOk(hs[1].layer.subs, DeepOf(hs)) && Headed(hs[i].layer)
    ensures DeepIndex(hs[i].layer, hs[i - 1].layer.subs)
  {
    hide Rungs, Shape, Rung, ExtOut, Sums, CountMap, SizeAt, Bottom, DeepOf, GroupsOk, Flatten, SubDistinct, DeepIndex, Exts, Counts, Above, DeepOk;
    DeepParts(hs[1].layer.subs, DeepOf(hs));
    var us, d := hs[1].layer.subs, DeepOf(hs);
    DeepOfIs(hs, i - 2);
    DeepOfIs(hs, i - 1);
    CountAt(us, d);
    CountsSums(us, d);
    ExtsAt(us, d, i - 2);
    RungsShape(us, d);
    RungAt(us, d, i - 2);
    ShapeAt(us, d, i - 2);
    DistinctAt(us, d, i - 1);
    DeepIndexFrom(hs[i].layer, hs[i - 1].layer.subs, CountMap(us, d));
  }

  lemma ExtsAt(us: seq<Subslab>, d: Deep, i: nat)
    requires Exts(us, d) && i < |d.cs|
    ensures |d.gs| == |d.cs| && ExtOut(d.cs[i], d.gs[i], Above(us, d, i), NONE)
  {
    hide ExtOut, SubDistinct, GroupsOk, Flatten, NoneShared;
  }

  lemma DistinctAt(us: seq<Subslab>, d: Deep, i: nat)
    requires Shape(us, d) && i <= |d.cs|
    ensures SubDistinct(Above(us, d, i))
  {
    hide GroupsOk, Flatten, NoneShared, SubDistinct;
  }

  /** The handle of a deeper layer knows the start and the length of its chain. */
  ghost predicate Headed(l: Layer)
    reads l
  {
    l.sl_slabs == |l.subs| == |l.subkids| > 0 && l.sl_head == l.subs[0]
  }

  lemma TowerHeaded(hs: seq<Handle>, i: nat)
    requires Tower(hs) && 2 <= i < |hs|
    ensures hs[i].layer != null && Headed(hs[i].layer)
  {
    hide Stack, TopIndex, Flatten, GroupsOk, SubDistinct, SubLinked;
    TowerParts(hs);
    assert DeepIndex(hs[i].layer, hs[i - 1].layer.subs);
  }

  /** A tower from its parts. */
  lemma {:induction false} TowerFrom(hs: seq<Handle>)
    requires Stack(hs) && 1 < |hs| && hs[0].list.Top() && TopIndex(hs[1].layer, hs[0].list.slabs)
    requires DeepOk(hs[1].layer.subs, DeepOf(hs)) && forall i :: 2 <= i < |hs| ==> Headed(hs[i].layer)
    requires forall i, j :: 1 <= i < j < |hs| ==> hs[i].layer != hs[j].layer
    ensures Tower(hs)
  {
    hide Rungs, DeepOf, TopIndex, DeepIndex, NoneShared, List.Top, Headed, Exts, Counts, Bottom, DeepOk, Shape, Above;
    StackLayers(hs);
    forall i | 2 <= i < |hs| ensures DeepIndex(hs[i].layer, hs[i - 1].layer.subs) {
      DeepIndexOf(hs, i);
    }
    DeepOfIs(hs, |hs| - 2);
    DeepBottom(hs[1].layer.subs, DeepOf(hs));
    DeepShape(hs[1].layer.subs, DeepOf(hs));
    forall i, j | 1 <= i < j < |hs| ensures Separate(hs[i].layer, hs[j].layer) {
      DeepOfIs(hs, i - 1);
      DeepOfIs(hs, j - 1);
      LayersNotShared(hs[1].layer.subs, DeepOf(hs), i - 1, j - 1);
    }
  }

  lemma DeepShape(us: seq<Subslab>, d: Deep)
    requires DeepOk(us, d)
    ensures Shape(us, d)
  {
    hide Shape, Rung, Bottom, Exts, Counts;
  }

  lemma LayersNotShared(us: seq<Subslab>, d: Deep, i: nat, j: nat)
    requires Shape(us, d) && i < j <= |d.cs|
    ensures NoneShared(Above(us, d, i), Above(us, d, j))
  {
    hide SubDistinct, GroupsOk, Flatten, Above, NoneShared;
  }

  lemma DeepBottom(us: seq<Subslab>, d: Deep)
    requires DeepOk(us, d)
    ensures Bottom(Above(us, d, |d.cs|))
  {
    hide Shape, Rung, Bottom, Exts, Counts;
  }

  /* ---- order, layer by layer ---- */

  lemma {:induction false} DeepOrderedSubs(l: Layer, us: seq<Subslab>)
    requires DeepIndex(l, us) && OrderedSubs(us)
    ensures OrderedSubs(l.subs)
  {
    hide Flatten, SubDistinct, SubLinked, UsrSum;
    var ts, g := l.subs, l.subkids;
    forall j | 0 <= j < |ts| ensures ts[j].ss_min <= ts[j].ss_max {
      assert Holder(ts[j], g[j], us);
      FlattenIndex(g, j, 0);
      FlattenIndex(g, j, |g[j]| - 1);
    }
    forall i, j | 0 <= i < j < |ts| ensures ts[i].ss_max < ts[j].ss_min {
      assert Holder(ts[i], g[i], us) && Holder(ts[j], g[j], us);
      FlattenIndex(g, i, |g[i]| - 1);
      FlattenIndex(g, j, 0);
      SpotMono(g, i, j);
    }
  }

  lemma TopIndexParts(l: Layer, ss: seq<Slab>)
    requires TopIndex(l, ss)
    ensures l.Chain() && Below(l.subs, l.kids, ss) && Ext(l.subs, l.kids, ss) && Usr(l.subs, l.kids, SizesOf(ss))
    ensures GroupsOk(l.kids) && Flatten(l.kids) == ss
  {
  }

  /** The subslabs of every layer have disjoint, ascending ranges. */
  lemma {:induction false} LayerOrdered(hs: seq<Handle>, i: nat)
    requires Tower(hs) && Ordered(hs[0].list.slabs) && 1 <= i < |hs|
    ensures OrderedSubs(hs[i].layer.subs)
  {
    hide TopIndex, DeepIndex, Stack, OrderedSubs, Ordered;
    StackLayers(hs);
    if i == 1 {
      TopIndexParts(hs[1].layer, hs[0].list.slabs);
      TopOrderedSubs(hs[1].layer, hs[0].list.slabs);
    } else {
      LayerOrdered(hs, i - 1);
      DeepOrderedSubs(hs[i].layer, hs[i - 1].layer.subs);
    }
  }

  lemma StackLayers(hs: seq<Handle>)
    requires Stack(hs)
    ensures hs != [] && hs[0].list != null && forall i :: 1 <= i < |hs| ==> hs[i].layer != null
  {
  }

  /* ---- where a scan stops, layer by layer ---- */

  /** i is the first index whose maximum is not below e, or the last index. */
  ghost predicate StopsAt(h: seq<int>, e: int, i: int) {
    0 <= i < |h| && (forall k :: 0 <= k < i ==> h[k] < e) && (i < |h| - 1 ==> e <= h[i])
  }

  ghost function SlabMaxs(ss: seq<Slab>): (h: seq<int>)
    reads ss
  {
    seq(|ss|, i requires 0 <= i < |ss| reads ss => ss[i].s_max)
  }

  ghost function SubMaxs(ts: seq<Subslab>): (h: seq<int>)
    reads ts
  {
    seq(|ts|, i requires 0 <= i < |ts| reads ts => ts[i].ss_max)
  }

  /** A scan of the groups' maxima and then of the group it stops in ends where a scan of the whole
      concatenation ends. */
  lemma {:induction false} GroupStop<T>(g: seq<seq<T>>, f: seq<int>, top: seq<int>, e: int, j: nat, k: nat)
    requires |f| == |Flatten(g)| && |top| == |g| && StrictlySorted(f) && j < |g| && k < |g[j]|
    requires forall i :: 0 <= i < |g| ==> g[i] != [] && Spot(g, i, |g[i]| - 1) < |f| && top[i] == f[Spot(g, i, |g[i]| - 1)]
    requires StopsAt(top, e, j) && Spot(g, j, |g[j]| - 1) < |f|
    requires StopsAt(f[Spot(g, j, 0)..Spot(g, j, 0) + |g[j]|], e, k)
    ensures StopsAt(f, e, Spot(g, j, k))
  {
    hide Flatten;
    var b, p := Spot(g, j, 0), Spot(g, j, k);
    var part := f[b..b + |g[j]|];
    SpotNext(g, j);
    assert g[..|g|] == g;
    assert forall i :: 0 <= i < |part| ==> part[i] == f[b + i];
    forall i | 0 <= i < p ensures f[i] < e {
      if i < b {
        EarlierGroup(g, f, top, e, j, i);
      } else {
        assert f[i] == part[i - b];
      }
    }
    if p < |f| - 1 {
      if k < |g[j]| - 1 {
        assert e <= part[k];
      } else if j < |g| - 1 {
        assert top[j] == f[p];
      } else {
        assert false;
      }
    }
  }

  lemma {:induction false} EarlierGroup<T>(g: seq<seq<T>>, f: seq<int>, top: seq<int>, e: int, j: nat, i: nat)
    requires |f| == |Flatten(g)| && |top| == |g| && StrictlySorted(f) && j < |g|
    requires forall a :: 0 <= a < |g| ==> g[a] != [] && Spot(g, a, |g[a]| - 1) < |f| && top[a] == f[Spot(g, a, |g[a]| - 1)]
    requires StopsAt(top, e, j) && i < Spot(g, j, 0)
    ensures i < |f| && f[i] < e
  {
    hide Flatten;
    assert j > 0 by {
      assert Spot(g, 0, 0) == 0 by { assert g[..0] == []; FlattenNone<T>(); }
    }
    SpotNext(g, j - 1);
    SpotMono(g, j, |g|);
    assert i <= Spot(g, j - 1, |g[j - 1]| - 1);
    assert top[j - 1] < e;
  }

  lemma FlattenNone<T>()
    ensures Flatten<T>([]) == []
  {
  }
}
