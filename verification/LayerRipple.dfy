/** slablist_add.c, the index layer: carrying a change of the top layer down to the extrema and the
    counts of the subslabs. */
module LayerRipple {
  import opened Seqs
  import opened SlabModel
  import opened Groups
  import opened AddModel
  import opened IndexModel
  import opened SlabCore
  import opened SubLayer
  import opened LayerLadder
  import opened LayerAdd
  import opened LayerPlace
  import opened LayerGen

  /** The number of elements in each slab. */
  ghost function SizesOf(ss: seq<Slab>): map<Slab, nat>
    reads ss`s_elems
  {
    map s | s in ss :: s.s_elems
  }

  /** The first sublayer indexes the chain ss: its groups concatenate to the chain, every slab points at
      its holder, and extrema and counts are exact. */
  ghost predicate TopIndex(l: Layer, ss: seq<Slab>)
    reads l, l.subs`ss_next, l.subs`ss_prev, l.subs`ss_elems, set t <- l.subs :: t.ss_slabs
    reads l.subs`ss_usr_elems, l.subs`ss_min, l.subs`ss_max
    reads ss`s_below, ss`s_elems, ss`s_min, ss`s_max
  {
    Settled(l, ss, SizesOf(ss)) && GroupsOk(l.kids) && Flatten(l.kids) == ss
  }

  /* ---- counts after one slab has grown ---- */

  /** Counting one more in the holder of the slab that has grown makes all counts right again. */
  lemma {:induction false} UsrGrown(ts: seq<Subslab>, g: seq<seq<Slab>>, sz: map<Slab, nat>, a: nat, b: nat)
    requires |g| == |ts| && NoDup(Flatten(g)) && a < |g| && b < |g[a]|
    requires forall j :: 0 <= j < |ts| && j != a ==> ts[j].ss_usr_elems == SumOf(g[j], sz)
    requires ts[a].ss_usr_elems == SumOf(g[a], sz) + 1
    ensures Usr(ts, g, sz[g[a][b] := SizeAt(sz, g[a][b]) + 1])
  {
    hide Flatten, NoDup, SumOf;
    var n := g[a][b];
    GroupNoDup(g, a);
    SumChanged(g[a], sz, b, SizeAt(sz, n) + 1);
    forall j | 0 <= j < |ts| && j != a ensures SumOf(g[j], sz[n := SizeAt(sz, n) + 1]) == SumOf(g[j], sz) {
      NotInOther(g, a, b, j);
      SumOther(g[j], sz, n, SizeAt(sz, n) + 1);
    }
  }

  /* ---- the ripple loops ---- */

  /** One round of ripple_update_extrema in the first sublayer. */
  method UpdateThree(l: Layer, p: Subslab, ghost h: nat, ghost ss: seq<Slab>)
    requires l.Chain() && Below(l.subs, l.kids, ss) && h < |l.subs| && p == l.subs[h]
    requires forall i :: 0 <= i < |l.subs| && !(h - 1 <= i <= h + 1) ==> ExtAt(l.subs[i], l.kids[i], ss)
    modifies l.subs`ss_min, l.subs`ss_max
    ensures Ext(l.subs, l.kids, ss)
    ensures forall i :: 0 <= i < |l.subs| && !(h - 1 <= i <= h + 1) ==>
      l.subs[i].ss_min == old(l.subs[i].ss_min) && l.subs[i].ss_max == old(l.subs[i].ss_max)
  {
    hide SubLinked, SubData, Below, ExtAt, Subslab.Kids;
    SubNeighbours(l, h);
    UpdateOne(l, p, h, ss);
    if p.ss_next != null {
      UpdateOne(l, p.ss_next, h + 1, ss);
    }
    if p.ss_prev != null {
      UpdateOne(l, p.ss_prev, h - 1, ss);
    }
  }

  /** subslab_update_extrema of subslab h. */
  method UpdateOne(l: Layer, p: Subslab, ghost h: nat, ghost ss: seq<Slab>)
    requires l.Chain() && Below(l.subs, l.kids, ss) && h < |l.subs| && p == l.subs[h]
    modifies p`ss_min, p`ss_max
    ensures ExtAt(p, l.kids[h], ss)
    ensures forall i :: 0 <= i < |l.subs| && i != h && old(ExtAt(l.subs[i], l.kids[i], ss)) ==> ExtAt(l.subs[i], l.kids[i], ss)
  {
    hide SubLinked;
    assert forall i :: 0 <= i < |l.subs| && i != h ==> l.subs[i] != p;
    ghost var ks := l.kids[h];
    if ks != [] {
      assert l.kids[h][0] in ss && l.kids[h][|ks| - 1] in ss;
    }
    p.UpdateExtrema(ks);
  }


  /* ---- extrema of the deeper layers ---- */

  /** The cached extrema of a subslab are those of the subslabs at the ends of its group. */
  ghost predicate DeepExtAt(t: Subslab, ks: seq<Subslab>, us: seq<Subslab>)
    reads t`ss_min, t`ss_max, us`ss_min, us`ss_max
  {
    ks != [] && ks[0] in us && ks[|ks| - 1] in us && t.ss_min == ks[0].ss_min && t.ss_max == ks[|ks| - 1].ss_max
  }

  /** So it is with all subslabs of a layer but subslab h and its neighbours. */
  ghost predicate ExtOut(ts: seq<Subslab>, g: seq<seq<Subslab>>, us: seq<Subslab>, h: int)
    reads ts`ss_min, ts`ss_max, us`ss_min, us`ss_max
  {
    |g| == |ts| && forall j :: 0 <= j < |ts| && !(h - 1 <= j <= h + 1) ==> DeepExtAt(ts[j], g[j], us)
  }

  const NONE: int := -2

  /** The extrema of all deeper layers are exact. */
  ghost predicate Exts(us: seq<Subslab>, d: Deep)
    reads us`ss_min, us`ss_max, d.all`ss_min, d.all`ss_max
  {
    Shape(us, d) && forall i :: 0 <= i < |d.cs| ==> ExtOut(d.cs[i], d.gs[i], Above(us, d, i), NONE)
  }

  /** The extrema of the next n layers are exact, those of the layers below them but around the way. */
  ghost predicate ExtsFrom(us: seq<Subslab>, d: Deep, hh: seq<nat>, n: nat)
    reads us`ss_min, us`ss_max, d.all`ss_min, d.all`ss_max
  {
    && Shape(us, d) && Trail(us, d, hh)
    && forall i :: 0 <= i < |d.cs| ==> ExtOut(d.cs[i], d.gs[i], Above(us, d, i), if i < n then NONE else hh[i + 1])
  }

  /** A group away from the holder of us[h] has no entry around h. */
  lemma {:induction false} AwayFrom(g: seq<seq<Subslab>>, us: seq<Subslab>, h: nat, a: nat, j: nat, k: nat) returns (m: nat)
    requires Flatten(g) == us && GroupsOk(g) && NoDup(us) && h < |us| && a < |g| && us[h] in g[a]
    requires j < |g| && !(a - 1 <= j <= a + 1) && k < |g[j]|
    ensures m < |us| && us[m] == g[j][k] && !(h - 1 <= m <= h + 1)
  {
    hide Flatten, Spot;
    var b :| 0 <= b < |g[a]| && g[a][b] == us[h];
    SpotIs(g, a, b);
    SpotIs(g, j, k);
    FlattenIndex(g, a, b);
    FlattenIndex(g, j, k);
    m := Spot(g, j, k);
    if h - 1 <= m <= h + 1 {
      HoldersNear(g, h, a, b, m, j, k);
    }
  }

  /** subslab_update_extrema of subslab h of a deeper layer. */
  method UpdateOneDeep(p: Subslab, ghost h: nat, ghost ts: seq<Subslab>, ghost g: seq<seq<Subslab>>, ghost us: seq<Subslab>)
    requires Rung(ts, g, us) && SubDistinct(ts) && GroupsOk(g) && h < |ts| && p == ts[h] && forall t :: t in us ==> t !in ts
    modifies p`ss_min, p`ss_max
    ensures DeepExtAt(p, g[h], us)
    ensures forall i :: 0 <= i < |ts| && i != h && old(DeepExtAt(ts[i], g[i], us)) ==> DeepExtAt(ts[i], g[i], us)
  {
    hide SubLinked;
    ghost var ks := g[h];
    assert g[h][0] in us && g[h][|ks| - 1] in us && ts[h] in ts;
    assert forall k :: 0 <= k < |ks| ==> g[h][k] in us;
    p.UpdateExtremaDeep(ks);
  }

  lemma RungLinks(ts: seq<Subslab>, g: seq<seq<Subslab>>, us: seq<Subslab>, h: nat)
    requires Rung(ts, g, us) && h < |ts|
    ensures |g| == |ts| && ts[h].ss_next == (if h + 1 < |ts| then ts[h + 1] else null) && ts[h].ss_prev == if h > 0 then ts[h - 1] else null
  {
    hide Subslab.SubKids;
  }

  /** One round of ripple_update_extrema in a deeper layer. */
  method UpdateThreeDeep(p: Subslab, ghost h: nat, ghost ts: seq<Subslab>, ghost g: seq<seq<Subslab>>, ghost us: seq<Subslab>)
    requires Rung(ts, g, us) && SubDistinct(ts) && GroupsOk(g) && h < |ts| && p == ts[h] && forall t :: t in us ==> t !in ts
    requires ExtOut(ts, g, us, h)
    modifies ts`ss_min, ts`ss_max
    ensures ExtOut(ts, g, us, NONE)
    ensures forall i :: 0 <= i < |ts| && !(h - 1 <= i <= h + 1) ==>
      ts[i].ss_min == old(ts[i].ss_min) && ts[i].ss_max == old(ts[i].ss_max)
  {
    hide Rung, DeepExtAt, GroupsOk;
    RungLinks(ts, g, us, h);
    UpdateOneDeep(p, h, ts, g, us);
    if p.ss_next != null {
      UpdateOneDeep(p.ss_next, h + 1, ts, g, us);
    }
    if p.ss_prev != null {
      UpdateOneDeep(p.ss_prev, h - 1, ts, g, us);
    }
  }

  /** A layer keeps its extrema while those of the layer above change around h only. */
  lemma {:induction false} StillOut(ts: seq<Subslab>, g: seq<seq<Subslab>>, us: seq<Subslab>, h: nat, a: nat, mins: map<Subslab, int>, maxs: map<Subslab, int>)
    requires Flatten(g) == us && GroupsOk(g) && NoDup(us) && h < |us| && a < |g| == |ts| && us[h] in g[a]
    requires forall j :: 0 <= j < |ts| && !(a - 1 <= j <= a + 1) ==>
      g[j][0] in mins && g[j][|g[j]| - 1] in maxs
      && ts[j].ss_min == mins[g[j][0]] && ts[j].ss_max == maxs[g[j][|g[j]| - 1]]
    requires forall m :: 0 <= m < |us| && !(h - 1 <= m <= h + 1) ==>
      us[m] in mins && us[m] in maxs && us[m].ss_min == mins[us[m]] && us[m].ss_max == maxs[us[m]]
    ensures ExtOut(ts, g, us, a)
  {
    hide Flatten;
    forall j | 0 <= j < |ts| && !(a - 1 <= j <= a + 1) ensures DeepExtAt(ts[j], g[j], us) {
      var m1 := AwayFrom(g, us, h, a, j, 0);
      var m2 := AwayFrom(g, us, h, a, j, |g[j]| - 1);
    }
  }

  ghost function Mins(us: seq<Subslab>): (r: map<Subslab, int>)
    reads us`ss_min
    ensures forall t :: t in us ==> t in r && r[t] == t.ss_min
  {
    map t | t in us :: t.ss_min
  }

  ghost function Maxs(us: seq<Subslab>): (r: map<Subslab, int>)
    reads us`ss_max
    ensures forall t :: t in us ==> t in r && r[t] == t.ss_max
  {
    map t | t in us :: t.ss_max
  }

  lemma ExtValues(ts: seq<Subslab>, g: seq<seq<Subslab>>, us: seq<Subslab>, a: int)
    requires ExtOut(ts, g, us, a) && GroupsOk(g)
    ensures |g| == |ts| && forall j :: 0 <= j < |ts| && !(a - 1 <= j <= a + 1) ==>
      g[j][0] in Mins(us) && g[j][|g[j]| - 1] in Maxs(us)
      && ts[j].ss_min == Mins(us)[g[j][0]] && ts[j].ss_max == Maxs(us)[g[j][|g[j]| - 1]]
  {
    hide Mins, Maxs;
    assert forall j :: 0 <= j < |ts| && !(a - 1 <= j <= a + 1) ==> DeepExtAt(ts[j], g[j], us);
  }

  /** What a layer needs to know about the layers it lies between. */
  lemma {:induction false} LayerFacts(us: seq<Subslab>, d: Deep, hh: seq<nat>, i: nat, n: nat)
    requires Rungs(us, d) && ExtsFrom(us, d, hh, n) && i < |d.cs|
    ensures |d.gs| == |d.cs| && |hh| == |d.cs| + 1 && hh[i + 1] < |d.cs[i]| && hh[i] < |Above(us, d, i)|
    ensures Rung(d.cs[i], d.gs[i], Above(us, d, i)) && SubDistinct(d.cs[i]) && GroupsOk(d.gs[i])
    ensures Flatten(d.gs[i]) == Above(us, d, i) && NoDup(Above(us, d, i))
    ensures Above(us, d, i)[hh[i]] in d.gs[i][hh[i + 1]]
    ensures ExtOut(d.cs[i], d.gs[i], Above(us, d, i), if i < n then NONE else hh[i + 1])
    ensures forall t :: t in Above(us, d, i) ==> t !in d.cs[i]
    ensures forall t :: t in d.cs[i] ==> t in d.all
    ensures Above(us, d, i + 1) == d.cs[i]
  {
    hide Flatten, GroupsOk, NoneShared, Rung, ExtOut;
    ShapeAt(us, d, i);
    LayersApart(us, d, i, i + 1);
    assert SubDistinct(Above(us, d, i + 1));
  }

  lemma ExtsFromAt(us: seq<Subslab>, d: Deep, hh: seq<nat>, n: nat, k: nat)
    requires ExtsFrom(us, d, hh, n) && k < |d.cs|
    ensures |d.gs| == |d.cs| && |hh| == |d.cs| + 1 && Shape(us, d)
    ensures ExtOut(d.cs[k], d.gs[k], Above(us, d, k), if k < n then NONE else hh[k + 1])
  {
    hide Flatten, GroupsOk, NoneShared, ExtOut, SubDistinct;
  }

  lemma ChainsApart(us: seq<Subslab>, d: Deep, k: nat, i: nat)
    requires Shape(us, d) && i <= |d.cs| && k <= |d.cs| && i != k
    ensures forall t :: t in Above(us, d, k) ==> t !in Above(us, d, i)
    ensures forall j :: 0 <= j < |Above(us, d, k)| ==> Above(us, d, k)[j] !in Above(us, d, i)
  {
    hide Shape;
    LayersApart(us, d, k, i);
  }

  /** subslab_update_extrema on layer i, as that layer and the next one see it. */
  method UpdateLayer(p: Subslab, ghost us: seq<Subslab>, ghost d: Deep, ghost hh: seq<nat>, ghost i: nat)
    requires Rungs(us, d) && ExtsFrom(us, d, hh, i) && i < |d.cs| && hh[i + 1] < |d.cs[i]| && p == d.cs[i][hh[i + 1]]
    modifies d.cs[i]`ss_min, d.cs[i]`ss_max
    ensures |d.gs| == |d.cs| && |hh| == |d.cs| + 1 && ExtOut(d.cs[i], d.gs[i], Above(us, d, i), NONE)
    ensures i + 1 < |d.cs| ==> ExtOut(d.cs[i + 1], d.gs[i + 1], d.cs[i], hh[i + 2])
  {
    hide Rungs, Flatten, GroupsOk, Rung, ExtOut, Shape, SubDistinct, NoDup, Above, Mins, Maxs;
    LayerFacts(us, d, hh, i, i);
    ghost var ts, mins, maxs := d.cs[i], Mins(d.cs[i]), Maxs(d.cs[i]);
    if i + 1 < |d.cs| {
      LayerFacts(us, d, hh, i + 1, i);
      ExtValues(d.cs[i + 1], d.gs[i + 1], ts, hh[i + 2]);
      ChainsApart(us, d, i + 2, i + 1);
      NextAbove(us, d, i + 1);
    }
    UpdateThreeDeep(p, hh[i + 1], ts, d.gs[i], Above(us, d, i));
    if i + 1 < |d.cs| {
      StillOut(d.cs[i + 1], d.gs[i + 1], ts, hh[i + 1], hh[i + 2], mins, maxs);
    }
  }

  /** One round of ripple_update_extrema in deeper layer i. */
  method RoundDeep(p: Subslab, ghost us: seq<Subslab>, ghost d: Deep, ghost hh: seq<nat>, ghost i: nat)
    requires Rungs(us, d) && ExtsFrom(us, d, hh, i) && i < |d.cs| && hh[i + 1] < |d.cs[i]| && p == d.cs[i][hh[i + 1]]
    modifies d.cs[i]`ss_min, d.cs[i]`ss_max
    ensures ExtsFrom(us, d, hh, i + 1)
  {
    hide Rungs, GroupsOk, ExtOut, Shape, SubDistinct, Above, NoDup, Flatten, Rung;
    ExtsFromAt(us, d, hh, i, i);
    UpdateLayer(p, us, d, hh, i);
    NextAbove(us, d, i);
    forall k | 0 <= k < |d.cs| ensures ExtOut(d.cs[k], d.gs[k], Above(us, d, k), if k < i + 1 then NONE else hh[k + 1]) {
      if k != i && k != i + 1 {
        assert old(ExtOut(d.cs[k], d.gs[k], Above(us, d, k), if k < i then NONE else hh[k + 1]));
        ChainsApart(us, d, k, i + 1);
        ChainsApart(us, d, k + 1, i + 1);
        NextAbove(us, d, k);
      }
    }
  }

  lemma NextAbove(us: seq<Subslab>, d: Deep, k: nat)
    requires k < |d.cs|
    ensures Above(us, d, k + 1) == d.cs[k]
  {
  }

  /** subslab_update_extrema on the first sublayer, as it and the next layer see it. */
  method UpdateTop(l: Layer, p: Subslab, ghost ss: seq<Slab>, ghost d: Deep, ghost hh: seq<nat>)
    requires l.Chain() && Below(l.subs, l.kids, ss) && Rungs(l.subs, d) && ExtsFrom(l.subs, d, hh, 0)
    requires hh[0] < |l.subs| && p == l.subs[hh[0]]
    requires forall i :: 0 <= i < |l.subs| && !(hh[0] - 1 <= i <= hh[0] + 1) ==> ExtAt(l.subs[i], l.kids[i], ss)
    modifies l.subs`ss_min, l.subs`ss_max
    ensures Ext(l.subs, l.kids, ss)
    ensures |d.gs| == |d.cs| && |hh| == |d.cs| + 1 && (|d.cs| > 0 ==> ExtOut(d.cs[0], d.gs[0], l.subs, hh[1]))
  {
    hide Rungs, Flatten, GroupsOk, Rung, ExtOut, Shape, SubDistinct, SubLinked, SubData, Below, ExtAt, NoDup, Above, Mins, Maxs;
    ghost var us, mins, maxs := l.subs, Mins(l.subs), Maxs(l.subs);
    FirstAbove(us, d);
    if |d.cs| > 0 {
      LayerFacts(us, d, hh, 0, 0);
      ExtValues(d.cs[0], d.gs[0], us, hh[1]);
      ChainsApart(us, d, 1, 0);
      NextAbove(us, d, 0);
    }
    UpdateThree(l, p, hh[0], ss);
    if |d.cs| > 0 {
      StillOut(d.cs[0], d.gs[0], us, hh[0], hh[1], mins, maxs);
    }
  }

  /** The first round of ripple_update_extrema. */
  method RoundTop(l: Layer, p: Subslab, ghost ss: seq<Slab>, ghost d: Deep, ghost hh: seq<nat>)
    requires l.Chain() && Below(l.subs, l.kids, ss) && Rungs(l.subs, d) && ExtsFrom(l.subs, d, hh, 0)
    requires hh[0] < |l.subs| && p == l.subs[hh[0]]
    requires forall i :: 0 <= i < |l.subs| && !(hh[0] - 1 <= i <= hh[0] + 1) ==> ExtAt(l.subs[i], l.kids[i], ss)
    modifies l.subs`ss_min, l.subs`ss_max
    ensures Ext(l.subs, l.kids, ss) && ExtsFrom(l.subs, d, hh, 0)
  {
    hide Rungs, GroupsOk, ExtOut, Shape, Above, Below, ExtAt, Layer.Chain, Ext, Trail;
    ghost var us := l.subs;
    FirstAbove(us, d);
    UpdateTop(l, p, ss, d, hh);
    forall k | 0 <= k < |d.cs| ensures ExtOut(d.cs[k], d.gs[k], Above(us, d, k), if k < 0 then NONE else hh[k + 1]) {
      if k != 0 {
        assert old(ExtOut(d.cs[k], d.gs[k], Above(us, d, k), if k < 0 then NONE else hh[k + 1]));
        ChainsApart(us, d, k, 0);
        ChainsApart(us, d, k + 1, 0);
        NextAbove(us, d, k);
      }
    }
  }

  lemma FirstAbove(us: seq<Subslab>, d: Deep)
    ensures Above(us, d, 0) == us
  {
  }

  lemma ExtsAll(us: seq<Subslab>, d: Deep, hh: seq<nat>)
    requires ExtsFrom(us, d, hh, |d.cs|)
    ensures Exts(us, d)
  {
    hide Shape, ExtOut;
  }

  /** ripple_update_extrema: every subslab on the way down and its two neighbours get the extrema of
      their groups; all others must have them already. The layer of a subslab is counted along. */
  method RippleUpdateExtrema(l: Layer, found: Subslab, ghost ss: seq<Slab>, ghost d: Deep, ghost hh: seq<nat>)
    requires l.Chain() && Below(l.subs, l.kids, ss) && Rungs(l.subs, d) && ExtsFrom(l.subs, d, hh, 0)
    requires hh[0] < |l.subs| && found == l.subs[hh[0]]
    requires forall i :: 0 <= i < |l.subs| && !(hh[0] - 1 <= i <= hh[0] + 1) ==> ExtAt(l.subs[i], l.kids[i], ss)
    modifies l.subs`ss_min, l.subs`ss_max, d.all`ss_min, d.all`ss_max
    ensures Ext(l.subs, l.kids, ss) && Exts(l.subs, d)
  {
    hide Rungs, Ext, ExtsFrom, Below, ExtAt, Exts, PathOf, SubDistinct, SubLinked, SubData, Trail, Layer.Chain, Shape;
    ghost var us, g := l.subs, l.kids;
    ChainLengths(l);
    ExtsFromTrail(us, d, hh);
    PathDown(us, d, hh);
    PathIs(us, d, hh);
    var p: Subslab? := found;
    var layer := 1;
    ghost var ps := PathOf(us, d, hh);
    while p != null
      invariant 1 <= layer <= |ps| + 1 && p == if layer <= |ps| then ps[layer - 1] else null
      invariant layer == 1 ==> forall i :: 0 <= i < |us| && !(hh[0] - 1 <= i <= hh[0] + 1) ==> ExtAt(us[i], l.kids[i], ss)
      invariant layer == 1 ==> ExtsFrom(us, d, hh, 0)
      invariant layer > 1 ==> Ext(us, g, ss)
      invariant layer > 1 ==> ExtsFrom(us, d, hh, layer - 2)
      decreases |ps| + 1 - layer
    {
      if layer == 1 {
        RoundTop(l, p, ss, d, hh);
      } else {
        TopApart(us, d, layer - 2);
        assert Ext(us, g, ss);
        RoundDeep(p, us, d, hh, layer - 2);
      }
      p := p.ss_below;
      layer := layer + 1;
    }
    ExtsAll(us, d, hh);
  }

  lemma ChainLengths(l: Layer)
    requires l.Chain()
    ensures |l.subs| == |l.kids|
  {
    hide SubDistinct, SubLinked;
  }

  lemma TopApart(us: seq<Subslab>, d: Deep, i: nat)
    requires Shape(us, d) && i < |d.cs|
    ensures forall t :: t in us ==> t !in d.cs[i]
  {
    hide GroupsOk, Flatten, NoneShared, SubDistinct;
  }

  lemma ExtsFromTrail(us: seq<Subslab>, d: Deep, hh: seq<nat>)
    requires ExtsFrom(us, d, hh, 0)
    ensures Shape(us, d) && Trail(us, d, hh)
  {
    hide Shape, Trail, ExtOut;
  }

  lemma PathIs(us: seq<Subslab>, d: Deep, hh: seq<nat>)
    requires Shape(us, d) && Trail(us, d, hh)
    ensures |PathOf(us, d, hh)| == |hh| == |d.cs| + 1 && hh[0] < |us| && PathOf(us, d, hh)[0] == us[hh[0]]
    ensures forall i :: 0 <= i < |d.cs| ==> hh[i + 1] < |d.cs[i]| && PathOf(us, d, hh)[i + 1] == d.cs[i][hh[i + 1]]
    ensures forall t :: t in us ==> t !in d.all
    ensures forall i :: 0 <= i < |d.cs| ==> forall t :: t in d.cs[i] ==> t in d.all
  {
    hide GroupsOk, Flatten, NoneShared, SubDistinct;
  }
}
