/** slablist_add on a sorted list with sublayers: the chain changes as it does without them, and the
    indexes follow. */
module LayerApi {
  import opened Seqs
  import opened SlabModel
  import opened Groups
  import opened AddModel
  import opened ListModel
  import opened IndexModel
  import opened SlabCore
  import opened SlabList
  import opened SlabFind
  import opened SlabAdd
  import opened SlabApi
  import opened SubLayer
  import opened LayerLadder
  import opened LayerAdd
  import opened LayerPlace
  import opened LayerGen
  import opened LayerRipple
  import opened LayerDown

  /** What the top layer knows about the extrema and the size of slab k. */
  lemma {:induction false} TopExtrema(sl: List, k: nat)
    requires sl.Top() && sl.sl_sorted && SizesOk(sl.view) && k < |sl.slabs|
    ensures sl.slabs[k].s_min == sl.view[k][0] && sl.slabs[k].s_max == Last(sl.view[k])
    ensures sl.slabs[k].s_elems == |sl.view[k]|
  {
    assert sl.slabs[k].Holds(sl.view[k]) && sl.slabs[k].Exact(sl.view[k]);
  }

  lemma {:induction false} BlocksAscend(v: Blocks, i: nat, j: nat)
    requires SortedBlocks(v) && i < j < |v|
    ensures Last(v[i]) < v[j][0]
  {
    hide Flatten;
    FlattenIndex(v, i, |v[i]| - 1);
    FlattenIndex(v, j, 0);
    SpotMono(v, i, j);
  }

  lemma {:induction false} BlockAscends(v: Blocks, i: nat)
    requires SortedBlocks(v) && i < |v|
    ensures v[i][0] <= Last(v[i])
  {
    SlabSorted(v, i);
  }

  lemma {:induction false} TopOrdered(sl: List)
    requires sl.Top() && sl.sl_sorted && SortedBlocks(sl.view)
    ensures Ordered(sl.slabs)
  {
    hide Flatten, Distinct, Linked, Data, StrictlySorted;
    var ss, v := sl.slabs, sl.view;
    forall i | 0 <= i < |ss| ensures ss[i].s_min == v[i][0] && ss[i].s_max == Last(v[i]) && v[i][0] <= Last(v[i]) {
      TopExtrema(sl, i);
      BlockAscends(v, i);
    }
    forall i, j | 0 <= i < j < |ss| ensures Last(v[i]) < v[j][0] {
      BlocksAscend(v, i, j);
    }
  }

  lemma {:induction false} TopNoDup(sl: List)
    requires sl.Top()
    ensures NoDup(sl.slabs)
  {
  }

  /** Subslabs that hold neither x nor y have exact extrema. */
  ghost predicate ExtBut(ts: seq<Subslab>, g: seq<seq<Slab>>, ss: seq<Slab>, x: Slab, y: Slab)
    reads ts`ss_min, ts`ss_max, ss`s_min, ss`s_max
  {
    |g| == |ts| && forall i :: 0 <= i < |ts| && x !in g[i] && y !in g[i] ==> ExtAt(ts[i], g[i], ss)
  }

  lemma {:induction false} ExtWindow(ts: seq<Subslab>, g: seq<seq<Slab>>, ss: seq<Slab>, h: int, a: nat, b: nat, c: nat, d: nat)
    requires a < |g| && b < |g[a]| && h - 1 <= a <= h + 1 && c < |g| && d < |g[c]| && h - 1 <= c <= h + 1
    requires NoDup(Flatten(g)) && ExtBut(ts, g, ss, g[a][b], g[c][d])
    ensures forall i :: 0 <= i < |ts| && !(h - 1 <= i <= h + 1) ==> ExtAt(ts[i], g[i], ss)
  {
    hide Flatten, NoDup, ExtAt;
    forall i | 0 <= i < |ts| && !(h - 1 <= i <= h + 1) ensures ExtAt(ts[i], g[i], ss) {
      NotInOther(g, a, b, i);
      NotInOther(g, c, d, i);
    }
  }

  /** The cached fields of the slabs are those of their blocks. */
  ghost predicate Cached(ss: seq<Slab>, v: Blocks)
    reads ss`s_min, ss`s_max, ss`s_elems
  {
    |ss| == |v| && SizesOk(v) && forall k :: 0 <= k < |ss| ==>
      ss[k].s_min == v[k][0] && ss[k].s_max == Last(v[k]) && ss[k].s_elems == |v[k]|
  }

  lemma {:induction false} TopCached(sl: List)
    requires sl.Top() && sl.sl_sorted && SizesOk(sl.view)
    ensures Cached(sl.slabs, sl.view)
  {
    hide Distinct, Linked, Data;
    forall k | 0 <= k < |sl.slabs|
      ensures sl.slabs[k].s_min == sl.view[k][0] && sl.slabs[k].s_max == Last(sl.view[k]) && sl.slabs[k].s_elems == |sl.view[k]|
    {
      TopExtrema(sl, k);
    }
  }

  /** The sizes that belong to the blocks v. */
  ghost predicate SizesAre(sz: map<Slab, nat>, ss: seq<Slab>, v: Blocks) {
    |ss| == |v| && sz.Keys == (set s | s in ss) && forall k :: 0 <= k < |ss| ==> ss[k] in sz && sz[ss[k]] == |v[k]|
  }

  lemma {:induction false} CachedSizes(ss: seq<Slab>, v: Blocks)
    requires Cached(ss, v)
    ensures SizesAre(SizesOf(ss), ss, v)
  {
  }

  /** An element added to a known slab: only its size grows. */
  lemma {:induction false} SizesInPlace(s0: map<Slab, nat>, s1: map<Slab, nat>, ss: seq<Slab>, v: Blocks, w: Blocks, c: nat, o: nat)
    requires SizesAre(s0, ss, v) && SizesAre(s1, ss, w) && Gains(v, w, c, o) && NoDup(ss)
    ensures s1 == s0[ss[c] := SizeAt(s0, ss[c]) + 1]
  {
    forall s | s in s1 ensures s in s0 && s1[s] == s0[ss[c] := SizeAt(s0, ss[c]) + 1][s] {
      var k :| 0 <= k < |ss| && ss[k] == s;
    }
  }

  /** An element added along with a new slab: all known slabs keep their size. */
  lemma {:induction false} SizesWithNew(s0: map<Slab, nat>, s1: map<Slab, nat>, ss: seq<Slab>, v: Blocks, w: Blocks, n: Slab, at: nat, o: nat)
    requires SizesAre(s0, ss, v) && at <= |ss| && SizesAre(s1, InsertAt(ss, at, n), w) && n !in ss
    requires Gains(InsertAt(v, at, []), w, at, o)
    ensures n !in s0 && s1 == s0[n := 1]
  {
    hide InsertAt;
    var us, u := InsertAt(ss, at, n), InsertAt(v, at, []);
    InsertAtMembers(ss, at, n);
    InsertAtMembers(v, at, []);
    forall s | s in s0 ensures s in s1 && s1[s] == s0[s] {
      var k :| 0 <= k < |ss| && ss[k] == s;
      InsertAtOther(ss, at, n, k);
      InsertAtOther(v, at, [], k);
      var i := if k < at then k else k + 1;
      assert us[i] == s && |w[i]| == |u[i]|;
    }
    assert us[at] == n && |w[at]| == 1;
    forall s | s in s1 ensures s == n || s in s0 {
      var i :| 0 <= i < |us| && us[i] == s;
    }
  }

  /** The index before a ripple: right but for the extrema of the holders of x and y. */
  ghost predicate Stale(l: Layer, ss: seq<Slab>, x: Slab, y: Slab)
    reads l, l.subs`ss_next, l.subs`ss_prev, l.subs`ss_elems, set t <- l.subs :: t.ss_slabs
    reads l.subs`ss_min, l.subs`ss_max
    reads ss`s_below, ss`s_min, ss`s_max
  {
    && l.Chain() && Below(l.subs, l.kids, ss) && ExtBut(l.subs, l.kids, ss, x, y)
    && GroupsOk(l.kids)
  }

  /** The layers below the first sublayer index one another. */
  ghost predicate DeepOk(us: seq<Subslab>, d: Deep)
    reads us`ss_below, d.all`ss_below, d.all`ss_next, d.all`ss_prev, d.all`ss_elems, set t <- d.all :: t.ss_subs
    reads us`ss_usr_elems, d.all`ss_usr_elems, us`ss_min, us`ss_max, d.all`ss_min, d.all`ss_max
  {
    Rungs(us, d) && Exts(us, d) && Counts(us, d)
  }

  /** If subslab t is full, the one below it, which would get a new one next to t, has room. */
  predicate RoomUnder(t: Subslab)
    reads t`ss_below, t`ss_elems, (if t.ss_below != null then {t.ss_below} else {})`ss_elems
  {
    t.ss_elems == SUBELEM_MAX && t.ss_below != null ==> t.ss_below.ss_elems < SUBELEM_MAX
  }

  predicate RoomBelow(s: Slab)
    reads s`s_below, (if s.s_below != null then {s.s_below} else {})`ss_below, (if s.s_below != null then {s.s_below} else {})`ss_elems
    reads (if s.s_below != null && s.s_below.ss_below != null then {s.s_below.ss_below} else {})`ss_elems
  {
    s.s_below != null ==> RoomUnder(s.s_below)
  }

  lemma SameSelf(d: Deep)
    ensures SameBut(d, d)
  {
  }

  lemma RoomSame(s: Slab, n: Slab)
    requires RoomBelow(s) && n.s_below == s.s_below
    ensures RoomBelow(n)
  {
  }

  /** The groups of the second sublayer have changed at most. */
  predicate SameBut(d: Deep, e: Deep) {
    e.cs == d.cs && e.all == d.all && |e.gs| == |d.gs| && forall i :: 1 <= i < |d.gs| ==> e.gs[i] == d.gs[i]
  }

  lemma DeepParts(us: seq<Subslab>, d: Deep)
    requires DeepOk(us, d)
    ensures Rungs(us, d) && Exts(us, d) && Counts(us, d)
  {
    hide Rungs, Exts, Counts;
  }

  /** ripple_inc_usr_elems from the holder of the slab that has grown. */
  method CountOne(q: Subslab, ghost ts: seq<Subslab>, ghost g: seq<seq<Slab>>, ghost sz: map<Slab, nat>, ghost c: nat, ghost d: nat, ghost ld: Deep)
    requires Usr(ts, g, sz) && NoDup(Flatten(g)) && Rungs(ts, ld) && Counts(ts, ld)
    requires c < |g| && d < |g[c]| && q == ts[c]
    modifies ts`ss_usr_elems, ld.all`ss_usr_elems
    ensures Usr(ts, g, sz[g[c][d] := SizeAt(sz, g[c][d]) + 1]) && Counts(ts, ld)
  {
    hide Flatten, NoDup, SumOf, SizeAt, Rungs, Counts;
    CountDown(q, ts, ld, c);
    UsrGrown(ts, g, sz, c, d);
  }

  /** The ripple of an element that went into a known slab: refreshes extrema from p on, and counts
      from q on. */
  method RippleKnown(l: Layer, p: Subslab, q: Subslab, ghost h: nat, ghost a: nat, ghost b: nat, ghost c: nat, ghost d: nat, ghost ss: seq<Slab>, ghost sz: map<Slab, nat>, ghost ld: Deep)
    requires Flatten(l.kids) == ss && NoDup(ss)
    requires a < |l.kids| && b < |l.kids[a]| && h - 1 <= a <= h + 1 && c < |l.kids| && d < |l.kids[c]| && h - 1 <= c <= h + 1
    requires Stale(l, ss, l.kids[a][b], l.kids[c][d]) && h < |l.subs| && p == l.subs[h] && q == l.subs[c]
    requires Usr(l.subs, l.kids, sz) && SizesOf(ss) == sz[l.kids[c][d] := SizeAt(sz, l.kids[c][d]) + 1]
    requires DeepOk(l.subs, ld)
    modifies l.subs`ss_min, l.subs`ss_max, l.subs`ss_usr_elems, ld.all`ss_min, ld.all`ss_max, ld.all`ss_usr_elems
    ensures TopIndex(l, ss) && DeepOk(l.subs, ld)
  {
    hide Flatten, NoDup, ExtAt, Below, SubDistinct, SubLinked, SubData, SumOf, ExtBut, GroupsOk, SizeAt, SizesOf, Usr, Ext;
    hide Rungs, Exts, ExtsFrom, Counts, Shape, Trail;
    ghost var g, ts := l.kids, l.subs;
    ExtWindow(ts, g, ss, h, a, b, c, d);
    RungsShape(ts, ld);
    ghost var hh := TrailFrom(ts, ld, h);
    TrailLength(ts, ld, hh);
    ExtsAsFrom(ts, ld, hh);
    RippleUpdateExtrema(l, p, ss, ld, hh);
    CountOne(q, ts, g, sz, c, d, ld);
  }

  /** The holder of the m-th slab of the groups. */
  lemma {:induction false} HolderOf(l: Layer, ss: seq<Slab>, m: nat) returns (a: nat, b: nat)
    requires l.Chain() && Below(l.subs, l.kids, ss) && m < |Flatten(l.kids)|
    ensures a < |l.kids| == |l.subs| && b < |l.kids[a]| && l.kids[a][b] == Flatten(l.kids)[m] && Spot(l.kids, a, b) == m
    ensures l.kids[a][b] in ss && l.kids[a][b].s_below == l.subs[a]
  {
    hide Flatten;
    a, b := Locate(l.kids, m);
  }

  lemma NoneEmpty<T>(g: seq<seq<T>>)
    requires GroupsOk(g)
    ensures forall k :: 0 <= k < |g| ==> g[k] != []
  {
  }

  /** ripple_ai, ripple_aa, ripple_ab, ripple_aisn and ripple_aisp, as the way of adding asks for. */
  method RippleInPlace(how: How, sl: List, l: Layer, s: Slab, ghost m: nat, ghost c: nat, ghost sz: map<Slab, nat>, ghost ld: Deep)
    requires sl.Top() && how != Edup && m < |sl.slabs| && s == sl.slabs[m] && c == Recipient(how, m, false) < |sl.slabs|
    requires Flatten(l.kids) == sl.slabs && NoDup(sl.slabs) && Stale(l, sl.slabs, s, sl.slabs[c])
    requires Usr(l.subs, l.kids, sz) && SizesOf(sl.slabs) == sz[sl.slabs[c] := SizeAt(sz, sl.slabs[c]) + 1]
    requires DeepOk(l.subs, ld)
    modifies l.subs`ss_min, l.subs`ss_max, l.subs`ss_usr_elems, ld.all`ss_min, ld.all`ss_max, ld.all`ss_usr_elems
    ensures TopIndex(l, sl.slabs) && DeepOk(l.subs, ld)
  {
    hide Distinct, Linked, Data, Flatten, NoDup, SumOf, ExtBut, GroupsOk, SizeAt, SizesOf, Usr, Below, TopIndex, Slab.Holds, DeepOk;
    ghost var a, b := HolderOf(l, sl.slabs, m);
    ghost var i, k := HolderOf(l, sl.slabs, c);
    NoneEmpty(l.kids);
    HoldersNear(l.kids, m, a, b, c, i, k);
    Neighbours(sl, m);
    match how
    case Into =>
      RippleKnown(l, s.s_below, s.s_below, a, a, b, i, k, sl.slabs, sz, ld);
    case After =>
      RippleKnown(l, s.s_below, s.s_next.s_below, a, a, b, i, k, sl.slabs, sz, ld);
    case Before =>
      RippleKnown(l, s.s_below, s.s_prev.s_below, a, a, b, i, k, sl.slabs, sz, ld);
    case SpNx =>
      RippleKnown(l, s.s_next.s_below, s.s_next.s_below, i, a, b, i, k, sl.slabs, sz, ld);
    case SpPv =>
      RippleKnown(l, s.s_prev.s_below, s.s_prev.s_below, i, a, b, i, k, sl.slabs, sz, ld);
  }

  /** The status ripple_common computes tells where the new slab goes in the group. */
  lemma {:induction false} StatusOfNew(t: Subslab, ks: seq<Slab>, n: Slab, ss: seq<Slab>, d: nat)
    requires ks != [] && ExtAt(t, ks, ss) && Ordered(ks) && d <= |ks| && n.s_min <= n.s_max
    requires forall k :: 0 <= k < d ==> ks[k].s_max < n.s_min
    requires forall k :: d <= k < |ks| ==> n.s_max < ks[k].s_min
    ensures Bnd(n.s_min, t.ss_min, t.ss_max) == if d == 0 then FS_UNDER_RANGE else if d == |ks| then FS_OVER_RANGE else FS_IN_RANGE
  {
    if d < |ks| - 1 {
      assert ks[d].s_max < ks[|ks| - 1].s_min;
    }
  }

  lemma {:induction false} PlacedApart(g: seq<seq<Slab>>, j: nat, d: nat, n: Slab, ss: seq<Slab>)
    requires Placed(g, j, d, n, ss)
    ensures n.s_min <= n.s_max && Ordered(g[j])
    ensures forall k :: 0 <= k < d ==> g[j][k].s_max < n.s_min
    ensures forall k :: d <= k < |g[j]| ==> n.s_max < g[j][k].s_min
  {
    hide Flatten, InsertAt, Spot;
    GroupOrdered(g, j, d, n, ss, j);
    forall b | 0 <= b < |g[j]| {
      StandsAt(g, j, d, n, ss, j, b);
    }
    assert ss[Spot(g, j, d)] == n by {
      InsertAtMembers(Flatten(g), Spot(g, j, d), n);
    }
  }

  /** Sizes of the whole chain are sizes of its groups. */
  lemma {:induction false} GroupsSized(ts: seq<Subslab>, g: seq<seq<Slab>>, ss: seq<Slab>, sz: map<Slab, nat>, n: Slab)
    requires Below(ts, g, ss) && Absent(g, n) && SizesOf(ss) == sz[n := 1]
    ensures Sized(g, ss, sz)
  {
    forall j, k | 0 <= j < |g| && 0 <= k < |g[j]| ensures g[j][k].s_elems == SizeAt(sz, g[j][k]) {
      assert g[j][k] in ss && g[j][k] in SizesOf(ss);
    }
  }

  /** Everything ripple_common needs to know before it adds the new slab n to the index. */
  lemma {:induction false} ReadyForNew(l: Layer, ss: seq<Slab>, n: Slab, at: nat, a: nat, d: nat, sz: map<Slab, nat>)
    requires l.Chain() && Below(l.subs, l.kids, ss) && Ext(l.subs, l.kids, ss) && GroupsOk(l.kids)
    requires NoDup(ss) && Ordered(ss) && at <= |Flatten(l.kids)| && ss == InsertAt(Flatten(l.kids), at, n)
    requires a < |l.kids| && d <= |l.kids[a]| && Spot(l.kids, a, d) == at
    requires Usr(l.subs, l.kids, sz) && n !in sz && SizesOf(ss) == sz[n := 1]
    ensures Pending(l, n, ss, sz, a, d)
    ensures Bnd(n.s_min, l.subs[a].ss_min, l.subs[a].ss_max)
         == if d == 0 then FS_UNDER_RANGE else if d == |l.kids[a]| then FS_OVER_RANGE else FS_IN_RANGE
  {
    hide Flatten, InsertAt, Spot, Below, ExtAt, Ordered, NoDup, Usr, Sized, SumOf, Absent, SizesOf;
    PlacedAbsent(l.kids, a, d, n, ss);
    GroupsSized(l.subs, l.kids, ss, sz, n);
    PlacedApart(l.kids, a, d, n, ss);
    assert ExtAt(l.subs[a], l.kids[a], ss);
    StatusOfNew(l.subs[a], l.kids[a], n, ss, d);
  }

  /** The end of ripple_common: extrema once more, and the new element is counted. */
  method RippleAfter(l: Layer, p: Subslab, n: Slab, ghost at: nat, ghost ss: seq<Slab>, ghost sz: map<Slab, nat>, ghost ld: Deep, ghost hh: seq<nat>)
    requires Settled(l, ss, sz) && GroupsOk(l.kids) && Flatten(l.kids) == ss && NoDup(ss)
    requires at < |ss| && ss[at] == n && SizesOf(ss) == sz[n := 1] && n !in sz
    requires Rungs(l.subs, ld) && Counts(l.subs, ld) && ExtsFrom(l.subs, ld, hh, 0) && hh[0] < |l.subs| && l.subs[hh[0]] == p
    modifies l.subs`ss_min, l.subs`ss_max, l.subs`ss_usr_elems, ld.all`ss_min, ld.all`ss_max, ld.all`ss_usr_elems
    ensures TopIndex(l, ss) && l.subs == old(l.subs) && DeepOk(l.subs, ld)
  {
    hide Flatten, NoDup, SumOf, GroupsOk, SizesOf, Usr, Below, ExtAt, SubLinked, SubData, SubDistinct;
    hide Rungs, Exts, ExtsFrom, Counts;
    RippleUpdateExtrema(l, p, ss, ld, hh);
    ghost var c, d := HolderOf(l, ss, at);
    CountOne(n.s_below, l.subs, l.kids, sz, c, d, ld);
  }

  /** The chain of slabs and the index, which lacks slab n at position at of the chain. */
  ghost predicate Lacks(l: Layer, ss: seq<Slab>, n: Slab, at: nat, sz: map<Slab, nat>)
    reads l, l.subs`ss_next, l.subs`ss_prev, l.subs`ss_elems, set t <- l.subs :: t.ss_slabs
    reads l.subs`ss_usr_elems
    reads ss`s_below, ss`s_elems, ss`s_min, ss`s_max
  {
    && l.Chain() && Below(l.subs, l.kids, ss) && GroupsOk(l.kids)
    && NoDup(ss) && Ordered(ss) && at <= |Flatten(l.kids)| && ss == InsertAt(Flatten(l.kids), at, n)
    && Usr(l.subs, l.kids, sz) && n !in sz && SizesOf(ss) == sz[n := 1]
  }

  /** The start of ripple_common: extrema around the holder of slab m. */
  method RippleBefore(l: Layer, p: Subslab, n: Slab, ghost m: nat, ghost at: nat, ghost ss: seq<Slab>, ghost sz: map<Slab, nat>, ghost ld: Deep)
    returns (ghost a: nat, ghost d: nat, ghost hh: seq<nat>)
    requires Lacks(l, ss, n, at, sz) && m < |Flatten(l.kids)| && m <= at <= m + 1 && p == Flatten(l.kids)[m].s_below
    requires ExtBut(l.subs, l.kids, ss, Flatten(l.kids)[m], Flatten(l.kids)[m]) && DeepOk(l.subs, ld)
    modifies l.subs`ss_min, l.subs`ss_max, ld.all`ss_min, ld.all`ss_max
    ensures Lacks(l, ss, n, at, sz) && Ext(l.subs, l.kids, ss) && DeepOk(l.subs, ld)
    ensures a < |l.kids| == |l.subs| && d <= |l.kids[a]| && Spot(l.kids, a, d) == at && p == l.subs[a]
    ensures Trail(l.subs, ld, hh) && hh[0] == a
  {
    hide Flatten, NoDup, SumOf, ExtBut, GroupsOk, SizesOf, Usr, Below, Ordered, InsertAt, Spot, Ext, ExtAt;
    hide Rungs, Exts, ExtsFrom, Counts, Shape, Trail;
    ghost var b;
    a, b := HolderOf(l, ss, m);
    d := if at == m then b else b + 1;
    NoDupRest(Flatten(l.kids), at, n);
    SpotStep(l.kids, a, b);
    ExtWindow(l.subs, l.kids, ss, a, a, b, a, b);
    RungsShape(l.subs, ld);
    hh := TrailFrom(l.subs, ld, a);
    TrailLength(l.subs, ld, hh);
    ExtsAsFrom(l.subs, ld, hh);
    RippleUpdateExtrema(l, p, ss, ld, hh);
  }

  lemma {:induction false} LacksReady(l: Layer, ss: seq<Slab>, n: Slab, at: nat, sz: map<Slab, nat>, a: nat, d: nat)
    requires Lacks(l, ss, n, at, sz) && Ext(l.subs, l.kids, ss)
    requires a < |l.kids| && d <= |l.kids[a]| && Spot(l.kids, a, d) == at
    ensures Pending(l, n, ss, sz, a, d) && GroupsOk(l.kids) && a < |l.subs|
    ensures Bnd(n.s_min, l.subs[a].ss_min, l.subs[a].ss_max)
         == if d == 0 then FS_UNDER_RANGE else if d == |l.kids[a]| then FS_OVER_RANGE else FS_IN_RANGE
    ensures Flatten(SubAdd(l.kids, a, d, n)) == ss && GroupsOk(SubAdd(l.kids, a, d, n)) && |SubAdd(l.kids, a, d, n)| <= |l.subs| + 1
    ensures at < |ss| && ss[at] == n && NoDup(ss) && n !in sz && SizesOf(ss) == sz[n := 1] && Ordered(ss)
  {
    hide Flatten, NoDup, SumOf, GroupsOk, SizesOf, Usr, Below, Ordered, InsertAt, Ext, Pending;
    ReadyForNew(l, ss, n, at, a, d, sz);
    SubAddFlat(l.kids, a, d, n);
    SubAddSizes(l.kids, a, d, n);
    NoDupRest(Flatten(l.kids), at, n);
  }

  /** The chain of the first sublayer with the new subslab nt. */
  lemma {:induction false} NewInChain(l: Layer, ss: seq<Slab>, sz: map<Slab, nat>, us: seq<Subslab>, at: nat, nt: Subslab, all: set<Subslab>)
    requires Settled(l, ss, sz) && GroupsOk(l.kids) && Flatten(l.kids) == ss && Ordered(ss)
    requires at <= |us| && l.subs == InsertAt(us, at, nt) && nt !in all && forall t :: t in all ==> t !in us
    ensures SubDistinct(l.subs) && OrderedSubs(l.subs) && forall t :: t in all ==> t !in l.subs
    ensures forall k :: 0 <= k < |l.subs| ==> l.subs[k] in us || l.subs[k] == nt
  {
    hide Flatten, SubDistinct, Ordered, OrderedSubs, GroupsOk, Below, InsertAt;
    TopOrderedSubs(l, ss);
    InsertAtMembers(us, at, nt);
  }

  lemma NewWhenFull<T>(g: seq<seq<T>>, j: nat, d: nat, n: T)
    requires GroupsOk(g) && j < |g| && d <= |g[j]| && |SubAdd(g, j, d, n)| > |g|
    ensures |g[j]| == SUBELEM_MAX
  {
  }

  lemma HolderDeep(us: seq<Subslab>, d: Deep, hh: seq<nat>)
    requires Rungs(us, d) && Trail(us, d, hh)
    ensures |hh| > 0 && hh[0] < |us| && (us[hh[0]].ss_below != null ==> us[hh[0]].ss_below in d.all)
  {
    hide Rungs, Trail;
    RungsShape(us, d);
    NoneBelow(us, d, hh);
    if |d.cs| > 0 {
      InAll(us, d, 0);
    }
    TrailLength(us, d, hh);
  }

  /** The middle of ripple_common: n is added to the first sublayer, and the new subslab that it may have
      taken to the second, whose subslab has room. */
  method AddToSublayers(status: int, l: Layer, p: Subslab, n: Slab, ghost a: nat, ghost d: nat, ghost ss: seq<Slab>, ghost sz: map<Slab, nat>,
    ghost ld: Deep, ghost h0: seq<nat>)
    returns (ghost e: Deep, ghost hh: seq<nat>)
    requires Pending(l, n, ss, sz, a, d) && GroupsOk(l.kids) && a < |l.subs| && p == l.subs[a]
    requires status == if d == 0 then FS_UNDER_RANGE else if d == |l.kids[a]| then FS_OVER_RANGE else FS_IN_RANGE
    requires Flatten(SubAdd(l.kids, a, d, n)) == ss && GroupsOk(SubAdd(l.kids, a, d, n)) && |SubAdd(l.kids, a, d, n)| <= |l.subs| + 1
    requires Ordered(ss) && DeepOk(l.subs, ld) && Trail(l.subs, ld, h0) && h0[0] == a
    requires RoomUnder(p)
    modifies l`subs, l`kids, l`sl_slabs, l`sl_head, l.subs`ss_next, l.subs`ss_prev, l.subs`ss_min, l.subs`ss_max
    modifies l.subs`ss_elems, l.subs`ss_usr_elems, (set x <- l.subs :: x.ss_slabs), ss`s_below
    modifies ld.all`ss_min, ld.all`ss_max, ld.all`ss_usr_elems, ld.all`ss_elems, set x <- ld.all :: x.ss_subs
    ensures Settled(l, ss, sz) && GroupsOk(l.kids) && Flatten(l.kids) == ss && |l.subs| <= |old(l.subs)| + 1
    ensures forall k :: 0 <= k < |l.subs| ==> l.subs[k] in old(l.subs) || fresh({l.subs[k], l.subs[k].ss_slabs, l.subs[k].ss_subs})
    ensures Rungs(l.subs, e) && Counts(l.subs, e) && ExtsFrom(l.subs, e, hh, 0) && hh[0] < |l.subs| && l.subs[hh[0]] == p && SameBut(ld, e)
  {
    hide Flatten, Pending, Settled, SubAdd, GroupsOk, Ext, Ordered;
    hide DeepOk, Rungs, Exts, ExtsFrom, Counts, CountMap, Sums, Untouched, Trail, SubDistinct, OrderedSubs, InsertAt, SizeAt;
    ghost var us := l.subs;
    DeepParts(us, ld);
    CountsSums(us, ld);
    CountAt(us, ld);
    RungsApart(us, ld);
    assert p in us;
    ghost var cnt := CountMap(us, ld);
    e, hh := ld, h0;
    TrailLength(us, ld, h0);
    HolderDeep(us, ld, h0);
    PendingAt(l, n, ss, sz, a, d);
    ghost var g := l.kids;
    var nt := GenAddTop(status, l, p, n, a, d, ss, sz, ld, cnt, hh);
    if nt != null {
      NewWhenFull(g, a, d, n);
      NewInChain(l, ss, sz, us, if d == 0 then a else a + 1, nt, ld.all);
      e, hh := CarryBelow(p, nt, us, l.subs, ld, hh, if d == 0 then a else a + 1, cnt);
    }
  }

  /** ripple_common: the new slab n of the chain is added to the index. The loop that carries new
      subslabs down ends with the second sublayer. */
  method RippleCommon(l: Layer, n: Slab, ghost m: nat, ghost at: nat, ghost ss: seq<Slab>, ghost sz: map<Slab, nat>, ghost ld: Deep)
    returns (ghost e: Deep)
    requires Lacks(l, ss, n, at, sz) && m < |Flatten(l.kids)| && m <= at <= m + 1
    requires n.s_below == Flatten(l.kids)[m].s_below != null
    requires ExtBut(l.subs, l.kids, ss, Flatten(l.kids)[m], Flatten(l.kids)[m])
    requires DeepOk(l.subs, ld) && RoomBelow(n)
    modifies l`subs, l`kids, l`sl_slabs, l`sl_head, l.subs`ss_next, l.subs`ss_prev, l.subs`ss_min, l.subs`ss_max
    modifies l.subs`ss_elems, l.subs`ss_usr_elems, (set x <- l.subs :: x.ss_slabs), ss`s_below
    modifies ld.all`ss_min, ld.all`ss_max, ld.all`ss_usr_elems, ld.all`ss_elems, set x <- ld.all :: x.ss_subs
    ensures TopIndex(l, ss) && |l.subs| <= |old(l.subs)| + 1
    ensures forall k :: 0 <= k < |l.subs| ==> l.subs[k] in old(l.subs) || fresh({l.subs[k], l.subs[k].ss_slabs, l.subs[k].ss_subs})
    ensures DeepOk(l.subs, e) && SameBut(ld, e)
  {
    hide Flatten, NoDup, Lacks, Pending, Settled, SubAdd, GroupsOk, Ext, ExtBut, Spot, SizesOf, TopIndex, Ordered;
    hide DeepOk, Rungs, ExtsFrom, Counts, Trail;
    var p := n.s_below;
    ghost var a, d, h0 := RippleBefore(l, p, n, m, at, ss, sz, ld);
    LacksReady(l, ss, n, at, sz, a, d);
    var status := Bnd(n.s_min, p.ss_min, p.ss_max);
    ghost var hh;
    e, hh := AddToSublayers(status, l, p, n, a, d, ss, sz, ld, h0);
    RippleAfter(l, p, n, at, ss, sz, e, hh);
  }

  /** The extrema of the subslabs are those of the blocks v of the chain. */
  ghost predicate ExtView(ts: seq<Subslab>, g: seq<seq<Slab>>, v: Blocks)
    reads ts`ss_min, ts`ss_max
  {
    |g| == |ts| && |Flatten(g)| == |v| && forall j :: 0 <= j < |ts| && g[j] != [] ==> ViewAt(ts[j], g, v, j)
  }

  ghost predicate ViewAt(t: Subslab, g: seq<seq<Slab>>, v: Blocks, j: nat)
    requires j < |g| && g[j] != []
    reads t`ss_min, t`ss_max
  {
    var i := Spot(g, j, 0);
    var k := Spot(g, j, |g[j]| - 1);
    i < |v| && k < |v| && v[i] != [] && v[k] != [] && t.ss_min == v[i][0] && t.ss_max == Last(v[k])
  }

  /** The index of the chain ss whose blocks are v and whose sizes are sz: what it says stays said
      while only the slabs change. */
  ghost predicate Held(l: Layer, ss: seq<Slab>, v: Blocks, sz: map<Slab, nat>)
    reads l, l.subs`ss_next, l.subs`ss_prev, l.subs`ss_elems, set t <- l.subs :: t.ss_slabs
    reads l.subs`ss_usr_elems, l.subs`ss_min, l.subs`ss_max, ss`s_below
  {
    && l.Chain() && Below(l.subs, l.kids, ss) && GroupsOk(l.kids) && Flatten(l.kids) == ss
    && ExtView(l.subs, l.kids, v) && Usr(l.subs, l.kids, sz) && SizesAre(sz, ss, v)
  }

  lemma {:induction false} IndexHeld(l: Layer, ss: seq<Slab>, v: Blocks)
    requires TopIndex(l, ss) && Cached(ss, v)
    ensures Held(l, ss, v, SizesOf(ss))
  {
    hide Flatten, Usr, Below, SizesAre, SizesOf, SubDistinct, SubLinked, SubData, Spot;
    CachedSizes(ss, v);
    var g, ts := l.kids, l.subs;
    forall j | 0 <= j < |ts| && g[j] != [] ensures ViewAt(ts[j], g, v, j) {
      EndsAt(g, j);
      assert ExtAt(ts[j], g[j], ss);
    }
  }

  /** When only the blocks of x and y have changed, only their holders have stale extrema. */
  lemma {:induction false} ExtKept(ts: seq<Subslab>, g: seq<seq<Slab>>, v: Blocks, us: seq<Slab>, x: Slab, y: Slab)
    requires ExtView(ts, g, v)
    requires forall k :: 0 <= k < |v| && v[k] != [] && Flatten(g)[k] != x && Flatten(g)[k] != y ==>
      Flatten(g)[k] in us && Flatten(g)[k].s_min == v[k][0] && Flatten(g)[k].s_max == Last(v[k])
    ensures ExtBut(ts, g, us, x, y)
  {
    hide Flatten, Spot;
    forall j | 0 <= j < |ts| && x !in g[j] && y !in g[j] ensures ExtAt(ts[j], g[j], us) {
      if g[j] != [] {
        EndsAt(g, j);
        assert g[j][0] in g[j] && g[j][|g[j]| - 1] in g[j] && ViewAt(ts[j], g, v, j);
      }
    }
  }

  /** What the top layer changed, in the terms of the index: an element went into a known slab. */
  lemma {:induction false} ChangedInPlace(l: Layer, ss: seq<Slab>, v: Blocks, w: Blocks, m: nat, c: nat, sz: map<Slab, nat>)
    requires l.Chain() && Below(l.subs, l.kids, ss) && GroupsOk(l.kids) && Flatten(l.kids) == ss
    requires ExtView(l.subs, l.kids, v) && SizesAre(sz, ss, v) && Cached(ss, w) && Gains(v, w, c, m) && NoDup(ss)
    ensures m < |ss| && c < |ss| && Stale(l, ss, ss[m], ss[c])
    ensures SizesOf(ss) == sz[ss[c] := SizeAt(sz, ss[c]) + 1]
  {
    hide Flatten, NoDup, Below, SizesAre, SubDistinct, SubLinked, SubData, ExtView, SizesOf;
    CachedSizes(ss, w);
    SizesInPlace(sz, SizesOf(ss), ss, v, w, c, m);
    assert |ss| == |v| by {
      CachedLength(ss, w);
    }
    forall k | 0 <= k < |v| && v[k] != [] && ss[k] != ss[m] && ss[k] != ss[c]
      ensures ss[k] in ss && ss[k].s_min == v[k][0] && ss[k].s_max == Last(v[k])
    {
      assert v[k] == w[k];
    }
    ExtKept(l.subs, l.kids, v, ss, ss[m], ss[c]);
  }

  lemma CachedLength(ss: seq<Slab>, v: Blocks)
    requires Cached(ss, v)
    ensures |ss| == |v|
  {
  }

  lemma BelowWith(ts: seq<Subslab>, g: seq<seq<Slab>>, ss: seq<Slab>, us: seq<Slab>)
    requires Below(ts, g, ss) && forall s :: s in ss ==> s in us
    ensures Below(ts, g, us)
  {
  }

  /** Blocks of known slabs when a new slab has come in at index at. */
  lemma {:induction false} KnownBlocks(ss: seq<Slab>, n: Slab, at: nat, v: Blocks, w: Blocks, m: nat, o: nat)
    requires at <= |ss| == |v| && Cached(InsertAt(ss, at, n), w) && Gains(InsertAt(v, at, []), w, at, o)
    requires m < |ss| && o == if at <= m then m + 1 else m
    ensures forall k :: 0 <= k < |v| && v[k] != [] && ss[k] != ss[m] ==>
      ss[k] in InsertAt(ss, at, n) && ss[k].s_min == v[k][0] && ss[k].s_max == Last(v[k])
  {
    var us, u := InsertAt(ss, at, n), InsertAt(v, at, []);
    forall k | 0 <= k < |v| && v[k] != [] && ss[k] != ss[m]
      ensures ss[k] in us && ss[k].s_min == v[k][0] && ss[k].s_max == Last(v[k])
    {
      var i := if k < at then k else k + 1;
      assert us[i] == ss[k] && u[i] == v[k] && i != at && i != o;
      assert w[i] == u[i];
    }
  }

  /** What the top layer changed, in the terms of the index: a new slab came in. */
  lemma {:induction false} ChangedWithNew(l: Layer, ss: seq<Slab>, n: Slab, at: nat, v: Blocks, w: Blocks, m: nat, o: nat, sz: map<Slab, nat>)
    requires l.Chain() && Below(l.subs, l.kids, ss) && GroupsOk(l.kids) && Flatten(l.kids) == ss
    requires ExtView(l.subs, l.kids, v) && Usr(l.subs, l.kids, sz) && SizesAre(sz, ss, v)
    requires at <= |ss| && Cached(InsertAt(ss, at, n), w) && n !in ss
    requires Gains(InsertAt(v, at, []), w, at, o) && m < |ss| && o == if at <= m then m + 1 else m
    requires NoDup(InsertAt(ss, at, n)) && Ordered(InsertAt(ss, at, n))
    ensures Lacks(l, InsertAt(ss, at, n), n, at, sz) && ExtBut(l.subs, l.kids, InsertAt(ss, at, n), ss[m], ss[m])
  {
    hide Flatten, NoDup, SumOf, Below, Gains, Cached, Ordered, InsertAt, ExtBut, SizesOf, Usr, ExtView, SubDistinct, SubLinked, SubData, GroupsOk;
    var us := InsertAt(ss, at, n);
    CachedSizes(us, w);
    SizesWithNew(sz, SizesOf(us), ss, v, w, n, at, o);
    KnownBlocks(ss, n, at, v, w, m, o);
    ExtKept(l.subs, l.kids, v, us, ss[m], ss[m]);
    InsertedMembers(ss, at, n);
    BelowWith(l.subs, l.kids, ss, us);
  }

  lemma {:induction false} SizesUnique(s0: map<Slab, nat>, s1: map<Slab, nat>, ss: seq<Slab>, v: Blocks)
    requires SizesAre(s0, ss, v) && SizesAre(s1, ss, v)
    ensures s0 == s1
  {
    forall s | s in s0 ensures s in s1 && s0[s] == s1[s] {
      var k :| 0 <= k < |ss| && ss[k] == s;
    }
  }

  /** Nothing changed: the index is as it was. */
  lemma {:induction false} ChangedNothing(l: Layer, ss: seq<Slab>, v: Blocks, sz: map<Slab, nat>)
    requires Held(l, ss, v, sz) && Cached(ss, v)
    ensures TopIndex(l, ss)
  {
    hide Flatten, Below, SizesAre, SizesOf, Usr, SubDistinct, SubLinked, SubData, Spot;
    CachedSizes(ss, v);
    SizesUnique(sz, SizesOf(ss), ss, v);
    var g, ts := l.kids, l.subs;
    forall j | 0 <= j < |ts| ensures ExtAt(ts[j], g[j], ss) {
      if g[j] != [] {
        EndsAt(g, j);
        assert ViewAt(ts[j], g, v, j);
      }
    }
  }

  /** The element is in the chain; carries the change down when no slab was made. */
  method CarryInPlace(how: How, sl: List, l: Layer, s: Slab, ghost m: nat, ghost at: nat, ghost v: Blocks, ghost sz: map<Slab, nat>, ghost ld: Deep)
    requires sl.Top() && Held(l, sl.slabs, v, sz) && Cached(sl.slabs, sl.view) && NoDup(sl.slabs)
    requires how != Edup && HowView(v, sl.view, m, how, false, at) && m < |sl.slabs| && s == sl.slabs[m]
    requires DeepOk(l.subs, ld)
    modifies l.subs`ss_min, l.subs`ss_max, l.subs`ss_usr_elems, ld.all`ss_min, ld.all`ss_max, ld.all`ss_usr_elems
    ensures TopIndex(l, sl.slabs) && DeepOk(l.subs, ld)
  {
    hide Distinct, Linked, Data, Flatten, Cached, ExtView, Usr, SizesAre, Below, GroupsOk, SizesOf;
    hide SubDistinct, SubLinked, SubData, TopIndex, Stale, NoDup, HowView, Gains, DeepOk;
    ghost var c := GainedInPlace(v, sl.view, m, how, at);
    ChangedInPlace(l, sl.slabs, v, sl.view, m, c, sz);
    RippleInPlace(how, sl, l, s, m, c, sz, ld);
  }

  /** The element is in the chain; carries the change down when slab n was made. */
  method CarryNew(how: How, l: Layer, n: Slab, ghost m: nat, ghost at: nat, ghost ss: seq<Slab>, ghost v: Blocks, ghost w: Blocks, ghost sz: map<Slab, nat>, ghost ld: Deep)
    returns (ghost e: Deep)
    requires Held(l, ss, v, sz) && n !in ss && m < |ss| && n.s_below == ss[m].s_below
    requires at <= |ss| && Cached(InsertAt(ss, at, n), w) && NoDup(InsertAt(ss, at, n)) && Ordered(InsertAt(ss, at, n))
    requires how in {SpNx, Before, After} && at == (if how == Before then m else m + 1) && HowView(v, w, m, how, true, at)
    requires DeepOk(l.subs, ld) && RoomBelow(n)
    modifies l`subs, l`kids, l`sl_slabs, l`sl_head, l.subs`ss_next, l.subs`ss_prev, l.subs`ss_min, l.subs`ss_max
    modifies l.subs`ss_elems, l.subs`ss_usr_elems, (set x <- l.subs :: x.ss_slabs), InsertAt(ss, at, n)`s_below
    modifies ld.all`ss_min, ld.all`ss_max, ld.all`ss_usr_elems, ld.all`ss_elems, set x <- ld.all :: x.ss_subs
    ensures TopIndex(l, InsertAt(ss, at, n)) && |l.subs| <= |old(l.subs)| + 1
    ensures forall k :: 0 <= k < |l.subs| ==> l.subs[k] in old(l.subs) || fresh({l.subs[k], l.subs[k].ss_slabs, l.subs[k].ss_subs})
    ensures DeepOk(l.subs, e) && SameBut(ld, e)
  {
    hide Flatten, InsertAt, HowView, Cached, ExtView, Usr, SizesAre, Below, GroupsOk, SizesOf, Gains;
    hide SubDistinct, SubLinked, SubData, TopIndex, Lacks, ExtBut, NoDup, Ordered, DeepOk;
    GainedWithNew(v, w, m, how, at);
    ghost var a, b := HolderOf(l, ss, m);
    ChangedWithNew(l, ss, n, at, v, w, m, if at <= m then m + 1 else m, sz);
    e := RippleCommon(l, n, m, at, InsertAt(ss, at, n), sz, ld);
  }

  /** slab_gen_add, with what it leaves behind in the slabs. */
  method AddOnTop(status: int, sl: List, elem: int, s: Slab, ghost m: nat) returns (how: How, ns: Slab?, ghost at: nat)
    requires sl.Top() && sl.sl_sorted && SortedBlocks(sl.view)
    requires m == ScanIndex(sl.view, elem) && s == sl.slabs[m] && status == ScanStatus(sl.view, elem)
    modifies sl`view, sl`slabs, sl`sl_slabs, sl`sl_head, sl`sl_end, sl.slabs`s_next, sl.slabs`s_prev
    modifies sl.slabs`s_min, sl.slabs`s_max, sl.slabs`s_elems, set x <- sl.slabs :: x.s_arr
    ensures sl.Top() && sl.view == GenAdd(old(sl.view), elem)
    ensures how == Edup <==> elem in Flatten(old(sl.view))
    ensures how == Edup ==> ns == null && sl.view == old(sl.view)
    ensures how != Edup ==> HowView(old(sl.view), sl.view, m, how, ns != null, at)
    ensures ns == null ==> sl.slabs == old(sl.slabs)
    ensures ns != null ==> at <= |old(sl.slabs)| && sl.slabs == InsertAt<Slab>(old(sl.slabs), at, ns) && fresh(ns) && fresh(ns.s_arr)
    ensures ns != null ==> how in {SpNx, Before, After} && at == (if how == Before then m else m + 1) && ns.s_below == s.s_below
    ensures Cached(sl.slabs, sl.view) && NoDup(sl.slabs) && Ordered(sl.slabs)
    ensures forall k :: 0 <= k < |sl.slabs| ==> sl.slabs[k] in old(sl.slabs) || fresh({sl.slabs[k], sl.slabs[k].s_arr})
  {
    hide Distinct, Linked, Data, Flatten, StrictlySorted, InsertAt, HowView, Cached, GenAdd, NoDup, Ordered, SizesOk;
    GenAddCorrect(sl.view, elem);
    how, ns, at := SlabGenAdd(status, sl, elem, s, m);
    TopCached(sl);
    TopNoDup(sl);
    TopOrdered(sl);
  }

  /** The ripple that slab_gen_add ends in. */
  method CarryDown(how: How, sl: List, l: Layer, s: Slab, ns: Slab?, ghost m: nat, ghost at: nat, ghost ss: seq<Slab>, ghost v: Blocks,
    ghost sz: map<Slab, nat>, ghost ld: Deep)
    returns (ghost e: Deep)
    requires sl.Top() && Held(l, ss, v, sz) && DeepOk(l.subs, ld) && RoomBelow(s) && m < |ss| && s == ss[m]
    requires how == Edup ==> ns == null && sl.view == v
    requires how != Edup ==> HowView(v, sl.view, m, how, ns != null, at)
    requires ns == null ==> sl.slabs == ss
    requires ns != null ==> at <= |ss| && sl.slabs == InsertAt<Slab>(ss, at, ns) && ns !in ss
    requires ns != null ==> how in {SpNx, Before, After} && at == (if how == Before then m else m + 1) && ns.s_below == s.s_below
    requires Cached(sl.slabs, sl.view) && NoDup(sl.slabs) && Ordered(sl.slabs)
    modifies sl.slabs`s_below, l`subs, l`kids, l`sl_slabs, l`sl_head, l.subs`ss_next, l.subs`ss_prev, l.subs`ss_min, l.subs`ss_max
    modifies l.subs`ss_elems, l.subs`ss_usr_elems, set x <- l.subs :: x.ss_slabs
    modifies ld.all`ss_min, ld.all`ss_max, ld.all`ss_usr_elems, ld.all`ss_elems, set x <- ld.all :: x.ss_subs
    ensures TopIndex(l, sl.slabs) && |l.subs| <= |old(l.subs)| + 1 && DeepOk(l.subs, e) && SameBut(ld, e)
    ensures forall k :: 0 <= k < |l.subs| ==> l.subs[k] in old(l.subs) || fresh({l.subs[k], l.subs[k].ss_slabs, l.subs[k].ss_subs})
  {
    hide Distinct, Linked, Data, InsertAt, HowView, Cached, Held, TopIndex, NoDup, Ordered, DeepOk, RoomBelow, SameBut;
    e := ld;
    SameSelf(ld);
    if how == Edup {
      ChangedNothing(l, ss, v, sz);
    } else if ns == null {
      CarryInPlace(how, sl, l, s, m, at, v, sz, ld);
    } else {
      RoomSame(s, ns);
      e := CarryNew(how, l, ns, m, at, ss, v, sl.view, sz, ld);
    }
  }

  lemma SortedHas(v: Blocks)
    requires SortedBlocks(v)
    ensures SizesOk(v)
  {
  }

  lemma TopLength(sl: List)
    requires sl.Top()
    ensures |sl.slabs| == |sl.view|
  {
    hide Distinct, Linked;
  }

  /** slab_gen_add and the ripple it ends in, on a list with sublayers. */
  method AddWithIndex(status: int, sl: List, l: Layer, elem: int, s: Slab, ghost m: nat, ghost ld: Deep) returns (how: How, ghost e: Deep)
    requires sl.Top() && sl.sl_sorted && SortedBlocks(sl.view) && TopIndex(l, sl.slabs) && DeepOk(l.subs, ld)
    requires m == ScanIndex(sl.view, elem) && s == sl.slabs[m] && status == ScanStatus(sl.view, elem) && RoomBelow(s)
    modifies sl`view, sl`slabs, sl`sl_slabs, sl`sl_head, sl`sl_end, sl.slabs`s_next, sl.slabs`s_prev
    modifies sl.slabs`s_min, sl.slabs`s_max, sl.slabs`s_elems, sl.slabs`s_below, set x <- sl.slabs :: x.s_arr
    modifies l`subs, l`kids, l`sl_slabs, l`sl_head, l.subs`ss_next, l.subs`ss_prev, l.subs`ss_min, l.subs`ss_max
    modifies l.subs`ss_elems, l.subs`ss_usr_elems, set x <- l.subs :: x.ss_slabs
    modifies ld.all`ss_min, ld.all`ss_max, ld.all`ss_usr_elems, ld.all`ss_elems, set x <- ld.all :: x.ss_subs
    ensures sl.Top() && sl.view == GenAdd(old(sl.view), elem) && TopIndex(l, sl.slabs)
    ensures |l.subs| <= |old(l.subs)| + 1 && DeepOk(l.subs, e) && SameBut(ld, e)
    ensures forall k :: 0 <= k < |l.subs| ==> l.subs[k] in old(l.subs) || fresh({l.subs[k], l.subs[k].ss_slabs, l.subs[k].ss_subs})
    ensures forall k :: 0 <= k < |sl.slabs| ==> sl.slabs[k] in old(sl.slabs) || fresh({sl.slabs[k], sl.slabs[k].s_arr})
    ensures how == Edup <==> elem in Flatten(old(sl.view))
  {
    hide *;
    ghost var v, ss, sz := sl.view, sl.slabs, SizesOf(sl.slabs);
    SortedHas(v);
    TopLength(sl);
    TopCached(sl);
    IndexHeld(l, ss, v);
    ghost var at: nat;
    var ns: Slab?;
    how, ns, at := AddOnTop(status, sl, elem, s, m);
    e := CarryDown(how, sl, l, s, ns, m, at, ss, v, sz, ld);
  }

  lemma GainedInPlace(v: Blocks, w: Blocks, m: nat, how: How, at: nat) returns (c: nat)
    requires how != Edup && HowView(v, w, m, how, false, at)
    ensures c == Recipient(how, m, false) && Gains(v, w, c, m)
  {
    c := Recipient(how, m, false);
  }

  lemma GainedWithNew(v: Blocks, w: Blocks, m: nat, how: How, at: nat)
    requires how in {SpNx, Before, After} && at == (if how == Before then m else m + 1) && HowView(v, w, m, how, true, at)
    ensures at <= |v| && Gains(InsertAt(v, at, []), w, at, if at <= m then m + 1 else m)
  {
  }
}
