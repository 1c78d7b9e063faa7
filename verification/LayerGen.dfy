/** slablist_add.c, the index layer: sub_gen_add_ira, sub_gen_add_ura, sub_gen_add_ora and
    subslab_gen_add. */
module LayerGen {
  import opened Seqs
  import opened SlabModel
  import opened Groups
  import opened AddModel
  import opened IndexModel
  import opened SlabCore
  import opened SubLayer
  import opened LayerLadder
  import opened LayerAdd
  import opened LayerPlace

  /** The index is right but for the new slab n, whose place is offset d of group j. */
  ghost predicate Pending(l: Layer, n: Slab, ss: seq<Slab>, sz: map<Slab, nat>, j: nat, d: nat)
    reads l, l.subs`ss_next, l.subs`ss_prev, l.subs`ss_elems, set t <- l.subs :: t.ss_slabs
    reads l.subs`ss_usr_elems, l.subs`ss_min, l.subs`ss_max
    reads ss`s_below, ss`s_elems, ss`s_min, ss`s_max
  {
    && l.Chain() && Below(l.subs, l.kids, ss) && Ext(l.subs, l.kids, ss) && NoDup(ss)
    && Placed(l.kids, j, d, n, ss) && Counted(l.subs, l.kids, n, ss, sz)
  }

  /** The pointers, extrema and counts of the index are right. */
  ghost predicate Settled(l: Layer, ss: seq<Slab>, sz: map<Slab, nat>)
    reads l, l.subs`ss_next, l.subs`ss_prev, l.subs`ss_elems, set t <- l.subs :: t.ss_slabs
    reads l.subs`ss_usr_elems, l.subs`ss_min, l.subs`ss_max
    reads ss`s_below, ss`s_min, ss`s_max
  {
    && l.Chain() && Below(l.subs, l.kids, ss) && Ext(l.subs, l.kids, ss)
    && Usr(l.subs, l.kids, sz)
  }

  /** Linking an empty subslab changes nothing about the slabs. */
  lemma {:induction false} EmptyGroup(ts: seq<Subslab>, g: seq<seq<Slab>>, k: nat, nt: Subslab, n: Slab, ss: seq<Slab>, sz: map<Slab, nat>)
    requires Counted(ts, g, n, ss, sz) && k <= |ts| == |g| && nt.ss_usr_elems == 0
    ensures Counted(InsertAt(ts, k, nt), InsertAt(g, k, []), n, ss, sz)
  {
    var us, h := InsertAt(ts, k, nt), InsertAt(g, k, []);
    assert forall i :: 0 <= i < |h| ==> h[i] == if i < k then g[i] else if i == k then [] else g[i - 1];
    assert forall i :: 0 <= i < |us| ==> us[i] == if i < k then ts[i] else if i == k then nt else ts[i - 1];
  }

  lemma {:induction false} PlacedAfterLink(g: seq<seq<Slab>>, j: nat, d: nat, n: Slab, ss: seq<Slab>)
    requires Placed(g, j, d, n, ss)
    ensures Placed(LinkAfter(g, j), j, d, n, ss)
  {
    LinkAfterParts(g, j);
    FlattenAt(g, j);
    FlattenAt(LinkAfter(g, j), j);
  }

  lemma PendingAt(l: Layer, n: Slab, ss: seq<Slab>, sz: map<Slab, nat>, j: nat, d: nat)
    requires Pending(l, n, ss, sz, j, d) && GroupsOk(l.kids)
    ensures j < |l.subs| == |l.kids| && l.subs[j].Kids(l.kids[j]) && d <= |l.kids[j]| == l.subs[j].ss_elems <= SUBELEM_MAX
    ensures Ordered(l.kids[j]) && Splits(l.kids[j], n.s_max, d)
    ensures l.subs[j].ss_next == if j + 1 < |l.subs| then l.subs[j + 1] else null
    ensures l.subs[j].ss_prev == if j > 0 then l.subs[j - 1] else null
    ensures j + 1 < |l.subs| ==> l.subs[j + 1].ss_elems == |l.kids[j + 1]| <= SUBELEM_MAX && l.subs[j + 1].Kids(l.kids[j + 1])
    ensures j > 0 ==> l.subs[j - 1].ss_elems == |l.kids[j - 1]| <= SUBELEM_MAX && l.subs[j - 1].Kids(l.kids[j - 1])
  {
    PlacedSplits(l.kids, j, d, n, ss);
    SubNeighbours(l, j);
  }

  lemma PendingIn(l: Layer, n: Slab, ss: seq<Slab>, sz: map<Slab, nat>, j: nat, d: nat)
    requires Pending(l, n, ss, sz, j, d)
    ensures j < |l.kids| == |l.subs|
    ensures l.subs[j].ss_next == if j + 1 < |l.subs| then l.subs[j + 1] else null
  {
    PlacedSplits(l.kids, j, d, n, ss);
    SubNeighbours(l, j);
  }

  lemma PendingPrev(l: Layer, n: Slab, ss: seq<Slab>, sz: map<Slab, nat>, j: nat)
    requires Pending(l, n, ss, sz, j, 0) && 0 < j && GroupsOk(l.kids)
    ensures j < |l.kids| && Ordered(l.kids[j - 1]) && Splits(l.kids[j - 1], n.s_max, |l.kids[j - 1]|)
  {
    PlacedPrev(l.kids, j, 0, n, ss);
  }

  lemma PendingNext(l: Layer, n: Slab, ss: seq<Slab>, sz: map<Slab, nat>, j: nat, d: nat)
    requires Pending(l, n, ss, sz, j, d) && j + 1 < |l.kids|
    ensures Ordered(l.kids[j + 1]) && Splits(l.kids[j + 1], n.s_max, 0)
  {
    PlacedNext(l.kids, j, d, n, ss);
  }

  /** add_slab of a slab that is not counted yet. */
  method PutHere(l: Layer, t: Subslab, n: Slab, i: nat, ghost k: nat, ghost j: nat, ghost d: nat, ghost ss: seq<Slab>, ghost sz: map<Slab, nat>)
    requires Pending(l, n, ss, sz, j, d) && k < |l.subs| && t == l.subs[k] && i <= |l.kids[k]| < SUBELEM_MAX
    modifies l`kids, l.subs`ss_min, l.subs`ss_max, l.subs`ss_elems
    modifies (set x <- l.subs :: x.ss_slabs), ss`s_below
    ensures Settled(l, ss, sz) && l.kids == old(l.kids)[k := InsertAt(old(l.kids)[k], i, n)]
  {
    hide SubDistinct, SubLinked, SubData, Below, Absent, InsertAt, SumOf, Ext, Sized, Placed, NoDup;
    ghost var ks := l.kids[k];
    PlacedAbsent(l.kids, j, d, n, ss);
    SumInsert(ks, i, n, sz);
    UsrUpdate(l.subs, l.kids, sz, k, InsertAt(ks, i, n));
    l.PutSlab(t, n, i, k, ss);
  }

  lemma RungsApart(us: seq<Subslab>, d: Deep)
    requires Rungs(us, d)
    ensures forall t :: t in d.all ==> t !in us
  {
    hide Rung, SubDistinct, NoneShared, Flatten, GroupsOk;
  }

  /** The ways down from two subslabs, for a count that is to move from one to the other. */
  lemma {:induction false} WaysReady(us: seq<Subslab>, d: Deep, a: nat, b: nat) returns (ha: seq<nat>, hb: seq<nat>, c: nat, ps: seq<Subslab>, qs: seq<Subslab>)
    requires Rungs(us, d) && Counts(us, d) && a < |us| && b < |us| && a != b
    ensures Trail(us, d, ha) && Trail(us, d, hb) && MeetsAt(ha, hb, c) && ps == PathOf(us, d, ha)[..c] && qs == PathOf(us, d, hb)[..c]
    ensures Meet(us[a], us[b], ps, qs) && OutOf(ps, qs, us)
    ensures forall i :: 0 <= i < |ps| ==> ps[i].ss_usr_elems >= us[a].ss_usr_elems
    ensures |ps| == |qs| > 0 && ps[0] == us[a] && qs[0] == us[b] && forall i :: 1 <= i < |ps| ==> ps[i] in d.all && qs[i] in d.all
  {
    hide Rungs, Counts, Trail, PathOf, Meet;
    ha, hb, c := WaysMeet(us, d, a, b);
    ps, qs := PathOf(us, d, ha)[..c], PathOf(us, d, hb)[..c];
    RungsApart(us, d);
    MeetEnds(us[a], us[b], ps, qs);
  }

  /** The counts after diff has moved along the ways from ps to qs. */
  lemma {:induction false} CountsMoved(us: seq<Subslab>, d: Deep, ha: seq<nat>, hb: seq<nat>, c: nat, ps: seq<Subslab>, qs: seq<Subslab>, diff: nat, c0: map<Subslab, nat>)
    requires Rungs(us, d) && Trail(us, d, ha) && Trail(us, d, hb) && MeetsAt(ha, hb, c)
    requires ps == PathOf(us, d, ha)[..c] && qs == PathOf(us, d, hb)[..c] && NoDup(ps + qs)
    requires forall i :: 0 <= i < |d.cs| ==> Sums(d.cs[i], d.gs[i], c0)
    requires forall k :: 0 <= k < |ps| ==> SizeAt(c0, ps[k]) >= diff && ps[k].ss_usr_elems == SizeAt(c0, ps[k]) - diff
    requires forall k :: 0 <= k < |qs| ==> qs[k].ss_usr_elems == SizeAt(c0, qs[k]) + diff
    requires forall t :: (t in us || t in d.all) && t !in ps && t !in qs ==> t.ss_usr_elems == SizeAt(c0, t)
    ensures Counts(us, d)
  {
    hide Rungs, Counts, Sums, PathOf, SizeAt;
    forall t | t in us || t in d.all
      ensures t.ss_usr_elems == SizeAt(c0, t) - (if t in ps then diff else 0) + (if t in qs then diff else 0)
    {
      if t in ps {
        var k :| 0 <= k < |ps| && ps[k] == t;
        NotInBoth(ps, qs, k);
      } else if t in qs {
        var k :| 0 <= k < |qs| && qs[k] == t;
      }
    }
    RungsShape(us, d);
    forall k | 0 <= k < c ensures SizeAt(c0, PathOf(us, d, ha)[k]) >= diff {
      assert PathOf(us, d, ha)[k] == ps[k];
    }
    MovedCounts(us, d, ha, hb, c, diff, c0);
  }

  /** The counts on the ways before they move. */
  lemma CountsOnWays(us: seq<Subslab>, d: Deep, t: Subslab, ps: seq<Subslab>, qs: seq<Subslab>)
    requires |ps| == |qs| > 0 && ps[0] in us && qs[0] in us && forall i :: 1 <= i < |ps| ==> ps[i] in d.all && qs[i] in d.all
    requires forall i :: 0 <= i < |ps| ==> ps[i].ss_usr_elems >= t.ss_usr_elems
    ensures forall i :: 0 <= i < |ps| ==> SizeAt(CountMap(us, d), ps[i]) == ps[i].ss_usr_elems >= t.ss_usr_elems
    ensures forall i :: 0 <= i < |qs| ==> SizeAt(CountMap(us, d), qs[i]) == qs[i].ss_usr_elems
  {
    hide CountMap, SizeAt;
    CountAt(us, d);
  }

  lemma NotInBoth<T>(x: seq<T>, y: seq<T>, k: nat)
    requires NoDup(x + y) && k < |x|
    ensures x[k] !in y
  {
    var s := x + y;
    assert forall i :: 0 <= i < |y| ==> y[i] == s[|x| + i];
    assert s[k] == x[k];
  }

  lemma RungsShape(us: seq<Subslab>, d: Deep)
    requires Rungs(us, d)
    ensures Shape(us, d)
  {
    hide Shape, Rung;
  }

  lemma WaysNoDup(s: Subslab, q: Subslab, ps: seq<Subslab>, qs: seq<Subslab>)
    requires Meet(s, q, ps, qs)
    ensures NoDup(ps + qs)
  {
    hide NoDup;
  }

  lemma CountsSums(us: seq<Subslab>, d: Deep)
    requires Counts(us, d)
    ensures |d.gs| == |d.cs| && forall i :: 0 <= i < |d.cs| ==> Sums(d.cs[i], d.gs[i], CountMap(us, d))
  {
    hide Sums, CountMap;
  }

  /** sub_addsn, with the ways down that the counts go along. */
  method SpillOnAlong(l: Layer, t: Subslab, n: Slab, ghost j: nat, ghost d: nat, ghost ss: seq<Slab>, ghost sz: map<Slab, nat>,
    ghost ps: seq<Subslab>, ghost qs: seq<Subslab>)
    returns (ghost diff: nat)
    requires Pending(l, n, ss, sz, j, d) && t == l.subs[j] && |l.kids[j]| == SUBELEM_MAX
    requires j + 1 < |l.kids| && |l.kids[j + 1]| < SUBELEM_MAX && d < SUBELEM_MAX
    requires Meet(t, l.subs[j + 1], ps, qs) && OutOf(ps, qs, l.subs) && forall i :: 0 <= i < |ps| ==> ps[i].ss_usr_elems >= t.ss_usr_elems
    modifies l`kids, l.subs`ss_min, l.subs`ss_max, l.subs`ss_elems, ps`ss_usr_elems, qs`ss_usr_elems
    modifies (set x <- l.subs :: x.ss_slabs), ss`s_below
    ensures Settled(l, ss, sz) && l.kids == SpillNext(old(l.kids), j, d, n, SUBELEM_MAX)
    ensures |ps| == |qs| && diff <= old(t.ss_usr_elems) && forall i :: 0 <= i < |ps| ==>
      ps[i].ss_usr_elems == old(ps[i].ss_usr_elems) - diff && qs[i].ss_usr_elems == old(qs[i].ss_usr_elems) + diff
  {
    hide SubDistinct, SubLinked, SubData, Below, Absent, NoDup, Ordered, Splits, InsertAt, SumOf, Ext, Sized, SpillNext;
    hide Meet, OutOf, Placed;
    PlacedAbsent(l.kids, j, d, n, ss);
    PlacedSplits(l.kids, j, d, n, ss);
    MeetEnds(t, l.subs[j + 1], ps, qs);
    var common: Subslab?;
    common, diff := SubAddsn(l, t, n, j, d, ss, sz, ps, qs);
  }

  /** sub_addsn on a subslab whose neighbour has room. */
  method SpillOn(l: Layer, t: Subslab, n: Slab, ghost j: nat, ghost d: nat, ghost ss: seq<Slab>, ghost sz: map<Slab, nat>, ghost ld: Deep)
    requires Pending(l, n, ss, sz, j, d) && t == l.subs[j] && |l.kids[j]| == SUBELEM_MAX
    requires j + 1 < |l.kids| && |l.kids[j + 1]| < SUBELEM_MAX && d < SUBELEM_MAX
    requires Rungs(l.subs, ld) && Counts(l.subs, ld)
    modifies l`kids, l.subs`ss_min, l.subs`ss_max, l.subs`ss_elems, l.subs`ss_usr_elems, ld.all`ss_usr_elems
    modifies (set x <- l.subs :: x.ss_slabs), ss`s_below
    ensures Settled(l, ss, sz) && l.kids == SpillNext(old(l.kids), j, d, n, SUBELEM_MAX) && Counts(l.subs, ld)
  {
    hide Pending, Settled, GroupsOk, SpillNext;
    hide Rungs, Counts, Meet, OutOf, Trail, PathOf, CountMap, Sums, SizeAt;
    ghost var us, c0 := l.subs, CountMap(l.subs, ld);
    PendingIn(l, n, ss, sz, j, d);
    CountAt(us, ld);
    CountsSums(us, ld);
    RungsApart(us, ld);
    ghost var ha, hb, c, ps, qs := WaysReady(us, ld, j, j + 1);
    WaysNoDup(t, us[j + 1], ps, qs);
    CountsOnWays(us, ld, t, ps, qs);
    ghost var diff := SpillOnAlong(l, t, n, j, d, ss, sz, ps, qs);
    CountsMoved(us, ld, ha, hb, c, ps, qs, diff, c0);
  }

  /** sub_addsp, with the ways down that the counts go along. */
  method SpillBackAlong(l: Layer, t: Subslab, n: Slab, ghost j: nat, ghost d: nat, ghost ss: seq<Slab>, ghost sz: map<Slab, nat>,
    ghost ps: seq<Subslab>, ghost qs: seq<Subslab>)
    returns (ghost diff: nat)
    requires Pending(l, n, ss, sz, j, d) && t == l.subs[j] && |l.kids[j]| == SUBELEM_MAX
    requires 0 < j && |l.kids[j - 1]| < SUBELEM_MAX && 0 < d && GroupsOk(l.kids)
    requires Meet(t, l.subs[j - 1], ps, qs) && OutOf(ps, qs, l.subs) && forall i :: 0 <= i < |ps| ==> ps[i].ss_usr_elems >= t.ss_usr_elems
    modifies l`kids, l.subs`ss_min, l.subs`ss_max, l.subs`ss_elems, ps`ss_usr_elems, qs`ss_usr_elems
    modifies (set x <- l.subs :: x.ss_slabs), ss`s_below
    ensures Settled(l, ss, sz) && l.kids == SpillPrev(old(l.kids), j, d, n, SUBELEM_MAX)
    ensures |ps| == |qs| && diff <= old(t.ss_usr_elems) && forall i :: 0 <= i < |ps| ==>
      ps[i].ss_usr_elems == old(ps[i].ss_usr_elems) - diff && qs[i].ss_usr_elems == old(qs[i].ss_usr_elems) + diff
  {
    hide SubDistinct, SubLinked, SubData, Below, Absent, NoDup, Ordered, Splits, InsertAt, SumOf, Ext, Sized, SpillPrev;
    hide Meet, OutOf, Placed;
    PendingAt(l, n, ss, sz, j, d);
    PlacedAbsent(l.kids, j, d, n, ss);
    PlacedSplits(l.kids, j, d, n, ss);
    PlacedPrev(l.kids, j, d, n, ss);
    MeetEnds(t, l.subs[j - 1], ps, qs);
    var common: Subslab?;
    common, diff := SubAddsp(l, t, n, j, d, ss, sz, ps, qs);
  }

  /** sub_addsp on a subslab whose neighbour has room. */
  method SpillBack(l: Layer, t: Subslab, n: Slab, ghost j: nat, ghost d: nat, ghost ss: seq<Slab>, ghost sz: map<Slab, nat>, ghost ld: Deep)
    requires Pending(l, n, ss, sz, j, d) && t == l.subs[j] && |l.kids[j]| == SUBELEM_MAX
    requires 0 < j && |l.kids[j - 1]| < SUBELEM_MAX && 0 < d && GroupsOk(l.kids)
    requires Rungs(l.subs, ld) && Counts(l.subs, ld)
    modifies l`kids, l.subs`ss_min, l.subs`ss_max, l.subs`ss_elems, l.subs`ss_usr_elems, ld.all`ss_usr_elems
    modifies (set x <- l.subs :: x.ss_slabs), ss`s_below
    ensures Settled(l, ss, sz) && l.kids == SpillPrev(old(l.kids), j, d, n, SUBELEM_MAX) && Counts(l.subs, ld)
  {
    hide Pending, Settled, GroupsOk, SpillPrev;
    hide Rungs, Counts, Meet, OutOf, Trail, PathOf, CountMap, Sums, SizeAt;
    ghost var us, c0 := l.subs, CountMap(l.subs, ld);
    PendingIn(l, n, ss, sz, j, d);
    CountAt(us, ld);
    CountsSums(us, ld);
    RungsApart(us, ld);
    ghost var ha, hb, c, ps, qs := WaysReady(us, ld, j, j - 1);
    WaysNoDup(t, us[j - 1], ps, qs);
    CountsOnWays(us, ld, t, ps, qs);
    ghost var diff := SpillBackAlong(l, t, n, j, d, ss, sz, ps, qs);
    CountsMoved(us, ld, ha, hb, c, ps, qs, diff, c0);
  }

  /** A new subslab behind the full subslab j. */
  method NewBehind(l: Layer, t: Subslab, n: Slab, ghost j: nat, ghost d: nat, ghost ss: seq<Slab>, ghost sz: map<Slab, nat>)
    returns (nt: Subslab)
    requires Pending(l, n, ss, sz, j, d) && j < |l.subs| && t == l.subs[j]
    modifies l`subs, l`kids, l`sl_slabs, l.subs`ss_next, l.subs`ss_prev
    ensures Pending(l, n, ss, sz, j, d) && l.kids == LinkAfter(old(l.kids), j) && l.subs == InsertAt(old(l.subs), j + 1, nt)
    ensures fresh(nt) && fresh(nt.ss_slabs) && fresh(nt.ss_subs) && nt.ss_below == t.ss_below && nt.ss_usr_elems == 0
    ensures l.subs[j] == t && l.subs[j + 1] == nt && forall k :: 0 <= k < |l.subs| ==> l.subs[k] in old(l.subs) || l.subs[k] == nt
  {
    hide SubDistinct, SubLinked, SubData, Below, Absent, NoDup, Ordered, Splits, InsertAt, SumOf, Ext, Sized;
    hide Subslab.Kids;
    ghost var g, ts := l.kids, l.subs;
    nt := l.MkSubslabAfter(t, j, ss);
    PlacedAfterLink(g, j, d, n, ss);
    EmptyGroup(ts, g, j + 1, nt, n, ss, sz);
  }

  /** The new subslab nt of the layer has the holder of t, and what it counts it has from t. */
  ghost predicate Parted(t: Subslab, nt: Subslab, before: nat)
    reads t`ss_usr_elems, nt`ss_usr_elems, t`ss_below, nt`ss_below
  {
    nt.ss_usr_elems + t.ss_usr_elems == before && nt.ss_below == t.ss_below
  }

  lemma MeetAtOnce(s: Subslab, q: Subslab, ts: seq<Subslab>)
    requires s != q && s.ss_below == q.ss_below
    ensures Meet(s, q, [s], [q]) && OutOf([s], [q], ts)
  {
  }

  /** A new subslab behind the full subslab j takes its last slab, and n goes into the room left. */
  method SpillToNew(l: Layer, t: Subslab, n: Slab, ghost j: nat, ghost d: nat, ghost ss: seq<Slab>, ghost sz: map<Slab, nat>)
    returns (nt: Subslab)
    requires Pending(l, n, ss, sz, j, d) && t == l.subs[j] && |l.kids[j]| == SUBELEM_MAX && d < SUBELEM_MAX
    modifies l`subs, l`kids, l`sl_slabs, l.subs`ss_next, l.subs`ss_prev, l.subs`ss_min, l.subs`ss_max
    modifies l.subs`ss_elems, t`ss_usr_elems, (set x <- l.subs :: x.ss_slabs), ss`s_below
    ensures Settled(l, ss, sz) && l.kids == SpillNext(LinkAfter(old(l.kids), j), j, d, n, SUBELEM_MAX)
    ensures j < |old(l.subs)| && l.subs == InsertAt(old(l.subs), j + 1, nt) && fresh({nt, nt.ss_slabs, nt.ss_subs})
    ensures Parted(t, nt, old(t.ss_usr_elems))
  {
    hide Pending, Settled, InsertAt, LinkAfter, SpillNext, Flatten, Meet, OutOf;
    PendingIn(l, n, ss, sz, j, d);
    LinkAfterParts(l.kids, j);
    nt := NewBehind(l, t, n, j, d, ss, sz);
    MeetAtOnce(t, nt, l.subs);
    ghost var diff := SpillOnAlong(l, t, n, j, d, ss, sz, [t], [nt]);
  }

  lemma {:induction false} AddInside<T>(g: seq<seq<T>>, j: nat, d: nat, n: T)
    requires j < |g| && 0 < d < |g[j]| && GroupsOk(g)
    ensures RoomAt(g, j) ==> SubAdd(g, j, d, n) == g[j := InsertAt(g[j], d, n)]
    ensures !RoomAt(g, j) ==> |g[j]| == SUBELEM_MAX
    ensures !RoomAt(g, j) && RoomAt(g, j + 1) ==> SubAdd(g, j, d, n) == SpillNext(g, j, d, n, SUBELEM_MAX)
    ensures !RoomAt(g, j) && !RoomAt(g, j + 1) && RoomAt(g, j - 1) ==>
      |g[j - 1]| > 0 && SubAdd(g, j, d, n) == SpillPrev(g, j, d, n, SUBELEM_MAX)
    ensures !RoomAt(g, j) && !RoomAt(g, j + 1) && !RoomAt(g, j - 1) ==>
      SubAdd(g, j, d, n) == SpillNext(LinkAfter(g, j), j, d, n, SUBELEM_MAX)
  {
    hide SpillNext, SpillPrev, InsertAt;
  }

  lemma {:induction false} AddInFront<T>(g: seq<seq<T>>, j: nat, n: T)
    requires j < |g| && GroupsOk(g)
    ensures RoomAt(g, j) ==> SubAdd(g, j, 0, n) == g[j := InsertAt(g[j], 0, n)]
    ensures !RoomAt(g, j) ==> |g[j]| == SUBELEM_MAX
    ensures !RoomAt(g, j) && RoomAt(g, j - 1) ==> |g[j - 1]| > 0 && SubAdd(g, j, 0, n) == g[j - 1 := InsertAt(g[j - 1], |g[j - 1]|, n)]
    ensures !RoomAt(g, j) && !RoomAt(g, j - 1) && RoomAt(g, j + 1) ==> SubAdd(g, j, 0, n) == SpillNext(g, j, 0, n, SUBELEM_MAX)
    ensures !RoomAt(g, j) && !RoomAt(g, j - 1) && !RoomAt(g, j + 1) ==> SubAdd(g, j, 0, n) == LinkBefore(g, j)[j := [n]]
  {
    hide SpillNext, InsertAt;
  }

  lemma {:induction false} AddBehind<T>(g: seq<seq<T>>, j: nat, d: nat, n: T)
    requires j < |g| && d == |g[j]| && GroupsOk(g)
    ensures RoomAt(g, j) ==> SubAdd(g, j, d, n) == g[j := InsertAt(g[j], d, n)]
    ensures !RoomAt(g, j) ==> |g[j]| == SUBELEM_MAX
    ensures !RoomAt(g, j) && RoomAt(g, j + 1) ==> SubAdd(g, j, d, n) == g[j + 1 := InsertAt(g[j + 1], 0, n)]
    ensures !RoomAt(g, j) && !RoomAt(g, j + 1) && RoomAt(g, j - 1) ==>
      |g[j - 1]| > 0 && SubAdd(g, j, d, n) == SpillPrev(g, j, d, n, SUBELEM_MAX)
    ensures !RoomAt(g, j) && !RoomAt(g, j + 1) && !RoomAt(g, j - 1) ==> SubAdd(g, j, d, n) == LinkAfter(g, j)[j + 1 := [n]]
  {
    hide SpillPrev, InsertAt;
  }

  /** A new subslab behind the full subslab j takes n. */
  method PutBehind(l: Layer, t: Subslab, n: Slab, ghost j: nat, ghost d: nat, ghost ss: seq<Slab>, ghost sz: map<Slab, nat>)
    returns (nt: Subslab)
    requires Pending(l, n, ss, sz, j, d) && j < |l.subs| && t == l.subs[j]
    modifies l`subs, l`kids, l`sl_slabs, l.subs`ss_next, l.subs`ss_prev, l.subs`ss_min, l.subs`ss_max
    modifies l.subs`ss_elems, (set x <- l.subs :: x.ss_slabs), ss`s_below
    ensures Settled(l, ss, sz) && j < |old(l.kids)| && l.kids == LinkAfter(old(l.kids), j)[j + 1 := [n]]
    ensures j < |old(l.subs)| && l.subs == InsertAt(old(l.subs), j + 1, nt) && fresh({nt, nt.ss_slabs, nt.ss_subs})
    ensures Parted(t, nt, old(t.ss_usr_elems))
  {
    hide Pending, Settled, InsertAt, LinkAfter, Flatten;
    PendingIn(l, n, ss, sz, j, d);
    LinkAfterParts(l.kids, j);
    nt := NewBehind(l, t, n, j, d, ss, sz);
    assert InsertAt([], 0, n) == [n] by {
      InsertAtFront([], n);
    }
    PendingIn(l, n, ss, sz, j, d);
    PutHere(l, t.ss_next, n, 0, j + 1, j, d, ss, sz);
  }

  lemma {:induction false} PlacedInFront(g: seq<seq<Slab>>, j: nat, n: Slab, ss: seq<Slab>)
    requires Placed(g, j, 0, n, ss)
    ensures Placed(LinkBefore(g, j), j, 0, n, ss)
  {
    var h := LinkBefore(g, j);
    assert h[..j] == g[..j] && h[j] == [] && h[j + 1..] == g[j..];
    FlattenAt(h, j);
    FlattenConcat(g[..j], g[j..]);
    assert g == g[..j] + g[j..];
  }

  /** A new subslab in front of the full subslab j takes n. */
  method PutInFront(l: Layer, t: Subslab, n: Slab, ghost j: nat, ghost ss: seq<Slab>, ghost sz: map<Slab, nat>)
    returns (nt: Subslab)
    requires Pending(l, n, ss, sz, j, 0) && j < |l.subs| && t == l.subs[j]
    modifies l`subs, l`kids, l`sl_slabs, l`sl_head, l.subs`ss_next, l.subs`ss_prev, l.subs`ss_min, l.subs`ss_max
    modifies l.subs`ss_elems, (set x <- l.subs :: x.ss_slabs), ss`s_below
    ensures Settled(l, ss, sz) && j < |old(l.kids)| && l.kids == LinkBefore(old(l.kids), j)[j := [n]]
    ensures j < |old(l.subs)| && l.subs == InsertAt(old(l.subs), j, nt) && fresh({nt, nt.ss_slabs, nt.ss_subs})
    ensures Parted(t, nt, old(t.ss_usr_elems))
  {
    hide SubDistinct, SubLinked, SubData, Below, Absent, NoDup, Ordered, Splits, InsertAt, SumOf, Ext, Sized, Settled;
    ghost var g, ts := l.kids, l.subs;
    nt := l.MkSubslabBefore(t, j, ss);
    PlacedInFront(g, j, n, ss);
    EmptyGroup(ts, g, j, nt, n, ss, sz);
    assert InsertAt([], 0, n) == [n] by {
      InsertAtFront([], n);
    }
    InsertAtMembers(g, j, []);
    PutHere(l, nt, n, 0, j, j, 0, ss, sz);
  }

  /** Searches subslab j for the place of n and puts it there. */
  method PutFound(l: Layer, t: Subslab, n: Slab, ghost j: nat, ghost d: nat, ghost ss: seq<Slab>, ghost sz: map<Slab, nat>)
    requires Pending(l, n, ss, sz, j, d) && GroupsOk(l.kids) && t == l.subs[j] && |l.kids[j]| < SUBELEM_MAX
    modifies l`kids, l.subs`ss_min, l.subs`ss_max, l.subs`ss_elems, (set x <- l.subs :: x.ss_slabs), ss`s_below
    ensures Settled(l, ss, sz) && l.kids == old(l.kids)[j := InsertAt(old(l.kids)[j], d, n)]
  {
    hide Pending, Settled, Placed, InsertAt, Ordered, Splits, Subslab.Kids;
    PendingAt(l, n, ss, sz, j, d);
    var i := SubslabBinSrchTop(n.s_max, t, l.kids[j]);
    SplitsUnique(l.kids[j], n.s_max, i, d);
    PutHere(l, t, n, i, j, j, d, ss, sz);
  }

  /** Searches the subslab before subslab j, which is below n, and puts n there. */
  method PutFoundPrev(l: Layer, t: Subslab, n: Slab, ghost j: nat, ghost ss: seq<Slab>, ghost sz: map<Slab, nat>)
    requires Pending(l, n, ss, sz, j, 0) && GroupsOk(l.kids) && 0 < j && t == l.subs[j - 1] && |l.kids[j - 1]| < SUBELEM_MAX
    modifies l`kids, l.subs`ss_min, l.subs`ss_max, l.subs`ss_elems, (set x <- l.subs :: x.ss_slabs), ss`s_below
    ensures Settled(l, ss, sz) && l.kids == old(l.kids)[j - 1 := InsertAt(old(l.kids)[j - 1], |old(l.kids)[j - 1]|, n)]
  {
    hide Pending, Settled, Placed, InsertAt, Ordered, Splits, Subslab.Kids;
    PendingAt(l, n, ss, sz, j, 0);
    PendingPrev(l, n, ss, sz, j);
    var i := SubslabBinSrchTop(n.s_max, t, l.kids[j - 1]);
    SplitsUnique(l.kids[j - 1], n.s_max, i, |l.kids[j - 1]|);
    PutHere(l, t, n, i, j - 1, j, 0, ss, sz);
  }

  /** Searches the subslab after subslab j, which is above n, and puts n there. */
  method PutFoundNext(l: Layer, t: Subslab, n: Slab, ghost j: nat, ghost d: nat, ghost ss: seq<Slab>, ghost sz: map<Slab, nat>)
    requires Pending(l, n, ss, sz, j, d) && GroupsOk(l.kids) && j + 1 < |l.subs| && t == l.subs[j + 1] && |l.kids[j + 1]| < SUBELEM_MAX
    modifies l`kids, l.subs`ss_min, l.subs`ss_max, l.subs`ss_elems, (set x <- l.subs :: x.ss_slabs), ss`s_below
    ensures Settled(l, ss, sz) && l.kids == old(l.kids)[j + 1 := InsertAt(old(l.kids)[j + 1], 0, n)]
  {
    hide Pending, Settled, Placed, InsertAt, Ordered, Splits, Subslab.Kids;
    PendingAt(l, n, ss, sz, j, d);
    PendingNext(l, n, ss, sz, j, d);
    var i := SubslabBinSrchTop(n.s_max, t, l.kids[j + 1]);
    SplitsUnique(l.kids[j + 1], n.s_max, i, 0);
    PutHere(l, t, n, i, j + 1, j, d, ss, sz);
  }

  /** All counts but that of t are as recorded. */
  ghost predicate Untouched(us: seq<Subslab>, d: Deep, t: Subslab, cnt: map<Subslab, nat>)
    reads us`ss_usr_elems, d.all`ss_usr_elems
  {
    && (forall x :: x in us && x != t ==> x.ss_usr_elems == SizeAt(cnt, x))
    && (forall x :: x in d.all && x != t ==> x.ss_usr_elems == SizeAt(cnt, x))
  }

  lemma UntouchedAtFirst(us: seq<Subslab>, d: Deep, t: Subslab)
    ensures Untouched(us, d, t, CountMap(us, d))
  {
  }

  /** sub_gen_add_ira: n is in the range of subslab j. */
  method SubGenAddIra(l: Layer, t: Subslab, n: Slab, ghost j: nat, ghost d: nat, ghost ss: seq<Slab>, ghost sz: map<Slab, nat>, ghost ld: Deep, ghost cnt: map<Subslab, nat>)
    returns (nt: Subslab?)
    requires Pending(l, n, ss, sz, j, d) && GroupsOk(l.kids) && t == l.subs[j] && 0 < d < |l.kids[j]|
    requires Rungs(l.subs, ld) && Counts(l.subs, ld) && cnt == CountMap(l.subs, ld)
    modifies l`subs, l`kids, l`sl_slabs, l.subs`ss_next, l.subs`ss_prev, l.subs`ss_min, l.subs`ss_max
    modifies l.subs`ss_elems, l.subs`ss_usr_elems, ld.all`ss_usr_elems, (set x <- l.subs :: x.ss_slabs), ss`s_below
    ensures Settled(l, ss, sz) && l.kids == SubAdd(old(l.kids), j, d, n)
    ensures nt == null ==> l.subs == old(l.subs) && Counts(l.subs, ld)
    ensures nt != null ==> j < |old(l.subs)| && l.subs == InsertAt<Subslab>(old(l.subs), j + 1, nt) && fresh({nt, nt.ss_slabs, nt.ss_subs})
    ensures nt != null ==> Parted(t, nt, old(t.ss_usr_elems)) && Untouched(old(l.subs), ld, t, cnt)
  {
    hide Rungs, Counts, CountMap, SizeAt;
    hide Pending, Settled, InsertAt, SpillNext, SpillPrev, LinkAfter, LinkBefore, SubAdd, GroupsOk, Subslab.Kids, Ordered, Splits;
    ghost var g := l.kids;
    PendingAt(l, n, ss, sz, j, d);
    AddInside(g, j, d, n);
    if t.ss_elems < SUBELEM_MAX {
      PutFound(l, t, n, j, d, ss, sz);
      return null;
    }
    var snx, spv := t.ss_next, t.ss_prev;
    if snx != null && snx.ss_elems < SUBELEM_MAX {
      SpillOn(l, t, n, j, d, ss, sz, ld);
      return null;
    }
    if spv != null && spv.ss_elems < SUBELEM_MAX {
      SpillBack(l, t, n, j, d, ss, sz, ld);
      return null;
    }
    if snx == null || snx.ss_elems == SUBELEM_MAX {
      UntouchedAtFirst(l.subs, ld, t);
      nt := SpillToNew(l, t, n, j, d, ss, sz);
      return;
    }
    // the fourth branch comes behind guards that cover all cases
    assert false;
  }

  /** sub_gen_add_ura: n is below the range of subslab j. */
  method SubGenAddUra(l: Layer, t: Subslab, n: Slab, ghost j: nat, ghost ss: seq<Slab>, ghost sz: map<Slab, nat>, ghost ld: Deep, ghost cnt: map<Subslab, nat>)
    returns (nt: Subslab?)
    requires Pending(l, n, ss, sz, j, 0) && GroupsOk(l.kids) && t == l.subs[j]
    requires Rungs(l.subs, ld) && Counts(l.subs, ld) && cnt == CountMap(l.subs, ld)
    modifies l`subs, l`kids, l`sl_slabs, l`sl_head, l.subs`ss_next, l.subs`ss_prev, l.subs`ss_min, l.subs`ss_max
    modifies l.subs`ss_elems, l.subs`ss_usr_elems, ld.all`ss_usr_elems, (set x <- l.subs :: x.ss_slabs), ss`s_below
    ensures Settled(l, ss, sz) && l.kids == SubAdd(old(l.kids), j, 0, n)
    ensures nt == null ==> l.subs == old(l.subs) && Counts(l.subs, ld)
    ensures nt != null ==> j < |old(l.subs)| && l.subs == InsertAt<Subslab>(old(l.subs), j, nt) && fresh({nt, nt.ss_slabs, nt.ss_subs})
    ensures nt != null ==> Parted(t, nt, old(t.ss_usr_elems)) && Untouched(old(l.subs), ld, t, cnt)
  {
    hide Rungs, Counts, CountMap, Untouched;
    hide Pending, Settled, InsertAt, SpillNext, SpillPrev, LinkAfter, LinkBefore, SubAdd, GroupsOk, Subslab.Kids, Ordered, Splits;
    ghost var g := l.kids;
    PendingAt(l, n, ss, sz, j, 0);
    AddInFront(g, j, n);
    if t.ss_elems < SUBELEM_MAX {
      PutFound(l, t, n, j, 0, ss, sz);
      return null;
    }
    var snx, spv := t.ss_next, t.ss_prev;
    if spv != null && spv.ss_elems < SUBELEM_MAX {
      PutFoundPrev(l, spv, n, j, ss, sz);
      return null;
    }
    if snx != null && snx.ss_elems < SUBELEM_MAX {
      SpillOn(l, t, n, j, 0, ss, sz, ld);
      return null;
    }
    UntouchedAtFirst(l.subs, ld, t);
    nt := PutInFront(l, t, n, j, ss, sz);
  }

  /** sub_gen_add_ora: n is above the range of subslab j. */
  method SubGenAddOra(l: Layer, t: Subslab, n: Slab, ghost j: nat, ghost d: nat, ghost ss: seq<Slab>, ghost sz: map<Slab, nat>, ghost ld: Deep, ghost cnt: map<Subslab, nat>)
    returns (nt: Subslab?)
    requires Pending(l, n, ss, sz, j, d) && GroupsOk(l.kids) && t == l.subs[j] && d == |l.kids[j]|
    requires Rungs(l.subs, ld) && Counts(l.subs, ld) && cnt == CountMap(l.subs, ld)
    modifies l`subs, l`kids, l`sl_slabs, l.subs`ss_next, l.subs`ss_prev, l.subs`ss_min, l.subs`ss_max
    modifies l.subs`ss_elems, l.subs`ss_usr_elems, ld.all`ss_usr_elems, (set x <- l.subs :: x.ss_slabs), ss`s_below
    ensures Settled(l, ss, sz) && l.kids == SubAdd(old(l.kids), j, d, n)
    ensures nt == null ==> l.subs == old(l.subs) && Counts(l.subs, ld)
    ensures nt != null ==> j < |old(l.subs)| && l.subs == InsertAt<Subslab>(old(l.subs), j + 1, nt) && fresh({nt, nt.ss_slabs, nt.ss_subs})
    ensures nt != null ==> Parted(t, nt, old(t.ss_usr_elems)) && Untouched(old(l.subs), ld, t, cnt)
  {
    hide Rungs, Counts, CountMap, Untouched;
    hide Pending, Settled, InsertAt, SpillNext, SpillPrev, LinkAfter, LinkBefore, SubAdd, GroupsOk, Subslab.Kids, Ordered, Splits;
    ghost var g := l.kids;
    PendingAt(l, n, ss, sz, j, d);
    AddBehind(g, j, d, n);
    if t.ss_elems < SUBELEM_MAX {
      PutFound(l, t, n, j, d, ss, sz);
      return null;
    }
    var snx, spv := t.ss_next, t.ss_prev;
    if snx != null && snx.ss_elems < SUBELEM_MAX {
      PutFoundNext(l, snx, n, j, d, ss, sz);
      return null;
    }
    if spv != null && spv.ss_elems < SUBELEM_MAX {
      SpillBack(l, t, n, j, d, ss, sz, ld);
      return null;
    }
    UntouchedAtFirst(l.subs, ld, t);
    nt := PutBehind(l, t, n, j, d, ss, sz);
  }

  /** subslab_gen_add: n goes to offset d of group j or to a neighbour, as the status tells. */
  method SubslabGenAdd(status: int, l: Layer, t: Subslab, n: Slab, ghost j: nat, ghost d: nat, ghost ss: seq<Slab>, ghost sz: map<Slab, nat>, ghost ld: Deep, ghost cnt: map<Subslab, nat>)
    returns (nt: Subslab?)
    requires Pending(l, n, ss, sz, j, d) && GroupsOk(l.kids) && t == l.subs[j]
    requires status == if d == 0 then FS_UNDER_RANGE else if d == |l.kids[j]| then FS_OVER_RANGE else FS_IN_RANGE
    requires Rungs(l.subs, ld) && Counts(l.subs, ld) && cnt == CountMap(l.subs, ld)
    modifies l`subs, l`kids, l`sl_slabs, l`sl_head, l.subs`ss_next, l.subs`ss_prev, l.subs`ss_min, l.subs`ss_max
    modifies l.subs`ss_elems, l.subs`ss_usr_elems, ld.all`ss_usr_elems, (set x <- l.subs :: x.ss_slabs), ss`s_below
    ensures Settled(l, ss, sz) && l.kids == SubAdd(old(l.kids), j, d, n) && |l.subs| == |l.kids|
    ensures nt == null ==> l.subs == old(l.subs) && Counts(l.subs, ld)
    ensures nt != null ==> j < |old(l.subs)| && l.subs == InsertAt<Subslab>(old(l.subs), if d == 0 then j else j + 1, nt) && fresh({nt, nt.ss_slabs, nt.ss_subs})
    ensures nt != null ==> Parted(t, nt, old(t.ss_usr_elems)) && Untouched(old(l.subs), ld, t, cnt)
  {
    hide Rungs, Counts, CountMap, Untouched;
    hide Pending, Settled, SubAdd, GroupsOk;
    PendingAt(l, n, ss, sz, j, d);
    if status == FS_IN_RANGE {
      nt := SubGenAddIra(l, t, n, j, d, ss, sz, ld, cnt);
    } else if status == FS_OVER_RANGE {
      nt := SubGenAddOra(l, t, n, j, d, ss, sz, ld, cnt);
    } else {
      nt := SubGenAddUra(l, t, n, j, ss, sz, ld, cnt);
    }
    SettledLength(l, ss, sz);
  }

  lemma SettledLength(l: Layer, ss: seq<Slab>, sz: map<Slab, nat>)
    requires Settled(l, ss, sz)
    ensures |l.subs| == |l.kids|
  {
  }
}
