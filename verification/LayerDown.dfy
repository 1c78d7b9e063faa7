/** slablist_add.c, the second sublayer: a new subslab of the first one is added to the subslab below
    it, which has room. */
module LayerDown {
  import opened Seqs
  import opened SlabModel
  import opened Groups
  import opened AddModel
  import opened IndexModel
  import opened SlabCore
  import opened SubLayer
  import opened LayerLadder
  import opened LayerAdd
  import opened LayerPlace
  import opened LayerGen
  import opened LayerRipple

  ghost predicate OrderedSubs(ts: seq<Subslab>)
    reads ts`ss_min, ts`ss_max
  {
    && (forall i :: 0 <= i < |ts| ==> ts[i].ss_min <= ts[i].ss_max)
    && (forall i, j :: 0 <= i < j < |ts| ==> ts[i].ss_max < ts[j].ss_min)
  }

  lemma {:induction false} TopOrderedSubs(l: Layer, ss: seq<Slab>)
    requires l.Chain() && Ext(l.subs, l.kids, ss) && GroupsOk(l.kids) && Flatten(l.kids) == ss && Ordered(ss)
    ensures OrderedSubs(l.subs)
  {
    hide Flatten, SubDistinct, SubLinked, SubData;
    var ts, g := l.subs, l.kids;
    forall j | 0 <= j < |ts| ensures ts[j].ss_min <= ts[j].ss_max {
      assert ExtAt(ts[j], g[j], ss);
      FlattenIndex(g, j, 0);
      FlattenIndex(g, j, |g[j]| - 1);
    }
    forall i, j | 0 <= i < j < |ts| ensures ts[i].ss_max < ts[j].ss_min {
      assert ExtAt(ts[i], g[i], ss) && ExtAt(ts[j], g[j], ss);
      FlattenIndex(g, i, |g[i]| - 1);
      FlattenIndex(g, j, 0);
      SpotMono(g, i, j);
    }
  }

  /** subslab_bin_srch on a list that is not used for sorting. */
  method SubslabBinSrch(elem: int, t: Subslab, ghost ks: seq<Subslab>) returns (i: nat)
    requires t.SubKids(ks) && ks != [] && OrderedSubs(ks)
    ensures i <= |ks| && (forall k :: 0 <= k < i ==> ks[k].ss_max < elem) && (i < |ks| ==> elem <= ks[i].ss_max)
  {
    var min, max: int := 0, t.ss_elems - 1;
    while max >= min
      invariant 0 <= min <= max + 1 <= |ks|
      invariant forall k :: 0 <= k < min ==> ks[k].ss_max < elem
      invariant forall k :: max < k < |ks| ==> elem < ks[k].ss_min
    {
      var mid := (min + max) / 2;
      assert t.ss_subs[mid] == ks[mid];
      var midElem := t.ss_subs[mid];
      var c := Bnd(elem, midElem.ss_min, midElem.ss_max);
      if c > 0 {
        min := mid + 1;
      } else if c < 0 {
        max := mid - 1;
      } else {
        return mid;
      }
    }
    if min >= t.ss_elems {
      min := t.ss_elems - 1;
    }
    assert t.ss_subs[min] == ks[min];
    var minss := t.ss_subs[min];
    if Bnd(elem, minss.ss_min, minss.ss_max) > 0 {
      min := min + 1;
    }
    i := min;
  }

  /* ---- the first sublayer has changed around one subslab ---- */

  /** The extrema of the subslabs us, which hold the groups g, as values. */
  ghost predicate Snap(us: seq<Subslab>, g: seq<seq<Slab>>, ss: seq<Slab>, mins: map<Subslab, int>, maxs: map<Subslab, int>)
    reads ss`s_min, ss`s_max
  {
    |g| == |us| && forall i :: 0 <= i < |us| ==>
      && g[i] != [] && g[i][0] in ss && g[i][|g[i]| - 1] in ss && us[i] in mins && us[i] in maxs
      && mins[us[i]] == g[i][0].s_min && maxs[us[i]] == g[i][|g[i]| - 1].s_max
  }

  lemma SnapOf(us: seq<Subslab>, g: seq<seq<Slab>>, ss: seq<Slab>)
    requires Ext(us, g, ss) && GroupsOk(g)
    ensures Snap(us, g, ss, Mins(us), Maxs(us))
  {
    hide Mins, Maxs;
    assert forall i :: 0 <= i < |us| ==> ExtAt(us[i], g[i], ss);
  }

  lemma InsertAtOther<T>(s: seq<T>, k: nat, e: T, i: nat)
    requires k <= |s| && i < |s|
    ensures InsertAt(s, k, e)[if i < k then i else i + 1] == s[i]
  {
  }

  /** Groups that are not next to group j stay as they are. */
  lemma {:induction false} SubAddOthers<T>(g: seq<seq<T>>, j: nat, d: nat, n: T, i: nat)
    requires j < |g| && d <= |g[j]| && GroupsOk(g) && i < |g| && !(j - 1 <= i <= j + 1)
    ensures var w := SubAdd(g, j, d, n);
      var k := if |w| == |g| || i < j then i else i + 1;
      k < |w| && w[k] == g[i]
  {
    hide InsertAt, GroupsOk;
    InsertAtOther(g, j, [], i);
    InsertAtOther(g, j + 1, [], i);
    LinkAfterParts(g, j);
  }

  /** The chain is as before or has one subslab more, at j or behind it. */
  ghost predicate ChainGrown(us: seq<Subslab>, now: seq<Subslab>, j: nat, nt: Subslab?, at: nat) {
    if nt == null then now == us else j <= at <= j + 1 && at <= |us| && now == InsertAt<Subslab>(us, at, nt)
  }

  /** Subslabs that are not next to subslab j have the extrema they had. */
  lemma {:induction false} TopWindow(us: seq<Subslab>, g: seq<seq<Slab>>, now: seq<Subslab>, w: seq<seq<Slab>>, ss: seq<Slab>, j: nat, d: nat, n: Slab,
                                     nt: Subslab?, at: nat, mins: map<Subslab, int>, maxs: map<Subslab, int>)
    requires Snap(us, g, ss, mins, maxs) && Ext(now, w, ss) && GroupsOk(g)
    requires j < |g| && d <= |g[j]| && w == SubAdd(g, j, d, n) && ChainGrown(us, now, j, nt, at)
    ensures forall m :: 0 <= m < |us| && !(j - 1 <= m <= j + 1) ==>
      us[m] in mins && us[m] in maxs && us[m].ss_min == mins[us[m]] && us[m].ss_max == maxs[us[m]]
  {
    hide SubAdd;
    forall m | 0 <= m < |us| && !(j - 1 <= m <= j + 1)
      ensures us[m] in mins && us[m] in maxs && us[m].ss_min == mins[us[m]] && us[m].ss_max == maxs[us[m]]
    {
      SubAddOthers(g, j, d, n, m);
      var k := if nt == null || m < j then m else m + 1;
      assert now[k] == us[m] && w[k] == g[m];
      assert ExtAt(now[k], w[k], ss);
    }
  }

  lemma ExtsAsFrom(us: seq<Subslab>, d: Deep, hh: seq<nat>)
    requires Exts(us, d) && Trail(us, d, hh)
    ensures ExtsFrom(us, d, hh, 0) && ExtsFrom(us, d, hh, |d.cs|)
  {
    hide Shape;
  }

  /** The extrema of the subslabs ts that are not next to a, in terms of recorded ones of their groups. */
  ghost predicate Recorded(ts: seq<Subslab>, g: seq<seq<Subslab>>, a: int, mins: map<Subslab, int>, maxs: map<Subslab, int>)
    reads ts`ss_min, ts`ss_max
  {
    |g| == |ts| && forall j :: 0 <= j < |ts| && !(a - 1 <= j <= a + 1) ==>
      && g[j] != [] && g[j][0] in mins && g[j][|g[j]| - 1] in maxs
      && ts[j].ss_min == mins[g[j][0]] && ts[j].ss_max == maxs[g[j][|g[j]| - 1]]
  }

  /** All deeper layers but the next have exact extrema, and what the next one has is recorded. */
  ghost predicate BelowTop(us: seq<Subslab>, d: Deep, a: int, mins: map<Subslab, int>, maxs: map<Subslab, int>)
    reads d.all`ss_min, d.all`ss_max
  {
    && Shape(us, d)
    && (forall i :: 1 <= i < |d.cs| ==> ExtOut(d.cs[i], d.gs[i], d.cs[i - 1], NONE))
    && (|d.cs| > 0 ==> Recorded(d.cs[0], d.gs[0], a, mins, maxs))
  }

  lemma {:induction false} ExtsBelowTop(us: seq<Subslab>, d: Deep, hh: seq<nat>)
    requires Exts(us, d) && Trail(us, d, hh)
    ensures BelowTop(us, d, if |d.cs| > 0 then hh[1] else 0, Mins(us), Maxs(us))
  {
    hide Mins, Maxs, SubDistinct, NoneShared, Flatten, GroupsOk, ExtOut;
    forall i | 1 <= i < |d.cs| ensures ExtOut(d.cs[i], d.gs[i], d.cs[i - 1], NONE) {
      assert ExtOut(d.cs[i], d.gs[i], Above(us, d, i), NONE);
    }
    if |d.cs| > 0 {
      ShapeAt(us, d, 0);
      assert ExtOut(d.cs[0], d.gs[0], Above(us, d, 0), NONE);
      ExtIsOut(d.cs[0], d.gs[0], us, hh[1]);
      ExtRecorded(d.cs[0], d.gs[0], us, hh[1]);
    }
  }

  lemma ExtIsOut(ts: seq<Subslab>, g: seq<seq<Subslab>>, us: seq<Subslab>, a: int)
    requires ExtOut(ts, g, us, NONE)
    ensures ExtOut(ts, g, us, a)
  {
    hide DeepExtAt;
  }

  lemma ExtRecorded(ts: seq<Subslab>, g: seq<seq<Subslab>>, us: seq<Subslab>, a: int)
    requires ExtOut(ts, g, us, a) && GroupsOk(g)
    ensures Recorded(ts, g, a, Mins(us), Maxs(us))
  {
    hide Mins, Maxs;
    ExtValues(ts, g, us, a);
  }

  /** Then only what is next to the way down is stale. */
  lemma {:induction false} StaleAround(us: seq<Subslab>, d: Deep, hh: seq<nat>, mins: map<Subslab, int>, maxs: map<Subslab, int>)
    requires Trail(us, d, hh) && BelowTop(us, d, if |d.cs| > 0 then hh[1] else 0, mins, maxs)
    requires forall m :: 0 <= m < |us| && !(hh[0] - 1 <= m <= hh[0] + 1) ==>
      us[m] in mins && us[m] in maxs && us[m].ss_min == mins[us[m]] && us[m].ss_max == maxs[us[m]]
    ensures ExtsFrom(us, d, hh, 0)
  {
    hide SubDistinct, NoneShared, Flatten, GroupsOk, ExtOut, NoDup;
    if |d.cs| > 0 {
      ShapeAt(us, d, 0);
      StillOut(d.cs[0], d.gs[0], us, hh[0], hh[1], mins, maxs);
    }
    forall i | 0 <= i < |d.cs| ensures ExtOut(d.cs[i], d.gs[i], Above(us, d, i), if i < 0 then NONE else hh[i + 1]) {
      if i > 0 {
        ExtIsOut(d.cs[i], d.gs[i], d.cs[i - 1], hh[i + 1]);
      }
    }
  }

  /** subslab_gen_add on the first sublayer; all that it leaves stale is next to the way down. */
  method GenAddTop(status: int, l: Layer, t: Subslab, n: Slab, ghost j: nat, ghost d: nat, ghost ss: seq<Slab>, ghost sz: map<Slab, nat>,
    ghost ld: Deep, ghost cnt: map<Subslab, nat>, ghost hh: seq<nat>)
    returns (nt: Subslab?)
    requires Pending(l, n, ss, sz, j, d) && GroupsOk(l.kids) && t == l.subs[j]
    requires status == if d == 0 then FS_UNDER_RANGE else if d == |l.kids[j]| then FS_OVER_RANGE else FS_IN_RANGE
    requires Rungs(l.subs, ld) && Counts(l.subs, ld) && Exts(l.subs, ld) && cnt == CountMap(l.subs, ld)
    requires Trail(l.subs, ld, hh) && hh[0] == j
    modifies l`subs, l`kids, l`sl_slabs, l`sl_head, l.subs`ss_next, l.subs`ss_prev, l.subs`ss_min, l.subs`ss_max
    modifies l.subs`ss_elems, l.subs`ss_usr_elems, ld.all`ss_usr_elems, (set x <- l.subs :: x.ss_slabs), ss`s_below
    ensures Settled(l, ss, sz) && l.kids == SubAdd(old(l.kids), j, d, n) && |l.subs| == |l.kids|
    ensures nt == null ==> l.subs == old(l.subs) && Counts(l.subs, ld)
    ensures nt != null ==> j < |old(l.subs)| && l.subs == InsertAt<Subslab>(old(l.subs), if d == 0 then j else j + 1, nt) && fresh({nt, nt.ss_slabs, nt.ss_subs})
    ensures nt != null ==> Parted(t, nt, old(t.ss_usr_elems)) && Untouched(old(l.subs), ld, t, cnt)
    ensures Rungs(old(l.subs), ld) && ExtsFrom(old(l.subs), ld, hh, 0)
  {
    hide Pending, Settled, SubAdd, GroupsOk, Rungs, Counts, Exts, ExtsFrom, CountMap, Trail, BelowTop, Mins, Maxs, Untouched, Parted, Ext, InsertAt, Snap;
    ghost var us, g := l.subs, l.kids;
    PendingExt(l, n, ss, sz, j, d);
    SnapOf(us, g, ss);
    ghost var mins, maxs := Mins(us), Maxs(us);
    TrailLength(us, ld, hh);
    ghost var a := if |ld.cs| > 0 then hh[1] else 0;
    ExtsBelowTop(us, ld, hh);
    RungsApart(us, ld);
    nt := SubslabGenAdd(status, l, t, n, j, d, ss, sz, ld, cnt);
    SettledExt(l, ss, sz);
    TopWindow(us, g, l.subs, l.kids, ss, j, d, n, nt, if d == 0 then j else j + 1, mins, maxs);
    StaleAround(us, ld, hh, mins, maxs);
  }

  lemma TrailLength(us: seq<Subslab>, d: Deep, hh: seq<nat>)
    requires Trail(us, d, hh)
    ensures |hh| == |d.cs| + 1
  {
  }

  lemma SettledExt(l: Layer, ss: seq<Slab>, sz: map<Slab, nat>)
    requires Settled(l, ss, sz)
    ensures Ext(l.subs, l.kids, ss)
  {
  }

  lemma PendingExt(l: Layer, n: Slab, ss: seq<Slab>, sz: map<Slab, nat>, j: nat, d: nat)
    requires Pending(l, n, ss, sz, j, d)
    ensures Ext(l.subs, l.kids, ss) && |l.subs| == |l.kids| && j < |l.kids| && d <= |l.kids[j]|
  {
  }

  /* ---- a new subslab goes to the second sublayer ---- */

  /** The deeper layers when nt has come to offset o of group b. */
  function WithNew(d: Deep, b: nat, o: nat, nt: Subslab): Deep
    requires 0 < |d.gs| && b < |d.gs[0]| && o <= |d.gs[0][b]|
  {
    Deep(d.cs, d.gs[0 := d.gs[0][b := InsertAt(d.gs[0][b], o, nt)]], d.all)
  }

  /** The deeper layers know neither nt nor its array. */
  ghost predicate Unknown(d: Deep, nt: Subslab) {
    forall t :: t in d.all ==> t != nt && t.ss_subs != nt.ss_subs
  }

  /** us is us0 with nt at offset o of group b of the second sublayer, which has room there. */
  ghost predicate GoesTo(us0: seq<Subslab>, us: seq<Subslab>, d: Deep, b: nat, o: nat, nt: Subslab) {
    && 0 < |d.cs| == |d.gs| && b < |d.gs[0]| == |d.cs[0]| && o <= |d.gs[0][b]| < SUBELEM_MAX
    && Flatten(d.gs[0]) == us0 && StandsIn(d.gs[0], b, o, nt, us) && Unknown(d, nt) && SubDistinct(us)
  }

  lemma {:induction false} GroupsWith<T>(g: seq<seq<T>>, b: nat, o: nat, n: T, f: seq<T>)
    requires GroupsOk(g) && b < |g| && o <= |g[b]| < SUBELEM_MAX && StandsIn(g, b, o, n, f)
    ensures GroupsOk(g[b := InsertAt(g[b], o, n)]) && Flatten(g[b := InsertAt(g[b], o, n)]) == f
  {
    hide Flatten, InsertAt, GroupsOk;
    SubAddHere(g, b, o, n);
    SubAddFlat(g, b, o, n);
    SubAddSizes(g, b, o, n);
    SpotIs(g, b, o);
  }

  lemma SubAddHere<T>(g: seq<seq<T>>, b: nat, o: nat, n: T)
    requires GroupsOk(g) && b < |g| && o <= |g[b]| < SUBELEM_MAX
    ensures SubAdd(g, b, o, n) == g[b := InsertAt(g[b], o, n)]
  {
  }

  lemma {:induction false} GrownIn(us0: seq<Subslab>, us: seq<Subslab>, d: Deep, b: nat, o: nat, nt: Subslab)
    requires GoesTo(us0, us, d, b, o, nt)
    ensures forall t :: t in us0 ==> t in us
    ensures forall j :: 0 <= j < |us| ==> us[j] in us0 || us[j] == nt
    ensures nt in us
  {
    hide Flatten, SubDistinct;
    var k := Spot(d.gs[0], b, o);
    InsertedMembers(us0, k, nt);
    InsertAtMembers(us0, k, nt);
  }

  lemma {:induction false} SharedByNew(us0: seq<Subslab>, us: seq<Subslab>, d: Deep, b: nat, o: nat, nt: Subslab, x: seq<Subslab>)
    requires GoesTo(us0, us, d, b, o, nt) && NoneShared(us0, x) && forall a :: 0 <= a < |x| ==> x[a] in d.all
    ensures NoneShared(us, x)
  {
    hide Flatten, SubDistinct, StandsIn;
    GrownIn(us0, us, d, b, o, nt);
    forall a, c | 0 <= a < |us| && 0 <= c < |x| ensures us[a] != x[c] && us[a].ss_subs != x[c].ss_subs {
      if us[a] in us0 {
        var k :| 0 <= k < |us0| && us0[k] == us[a];
      }
    }
  }

  lemma {:induction false} ShapeGrown(us0: seq<Subslab>, us: seq<Subslab>, d: Deep, b: nat, o: nat, nt: Subslab)
    requires Shape(us0, d) && GoesTo(us0, us, d, b, o, nt)
    ensures Shape(us, WithNew(d, b, o, nt))
  {
    hide Flatten, SubDistinct, NoneShared, InsertAt, StandsIn, GroupsOk;
    var e := WithNew(d, b, o, nt);
    GroupsWith(d.gs[0], b, o, nt, us);
    GrownIn(us0, us, d, b, o, nt);
    forall i | 0 <= i <= |e.cs| ensures SubDistinct(Above(us, e, i)) {
      assert i > 0 ==> Above(us, e, i) == Above(us0, d, i);
    }
    forall i | 0 <= i < |e.cs| ensures |e.gs[i]| == |e.cs[i]| && GroupsOk(e.gs[i]) && Flatten(e.gs[i]) == Above(us, e, i) {
      assert i > 0 ==> Above(us, e, i) == Above(us0, d, i) && e.gs[i] == d.gs[i];
    }
    forall i, j | 0 <= i < j <= |e.cs| ensures NoneShared(Above(us, e, i), Above(us, e, j)) {
      assert Above(us, e, j) == Above(us0, d, j) && NoneShared(Above(us0, d, i), Above(us0, d, j));
      if i == 0 {
        SharedByNew(us0, us, d, b, o, nt, d.cs[j - 1]);
      } else {
        assert Above(us, e, i) == Above(us0, d, i);
      }
    }
  }

  lemma {:induction false} TrailGrown(us0: seq<Subslab>, us: seq<Subslab>, d: Deep, b: nat, o: nat, nt: Subslab, hh: seq<nat>, h: nat)
    requires Shape(us0, d) && GoesTo(us0, us, d, b, o, nt) && Trail(us0, d, hh) && hh[1] == b && h < |us| && us[h] == us0[hh[0]]
    ensures Trail(us, WithNew(d, b, o, nt), hh[0 := h])
  {
    hide Flatten, SubDistinct, NoneShared, StandsIn, GroupsOk;
    var e, hs := WithNew(d, b, o, nt), hh[0 := h];
    forall i | 0 <= i < |hs| ensures hs[i] < |Above(us, e, i)| {
      assert i > 0 ==> Above(us, e, i) == Above(us0, d, i);
    }
    forall i | 0 <= i < |e.cs| ensures hs[i + 1] < |e.gs[i]| && Above(us, e, i)[hs[i]] in e.gs[i][hs[i + 1]] {
      if i == 0 {
        InsertedMembers(d.gs[0][b], o, nt);
      } else {
        assert Above(us, e, i) == Above(us0, d, i);
      }
    }
  }

  /** What nt is when the second sublayer gets it: the new subslab in order among the others. */
  lemma {:induction false} PlaceBelow(us: seq<Subslab>, g: seq<seq<Subslab>>, b: nat, o: nat, nt: Subslab)
    requires OrderedSubs(us) && StandsIn(g, b, o, nt, us)
    ensures OrderedSubs(g[b])
    ensures forall k :: 0 <= k < o ==> g[b][k].ss_max < nt.ss_max
    ensures forall k :: o <= k < |g[b]| ==> nt.ss_max < g[b][k].ss_max
  {
    hide Flatten, Spot;
    var p := Spot(g, b, o);
    forall k | 0 <= k < |g[b]| ensures Spot(g, b, k) < |Flatten(g)| && us[if k < o then Spot(g, b, k) else Spot(g, b, k) + 1] == g[b][k] {
      EntryStands(g, b, o, nt, us, b, k);
    }
    forall k, m | 0 <= k < m <= |g[b]| ensures Spot(g, b, k) < Spot(g, b, m) {
      SpotIs(g, b, k);
      SpotIs(g, b, m);
    }
    assert us[p] == nt by {
      InsertAtMembers(Flatten(g), p, nt);
    }
  }

  /** subslab_gen_add for a subslab: with room its three cases all put nt where the search says,
      whatever the status is. */
  method SubslabGenAddSub(status: int, t: Subslab, nt: Subslab, ghost ks: seq<Subslab>, ghost o: nat) returns (more: Subslab?)
    requires t.SubKids(ks) && o <= |ks| < SUBELEM_MAX && ks != [] && OrderedSubs(ks) && nt != t && nt !in ks
    requires forall k :: 0 <= k < o ==> ks[k].ss_max < nt.ss_max
    requires forall k :: o <= k < |ks| ==> nt.ss_max < ks[k].ss_max
    modifies t`ss_min, t`ss_max, t`ss_elems, t.ss_subs, nt`ss_below
    ensures t.SubKids(InsertAt(ks, o, nt)) && nt.ss_below == t && more == null
  {
    var i := SubslabBinSrch(nt.ss_max, t, ks);
    assert i < |ks| ==> nt.ss_max <= ks[i].ss_max;
    assert o < |ks| ==> nt.ss_max < ks[o].ss_max;
    t.AddSub(nt, i, ks);
    more := null;
  }

  lemma RungParts(ts: seq<Subslab>, g: seq<seq<Subslab>>, us: seq<Subslab>)
    requires Rung(ts, g, us)
    ensures |g| == |ts| && forall j :: 0 <= j < |ts| ==> ts[j].SubKids(g[j])
    ensures forall j, k {:trigger g[j][k]} :: 0 <= j < |g| && 0 <= k < |g[j]| ==> g[j][k] in us && g[j][k].ss_below == ts[j]
    ensures SubLinked(ts)
  {
    hide SubLinked, Subslab.SubKids;
  }

  lemma {:induction false} RungWith(ts: seq<Subslab>, g: seq<seq<Subslab>>, us0: seq<Subslab>, us: seq<Subslab>, b: nat, o: nat, nt: Subslab)
    requires SubLinked(ts) && |g| == |ts| && b < |g| && o <= |g[b]| && ts[b].SubKids(InsertAt(g[b], o, nt))
    requires forall j :: 0 <= j < |ts| && j != b ==> ts[j].SubKids(g[j])
    requires forall j, k {:trigger g[j][k]} :: 0 <= j < |g| && 0 <= k < |g[j]| ==> g[j][k] in us0 && g[j][k].ss_below == ts[j]
    requires nt in us && nt.ss_below == ts[b] && forall t :: t in us0 ==> t in us
    ensures Rung(ts, g[b := InsertAt(g[b], o, nt)], us)
  {
    hide SubLinked, Subslab.SubKids;
    var h := g[b := InsertAt(g[b], o, nt)];
    forall j, k | 0 <= j < |h| && 0 <= k < |h[j]| ensures h[j][k] in us && h[j][k].ss_below == ts[j] {
      if j == b {
        assert k < o ==> h[j][k] == g[j][k];
        assert k > o ==> h[j][k] == g[j][k - 1];
      } else {
        assert h[j][k] == g[j][k];
      }
    }
  }

  /** The second sublayer gets nt, and is right about its pointers. */
  method PutBelow(status: int, t: Subslab, nt: Subslab, ghost us0: seq<Subslab>, ghost us: seq<Subslab>, ghost d: Deep, ghost b: nat, ghost o: nat)
    returns (more: Subslab?)
    requires Rungs(us0, d) && GoesTo(us0, us, d, b, o, nt) && t == d.cs[0][b] && nt !in us0 && nt.ss_below == t && OrderedSubs(us)
    modifies t`ss_min, t`ss_max, t`ss_elems, t.ss_subs, nt`ss_below
    ensures Rung(d.cs[0], d.gs[0][b := InsertAt(d.gs[0][b], o, nt)], us) && more == null
  {
    hide Flatten, SubLinked, Subslab.SubKids, InsertAt, OrderedSubs, StandsIn, Rungs, GroupsOk, NoneShared, Spot;
    ghost var ts, g := d.cs[0], d.gs[0];
    RungAt(us0, d, 0);
    RungsShape(us0, d);
    FirstAbove(us0, d);
    ShapeAt(us0, d, 0);
    RungParts(ts, g, us0);
    PlaceBelow(us, g, b, o, nt);
    GroupNotEmpty(g, b);
    assert nt !in g[b];
    assert t in ts && t in d.all;
    RungDistinct(us0, d);
    more := SubslabGenAddSub(status, t, nt, g[b], o);
    GrownIn(us0, us, d, b, o, nt);
    RungWith(ts, g, us0, us, b, o, nt);
  }

  lemma GroupNotEmpty<T>(g: seq<seq<T>>, b: nat)
    requires GroupsOk(g) && b < |g|
    ensures g[b] != []
  {
  }

  lemma RungDistinct(us: seq<Subslab>, d: Deep)
    requires Shape(us, d) && 0 < |d.cs|
    ensures SubDistinct(d.cs[0])
  {
    hide Flatten, GroupsOk, NoneShared;
    assert SubDistinct(Above(us, d, 1));
  }

  /** The counts of the layers are as recorded, but for what nt has from t. */
  lemma {:induction false} CountsWith(us0: seq<Subslab>, us: seq<Subslab>, d: Deep, b: nat, o: nat, t: Subslab, nt: Subslab, cnt: map<Subslab, nat>)
    requires Shape(us0, d) && GoesTo(us0, us, d, b, o, nt) && t in d.gs[0][b] && nt !in us0
    requires (forall i :: 0 <= i < |d.cs| ==> Sums(d.cs[i], d.gs[i], cnt)) && Untouched(us0, d, t, cnt)
    requires nt.ss_usr_elems + t.ss_usr_elems == SizeAt(cnt, t) && t in us0 && t !in d.all
    ensures Counts(us, WithNew(d, b, o, nt))
  {
    hide Shape, Sums, CountMap, SizeAt, StandsIn, SubDistinct, Flatten, InsertAt, SumOf;
    var e := WithNew(d, b, o, nt);
    var c := CountMap(us, e);
    CountAt(us, e);
    GrownIn(us0, us, d, b, o, nt);
    forall i | 0 <= i < |e.cs| ensures Sums(e.cs[i], e.gs[i], c) {
      if i == 0 {
        SumsWithNew(us0, d, b, o, t, nt, cnt, c);
      } else {
        SumsBelow(us0, d, i, cnt, c);
      }
    }
  }

  lemma {:induction false} SumsBelow(us: seq<Subslab>, d: Deep, i: nat, c0: map<Subslab, nat>, c: map<Subslab, nat>)
    requires Shape(us, d) && 0 < i < |d.cs| && Sums(d.cs[i], d.gs[i], c0)
    requires forall t :: t in d.all ==> SizeAt(c, t) == SizeAt(c0, t)
    ensures Sums(d.cs[i], d.gs[i], c)
  {
    hide Shape, Sums, SizeAt, Above;
    NextAbove(us, d, i - 1);
    NextAbove(us, d, i);
    InAll(us, d, i);
    InAll(us, d, i - 1);
    ShapeLengths(us, d);
    forall j, k | 0 <= j < |d.gs[i]| && 0 <= k < |d.gs[i][j]| ensures d.gs[i][j][k] in d.all {
      var a := EntryAbove(us, d, i, j, k);
    }
    SumsKept(d.cs[i], d.gs[i], c0, c);
  }

  lemma InAll(us: seq<Subslab>, d: Deep, i: nat)
    requires Shape(us, d) && i < |d.cs|
    ensures forall j :: 0 <= j < |d.cs[i]| ==> d.cs[i][j] in d.all
  {
    hide SubDistinct, Flatten, GroupsOk, NoneShared;
  }

  lemma {:induction false} SumsWithNew(us: seq<Subslab>, d: Deep, b: nat, o: nat, t: Subslab, nt: Subslab, c0: map<Subslab, nat>, c: map<Subslab, nat>)
    requires Shape(us, d) && 0 < |d.cs| && b < |d.gs[0]| && o <= |d.gs[0][b]| && t in d.gs[0][b] && Sums(d.cs[0], d.gs[0], c0)
    requires forall x :: x in d.all ==> SizeAt(c, x) == SizeAt(c0, x)
    requires forall x :: x in us && x != t ==> SizeAt(c, x) == SizeAt(c0, x)
    requires SizeAt(c, nt) + SizeAt(c, t) == SizeAt(c0, t)
    ensures Sums(d.cs[0], d.gs[0][b := InsertAt(d.gs[0][b], o, nt)], c)
  {
    hide Shape, SizeAt, SumOf, InsertAt, Flatten, NoDup, Above;
    ShapeAt(us, d, 0);
    var ts, g := d.cs[0], d.gs[0];
    FirstAbove(us, d);
    InAll(us, d, 0);
    var m :| 0 <= m < |g[b]| && g[b][m] == t;
    forall j, k | 0 <= j < |g| && 0 <= k < |g[j]| ensures g[j][k] in us {
      var a := EntryAbove(us, d, 0, j, k);
    }
    var w: nat := SizeAt(c, t);
    forall j | 0 <= j < |ts| && j != b ensures SumOf(g[j], c) == SumOf(g[j], c0) {
      NotInOther(g, b, m, j);
      SumSame(g[j], c0, c);
    }
    GroupNoDup(g, b);
    SumChanged(g[b], c0, m, w);
    SizeSet(c0, t, w);
    SumSame(g[b], c0[t := w], c);
    SumInsert(g[b], o, nt, c);
  }

  /** A layer of which only subslab b and its group have changed. */
  lemma {:induction false} OutWith(ts: seq<Subslab>, g: seq<seq<Subslab>>, us0: seq<Subslab>, us: seq<Subslab>, b: nat, x: seq<Subslab>)
    requires |g| == |ts| && b < |g| && forall t :: t in us0 ==> t in us
    requires forall j :: 0 <= j < |ts| && !(b - 1 <= j <= b + 1) ==> DeepExtAt(ts[j], g[j], us0)
    ensures ExtOut(ts, g[b := x], us, b)
  {
  }

  lemma {:induction false} RungsBelow(us: seq<Subslab>, d: Deep)
    requires Rungs(us, d)
    ensures |d.gs| == |d.cs| && forall i :: 0 < i < |d.cs| ==> Rung(d.cs[i], d.gs[i], d.cs[i - 1])
    ensures |d.cs| > 0 ==> Bottom(d.cs[|d.cs| - 1])
  {
    hide Rung, Shape;
    RungsShape(us, d);
    ShapeLengths(us, d);
  }

  lemma {:induction false} RungsFrom(us: seq<Subslab>, d: Deep)
    requires Shape(us, d) && |d.cs| > 0 && Rung(d.cs[0], d.gs[0], us) && Bottom(d.cs[|d.cs| - 1])
    requires forall i :: 0 < i < |d.cs| ==> Rung(d.cs[i], d.gs[i], d.cs[i - 1])
    ensures Rungs(us, d)
  {
    hide Rung, Shape, Bottom;
    ShapeLengths(us, d);
    forall i | 0 <= i < |d.cs| ensures Rung(d.cs[i], d.gs[i], Above(us, d, i)) {
      assert i > 0 ==> Rung(d.cs[i], d.gs[i], d.cs[i - 1]);
    }
  }

  /** What the layers below the second sublayer have to do with one of its subslabs. */
  lemma {:induction false} FarFrom(us: seq<Subslab>, d: Deep, b: nat, i: nat)
    requires Shape(us, d) && 0 < i < |d.cs| && b < |d.cs[0]|
    ensures d.cs[0][b] !in d.cs[i] && forall t :: t in d.cs[i] ==> t.ss_subs != d.cs[0][b].ss_subs
  {
    hide GroupsOk, Flatten, SubDistinct;
    assert NoneShared(Above(us, d, 1), Above(us, d, i + 1));
  }

  /** PutBelow, as the layers below see it. */
  method PutBelowRungs(status: int, t: Subslab, nt: Subslab, ghost us0: seq<Subslab>, ghost us: seq<Subslab>, ghost d: Deep, ghost b: nat, ghost o: nat)
    returns (more: Subslab?)
    requires Rungs(us0, d) && GoesTo(us0, us, d, b, o, nt) && t == d.cs[0][b] && nt !in us0 && nt.ss_below == t && OrderedSubs(us)
    modifies t`ss_min, t`ss_max, t`ss_elems, t.ss_subs, nt`ss_below
    ensures Rungs(us, WithNew(d, b, o, nt)) && more == null
  {
    hide Rungs, Rung, Shape, Bottom, StandsIn, SubDistinct, InsertAt, Flatten;
    RungsShape(us0, d);
    RungsBelow(us0, d);
    ShapeGrown(us0, us, d, b, o, nt);
    more := PutBelow(status, t, nt, us0, us, d, b, o);
    ghost var e := WithNew(d, b, o, nt);
    forall i | 0 < i < |e.cs| ensures Rung(e.cs[i], e.gs[i], e.cs[i - 1]) {
      assert old(Rung(d.cs[i], d.gs[i], d.cs[i - 1]));
      FarFrom(us0, d, b, i);
      InAll(us0, d, i);
      InAll(us0, d, i - 1);
    }
    InAll(us0, d, |d.cs| - 1);
    RungsFrom(us, e);
  }

  lemma {:induction false} ExtsFromParts(us: seq<Subslab>, d: Deep, hh: seq<nat>)
    requires Shape(us, d) && Trail(us, d, hh) && 0 < |d.cs| && ExtOut(d.cs[0], d.gs[0], us, hh[1])
    requires 1 < |d.cs| ==> ExtOut(d.cs[1], d.gs[1], d.cs[0], hh[2])
    requires forall i :: 1 < i < |d.cs| ==> ExtOut(d.cs[i], d.gs[i], d.cs[i - 1], hh[i + 1])
    ensures ExtsFrom(us, d, hh, 0)
  {
    hide Shape, ExtOut;
    forall i | 0 <= i < |d.cs| ensures ExtOut(d.cs[i], d.gs[i], Above(us, d, i), if i < 0 then NONE else hh[i + 1]) {
      assert i > 1 ==> ExtOut(d.cs[i], d.gs[i], d.cs[i - 1], hh[i + 1]);
    }
  }

  /** How the extrema of the deeper layers stand, layer by layer. */
  lemma {:induction false} ExtsParts(us: seq<Subslab>, d: Deep, hh: seq<nat>)
    requires ExtsFrom(us, d, hh, 0) && 0 < |d.cs|
    ensures Shape(us, d) && |hh| == |d.cs| + 1 && |d.gs[0]| == |d.cs[0]| && hh[1] < |d.cs[0]|
    ensures forall j :: 0 <= j < |d.cs[0]| && !(hh[1] - 1 <= j <= hh[1] + 1) ==> DeepExtAt(d.cs[0][j], d.gs[0][j], us)
    ensures 1 < |d.cs| ==> Recorded(d.cs[1], d.gs[1], hh[2], Mins(d.cs[0]), Maxs(d.cs[0]))
    ensures forall i :: 1 < i < |d.cs| ==> ExtOut(d.cs[i], d.gs[i], d.cs[i - 1], hh[i + 1])
  {
    hide Shape, DeepExtAt, Mins, Maxs, Recorded;
    ExtsFromAt(us, d, hh, 0, 0);
    ShapeAt(us, d, 0);
    FirstAbove(us, d);
    ShapeLengths(us, d);
    if |d.cs| > 1 {
      ExtRecordedAt(us, d, hh, 1);
    }
    forall i | 1 < i < |d.cs| ensures ExtOut(d.cs[i], d.gs[i], d.cs[i - 1], hh[i + 1]) {
      ExtsFromAt(us, d, hh, 0, i);
      NextAbove(us, d, i - 1);
    }
  }

  /** PutBelow, as those see it who look at extrema in the layers below. */
  method PutBelowExts(status: int, t: Subslab, nt: Subslab, ghost us0: seq<Subslab>, ghost us: seq<Subslab>, ghost d: Deep, ghost b: nat, ghost o: nat,
    ghost hh: seq<nat>)
    returns (more: Subslab?)
    requires Rungs(us0, d) && GoesTo(us0, us, d, b, o, nt) && t == d.cs[0][b] && nt !in us0 && nt.ss_below == t && OrderedSubs(us)
    requires ExtsFrom(us0, d, hh, 0) && hh[1] == b
    modifies t`ss_min, t`ss_max, t`ss_elems, t.ss_subs, nt`ss_below
    ensures Rungs(us, WithNew(d, b, o, nt)) && more == null && |hh| == |d.cs| + 1
    ensures ExtOut(d.cs[0], WithNew(d, b, o, nt).gs[0], us, b)
    ensures 1 < |d.cs| ==> ExtOut(d.cs[1], d.gs[1], d.cs[0], hh[2])
    ensures forall i :: 1 < i < |d.cs| ==> ExtOut(d.cs[i], d.gs[i], d.cs[i - 1], hh[i + 1])
  {
    hide Rungs, Flatten, InsertAt, OrderedSubs, StandsIn, GroupsOk, ExtOut, Shape, Trail, SubDistinct, Mins, Maxs, DeepExtAt, NoDup;
    ExtsParts(us0, d, hh);
    ShapeAt(us0, d, 0);
    FirstAbove(us0, d);
    TopApart(us0, d, 0);
    ghost var ts, mins, maxs := d.cs[0], Mins(d.cs[0]), Maxs(d.cs[0]);
    assert t in ts && t !in us0;
    forall j | 0 <= j < |ts| && j != b ensures ts[j] != t {
      NoDupAt(ts, j, b);
    }
    if |d.cs| > 1 {
      FarFrom(us0, d, b, 1);
      ShapeAt(us0, d, 1);
      LayerFacts(us0, d, hh, 1, 0);
    }
    more := PutBelowRungs(status, t, nt, us0, us, d, b, o);
    forall j | 0 <= j < |ts| && !(b - 1 <= j <= b + 1) ensures DeepExtAt(ts[j], d.gs[0][j], us0) {
      assert old(DeepExtAt(ts[j], d.gs[0][j], us0));
    }
    GrownIn(us0, us, d, b, o, nt);
    OutWith(ts, d.gs[0], us0, us, b, InsertAt(d.gs[0][b], o, nt));
    if |d.cs| > 1 {
      StillOut(d.cs[1], d.gs[1], ts, b, hh[2], mins, maxs);
    }
    forall i | 1 < i < |d.cs| ensures ExtOut(d.cs[i], d.gs[i], d.cs[i - 1], hh[i + 1]) {
      assert old(ExtOut(d.cs[i], d.gs[i], d.cs[i - 1], hh[i + 1]));
      FarFrom(us0, d, b, i);
      FarFrom(us0, d, b, i - 1);
    }
  }

  /** The second sublayer gets nt; all layers are right about their pointers, and what is stale is next
      to the way down. */
  method AddBelow(status: int, t: Subslab, nt: Subslab, ghost us0: seq<Subslab>, ghost us: seq<Subslab>, ghost d: Deep, ghost b: nat, ghost o: nat,
    ghost hh: seq<nat>, ghost h: nat)
    returns (more: Subslab?)
    requires Rungs(us0, d) && GoesTo(us0, us, d, b, o, nt) && t == d.cs[0][b] && nt !in us0 && nt.ss_below == t && OrderedSubs(us)
    requires ExtsFrom(us0, d, hh, 0) && hh[1] == b && h < |us| && us[h] == us0[hh[0]]
    modifies t`ss_min, t`ss_max, t`ss_elems, t.ss_subs, nt`ss_below
    ensures Rungs(us, WithNew(d, b, o, nt)) && ExtsFrom(us, WithNew(d, b, o, nt), hh[0 := h], 0) && more == null
  {
    hide Rungs, Flatten, InsertAt, OrderedSubs, StandsIn, GroupsOk, ExtOut, Shape, Trail, SubDistinct;
    RungsShape(us0, d);
    ExtsFromTrail(us0, d, hh);
    ShapeGrown(us0, us, d, b, o, nt);
    TrailGrown(us0, us, d, b, o, nt, hh, h);
    more := PutBelowExts(status, t, nt, us0, us, d, b, o, hh);
    ExtsFromParts(us, WithNew(d, b, o, nt), hh[0 := h]);
  }

  lemma ExtRecordedAt(us: seq<Subslab>, d: Deep, hh: seq<nat>, i: nat)
    requires ExtsFrom(us, d, hh, 0) && 0 < i < |d.cs|
    ensures |hh| == |d.cs| + 1 && |d.gs| == |d.cs| && Recorded(d.cs[i], d.gs[i], hh[i + 1], Mins(d.cs[i - 1]), Maxs(d.cs[i - 1]))
  {
    hide Shape, ExtOut, Mins, Maxs, Recorded;
    ExtsFromAt(us, d, hh, 0, i);
    ShapeAt(us, d, i);
    NextAbove(us, d, i - 1);
    ExtRecorded(d.cs[i], d.gs[i], Above(us, d, i), hh[i + 1]);
  }

  /** A subslab whose holder is null is in the last layer. */
  lemma {:induction false} NoneBelow(us: seq<Subslab>, d: Deep, hh: seq<nat>)
    requires Rungs(us, d) && Trail(us, d, hh)
    ensures hh[0] < |us| && (us[hh[0]].ss_below == null <==> |d.cs| == 0)
    ensures |d.cs| > 0 ==> |hh| > 1 && hh[1] < |d.cs[0]| && us[hh[0]].ss_below == d.cs[0][hh[1]]
  {
    hide Rungs;
    RungsShape(us, d);
    PathIs(us, d, hh);
    PathDown(us, d, hh);
  }

  /** Nothing lies below the first sublayer. */
  lemma {:induction false} BareGrown(us: seq<Subslab>, d: Deep, h: nat)
    requires |d.cs| == 0 == |d.gs| && SubDistinct(us) && h < |us|
    requires forall j :: 0 <= j < |us| ==> us[j] !in d.all && us[j].ss_below == null
    ensures Rungs(us, d) && ExtsFrom(us, d, [h], 0) && Counts(us, d)
  {
  }

  /** The place of nt in the group of its holder. */
  lemma {:induction false} PlaceInGroup(us0: seq<Subslab>, us: seq<Subslab>, d: Deep, hh: seq<nat>, at: nat, nt: Subslab) returns (o: nat)
    requires Shape(us0, d) && Trail(us0, d, hh) && 0 < |d.cs| && |d.gs[0][hh[1]]| < SUBELEM_MAX
    requires hh[0] <= at <= hh[0] + 1 && at <= |us0| && us == InsertAt(us0, at, nt) && Unknown(d, nt) && SubDistinct(us)
    ensures GoesTo(us0, us, d, hh[1], o, nt)
  {
    hide SubDistinct, NoneShared, GroupsOk, Flatten, InsertAt, Spot;
    var m := PathEntry(us0, d, hh, 0);
    var g, b := d.gs[0], hh[1];
    ShapeAt(us0, d, 0);
    FirstAbove(us0, d);
    PathStart(us0, d, hh);
    FlattenIndex(g, b, m);
    SpotIs(g, b, m);
    assert us0[Spot(g, b, m)] == us0[hh[0]];
    NoDupAt(us0, Spot(g, b, m), hh[0]);
    SpotStep(g, b, m);
    o := if at == hh[0] then m else m + 1;
  }

  /** A new subslab nt of the first sublayer, next to t, is carried on to the second sublayer if there is
      one; its subslab there has room. */
  method CarryBelow(t: Subslab, nt: Subslab, ghost us0: seq<Subslab>, ghost us: seq<Subslab>, ghost d: Deep, ghost hh: seq<nat>, ghost at: nat,
    ghost cnt: map<Subslab, nat>)
    returns (ghost e: Deep, ghost hs: seq<nat>)
    requires Rungs(us0, d) && ExtsFrom(us0, d, hh, 0) && hh[0] < |us0| && t == us0[hh[0]]
    requires hh[0] <= at <= hh[0] + 1 && at <= |us0| && us == InsertAt(us0, at, nt) && nt !in us0 && Unknown(d, nt)
    requires SubDistinct(us) && OrderedSubs(us) && Parted(t, nt, SizeAt(cnt, t)) && Untouched(us0, d, t, cnt)
    requires |d.gs| == |d.cs| && forall i :: 0 <= i < |d.cs| ==> Sums(d.cs[i], d.gs[i], cnt)
    requires t.ss_below != null ==> t.ss_below.ss_elems < SUBELEM_MAX
    modifies d.all`ss_min, d.all`ss_max, d.all`ss_elems, (set x <- d.all :: x.ss_subs), nt`ss_below
    ensures Rungs(us, e) && ExtsFrom(us, e, hs, 0) && Counts(us, e) && hs[0] < |us| && us[hs[0]] == t
    ensures e.cs == d.cs && e.all == d.all && |e.gs| == |d.gs| && forall i :: 1 <= i < |d.gs| ==> e.gs[i] == d.gs[i]
  {
    hide Rungs, ExtsFrom, Counts, OrderedSubs, Sums, GoesTo, Rung, Shape, InsertAt, SubDistinct, Trail, SizeAt, Untouched;
    RungsShape(us0, d);
    ExtsFromTrail(us0, d, hh);
    TrailLength(us0, d, hh);
    e := d;
    ghost var h: nat := if at == hh[0] then at + 1 else hh[0];
    hs := hh[0 := h];
    InsertAtOther(us0, at, nt, hh[0]);
    NoneBelow(us0, d, hh);
    RungsApart(us0, d);
    var t2 := nt.ss_below;
    if t2 == null {
      BareBelow(us0, us, d, at, nt);
      BareGrown(us, d, h);
      assert hs == [h];
      return;
    }
    RoomInGroup(us0, d, hh[1]);
    InAll(us0, d, 0);
    ghost var o := PlaceInGroup(us0, us, d, hh, at, nt);
    WithNewIs(us0, us, d, hh[1], o, nt);
    e := WithNew(d, hh[1], o, nt);
    TrailEntry(us0, d, hh);
    CountsWith(us0, us, d, hh[1], o, t, nt, cnt);
    var status := Bnd(nt.ss_min, t2.ss_min, t2.ss_max);
    var more := AddBelow(status, t2, nt, us0, us, d, hh[1], o, hh, h);
  }

  lemma TrailEntry(us: seq<Subslab>, d: Deep, hh: seq<nat>)
    requires Trail(us, d, hh) && 0 < |d.cs|
    ensures |d.gs| == |d.cs| && hh[1] < |d.gs[0]| && us[hh[0]] in d.gs[0][hh[1]]
  {
    FirstAbove(us, d);
  }

  lemma WithNewIs(us0: seq<Subslab>, us: seq<Subslab>, d: Deep, b: nat, o: nat, nt: Subslab)
    requires GoesTo(us0, us, d, b, o, nt)
    ensures 0 < |d.gs| == |d.cs| && b < |d.gs[0]| && o <= |d.gs[0][b]|
  {
  }

  lemma RoomInGroup(us: seq<Subslab>, d: Deep, b: nat)
    requires Rungs(us, d) && 0 < |d.cs| && b < |d.cs[0]|
    ensures |d.gs| == |d.cs| && b < |d.gs[0]| && d.cs[0][b].ss_elems == |d.gs[0][b]|
  {
    hide Rungs, Rung;
    RungAt(us, d, 0);
    RungParts(d.cs[0], d.gs[0], Above(us, d, 0));
  }

  lemma {:induction false} BareBelow(us0: seq<Subslab>, us: seq<Subslab>, d: Deep, at: nat, nt: Subslab)
    requires Rungs(us0, d) && |d.cs| == 0 && at <= |us0| && us == InsertAt(us0, at, nt) && nt !in d.all && nt.ss_below == null
    ensures |d.gs| == 0 && forall j :: 0 <= j < |us| ==> us[j] !in d.all && us[j].ss_below == null
  {
    hide SubDistinct;
    FirstAbove(us0, d);
    InsertAtMembers(us0, at, nt);
  }
}
