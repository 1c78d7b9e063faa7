/** slablist_add.c, the index layer: placing a new slab into the subslabs, spilling pointers between
    them, and keeping the counts of user elements. */
module LayerAdd {
  import opened Seqs
  import opened SlabModel
  import opened Groups
  import opened AddModel
  import opened IndexModel
  import opened SlabCore
  import opened SubLayer
  import opened LayerLadder

  /* ---- order of slabs, and searching a subslab ---- */

  /** The ranges of the slabs are disjoint and ascending. */
  ghost predicate Ordered(ks: seq<Slab>)
    reads ks`s_min, ks`s_max
  {
    && (forall i :: 0 <= i < |ks| ==> ks[i].s_min <= ks[i].s_max)
    && (forall i, j :: 0 <= i < j < |ks| ==> ks[i].s_max < ks[j].s_min)
  }

  /** i is the number of leading slabs that end below e. */
  ghost predicate Splits(ks: seq<Slab>, e: int, i: nat)
    reads ks`s_max
  {
    && i <= |ks|
    && (forall k :: 0 <= k < i ==> ks[k].s_max < e)
    && (forall k :: i <= k < |ks| ==> e <= ks[k].s_max)
  }

  /** subslab_bin_srch_top on a list that is not used for sorting. */
  method SubslabBinSrchTop(elem: int, t: Subslab, ghost ks: seq<Slab>) returns (i: nat)
    requires t.Kids(ks) && ks != [] && Ordered(ks)
    ensures Splits(ks, elem, i)
  {
    var min, max: int := 0, t.ss_elems - 1;
    while max >= min
      invariant 0 <= min <= max + 1 <= |ks|
      invariant forall k :: 0 <= k < min ==> ks[k].s_max < elem
      invariant forall k :: max < k < |ks| ==> elem < ks[k].s_min
    {
      var mid := (min + max) / 2;
      assert t.ss_slabs[mid] == ks[mid];
      var midSlab := t.ss_slabs[mid];
      var c := Bnd(elem, midSlab.s_min, midSlab.s_max);
      if c > 0 {
        min := mid + 1;
      } else if c < 0 {
        max := mid - 1;
      } else {
        return mid;
      }
    }
    if min >= t.ss_elems {
      min := t.ss_elems - 1;
    }
    assert t.ss_slabs[min] == ks[min];
    var tmp := t.ss_slabs[min];
    if Bnd(elem, tmp.s_min, tmp.s_max) > 0 {
      min := min + 1;
    }
    i := min;
  }

  lemma SplitsUnique(ks: seq<Slab>, e: int, i: nat, j: nat)
    requires Splits(ks, e, i) && Splits(ks, e, j)
    ensures i == j
  {
    assert i < |ks| ==> ks[i] in ks;
    assert j < |ks| ==> ks[j] in ks;
  }

  /* ---- user-element counts ---- */

  /** ss_usr_elems of every subslab is the sum of its slabs' sizes. */
  ghost predicate Usr(ts: seq<Subslab>, g: seq<seq<Slab>>, sz: map<Slab, nat>)
    reads ts`ss_usr_elems
  {
    |g| == |ts| && forall j :: 0 <= j < |ts| ==> ts[j].ss_usr_elems == SumOf(g[j], sz)
  }

  /** The sizes recorded for the slabs in the groups are their element counts. */
  ghost predicate Sized(g: seq<seq<Slab>>, ss: seq<Slab>, sz: map<Slab, nat>)
    reads ss`s_elems
  {
    forall j, k {:trigger g[j][k]} :: 0 <= j < |g| && 0 <= k < |g[j]| ==>
      g[j][k] in ss && g[j][k].s_elems == SizeAt(sz, g[j][k])
  }

  /** A group that keeps its slabs, or gains uncounted ones, keeps its count. */
  lemma UsrUpdate(ts: seq<Subslab>, g: seq<seq<Slab>>, sz: map<Slab, nat>, j: nat, ks: seq<Slab>)
    requires j < |g| == |ts| && SumOf(ks, sz) == SumOf(g[j], sz) && Usr(ts, g, sz)
    ensures Usr(ts, g[j := ks], sz)
  {
  }

  /** Once the counts of the moved slab have gone along with it, they are right again. */
  lemma {:induction false} SpillNextUsr(ts: seq<Subslab>, g: seq<seq<Slab>>, sz: map<Slab, nat>, j: nat, d: nat, n: Slab)
    requires j + 1 < |g| == |ts| && |g[j]| == SUBELEM_MAX && d < SUBELEM_MAX && n !in sz
    requires forall i :: 0 <= i < |ts| && i != j && i != j + 1 ==> ts[i].ss_usr_elems == SumOf(g[i], sz)
    requires ts[j].ss_usr_elems == SumOf(g[j], sz) - SizeAt(sz, g[j][SUBELEM_MAX - 1])
    requires ts[j + 1].ss_usr_elems == SumOf(g[j + 1], sz) + SizeAt(sz, g[j][SUBELEM_MAX - 1])
    ensures Usr(ts, SpillNext(g, j, d, n, SUBELEM_MAX), sz)
  {
    hide SumOf, InsertAt;
    var lst := g[j][SUBELEM_MAX - 1];
    SumCutLast(g[j], sz);
    SumInsert(g[j][..SUBELEM_MAX - 1], d, n, sz);
    SumConcat([lst], g[j + 1], sz);
    SumOne(lst, sz);
  }

  lemma {:induction false} SpillPrevUsr(ts: seq<Subslab>, g: seq<seq<Slab>>, sz: map<Slab, nat>, j: nat, d: nat, n: Slab)
    requires 0 < j < |g| == |ts| && |g[j]| == SUBELEM_MAX && 0 < d <= SUBELEM_MAX && n !in sz
    requires forall i :: 0 <= i < |ts| && i != j && i != j - 1 ==> ts[i].ss_usr_elems == SumOf(g[i], sz)
    requires ts[j].ss_usr_elems == SumOf(g[j], sz) - SizeAt(sz, g[j][0])
    requires ts[j - 1].ss_usr_elems == SumOf(g[j - 1], sz) + SizeAt(sz, g[j][0])
    ensures Usr(ts, SpillPrev(g, j, d, n, SUBELEM_MAX), sz)
  {
    hide SumOf, InsertAt;
    var fst := g[j][0];
    assert g[j] == [fst] + g[j][1..];
    SumConcat([fst], g[j][1..], sz);
    SumInsert(g[j][1..], d - 1, n, sz);
    SumConcat(g[j - 1], [fst], sz);
    SumOne(fst, sz);
  }

  /** An end of a group is counted in its subslab. */
  lemma EndsCounted(ts: seq<Subslab>, g: seq<seq<Slab>>, ss: seq<Slab>, sz: map<Slab, nat>, j: nat)
    requires Usr(ts, g, sz) && Sized(g, ss, sz) && j < |g| && g[j] != []
    ensures ts[j].ss_usr_elems >= g[j][0].s_elems == SizeAt(sz, g[j][0])
    ensures ts[j].ss_usr_elems >= g[j][|g[j]| - 1].s_elems == SizeAt(sz, g[j][|g[j]| - 1])
  {
    SumCutLast(g[j], sz);
  }

  /* ---- spilling ---- */

  /** Cutting off an end of a group leaves it in order and the other places where they were. */
  lemma SplitsCutLast(ks: seq<Slab>, e: int, d: nat)
    requires Ordered(ks) && Splits(ks, e, d) && d < |ks|
    ensures Ordered(ks[..|ks| - 1]) && Splits(ks[..|ks| - 1], e, d)
  {
  }

  lemma SplitsCutFirst(ks: seq<Slab>, e: int, d: nat)
    requires Ordered(ks) && Splits(ks, e, d) && d > 0
    ensures Ordered(ks[1..]) && Splits(ks[1..], e, d - 1)
  {
  }

  /** The chain is in order, groups point back at their holders, and the new slab n is in none yet. */
  ghost predicate Ready(l: Layer, n: Slab, ss: seq<Slab>)
    reads l, l.subs`ss_next, l.subs`ss_prev, l.subs`ss_elems, set t <- l.subs :: t.ss_slabs
    reads ss`s_below
  {
    l.Chain() && Below(l.subs, l.kids, ss) && n in ss && Absent(l.kids, n) && NoDup(Flatten(l.kids))
  }

  /** Counts and sizes are known and right; n is not counted yet. */
  ghost predicate Counted(ts: seq<Subslab>, g: seq<seq<Slab>>, n: Slab, ss: seq<Slab>, sz: map<Slab, nat>)
    reads ts`ss_usr_elems, ss`s_elems
  {
    Usr(ts, g, sz) && Sized(g, ss, sz) && n !in sz
  }

  lemma InGroup(ts: seq<Subslab>, g: seq<seq<Slab>>, ss: seq<Slab>, n: Slab, j: nat, k: nat)
    requires Below(ts, g, ss) && Absent(g, n) && j < |g| && k < |g[j]|
    ensures g[j][k] in ss && g[j][k] != n
  {
  }

  /** The pointer moves of sub_addsn: the last pointer of the full group j goes to the next subslab,
      and n into the room it leaves. */
  method MoveLastAndPut(l: Layer, t: Subslab, n: Slab, ghost j: nat, ghost d: nat, ghost ss: seq<Slab>) returns (snx: Subslab, lst: Slab)
    requires Ready(l, n, ss) && j + 1 < |l.subs| && t == l.subs[j]
    requires |l.kids[j]| == SUBELEM_MAX && |l.kids[j + 1]| < SUBELEM_MAX
    requires Ordered(l.kids[j]) && Splits(l.kids[j], n.s_max, d) && d < SUBELEM_MAX
    modifies l`kids, l.subs`ss_min, l.subs`ss_max, l.subs`ss_elems
    modifies (set x <- l.subs :: x.ss_slabs), ss`s_below
    ensures l.Chain() && Below(l.subs, l.kids, ss)
    ensures l.kids == SpillNext(old(l.kids), j, d, n, SUBELEM_MAX)
    ensures old(Ext(l.subs, l.kids, ss)) ==> Ext(l.subs, l.kids, ss)
    ensures snx == l.subs[j + 1] && lst == old(l.kids)[j][SUBELEM_MAX - 1]
  {
    hide SubDistinct, SubLinked, SubData, Below, Absent, NoDup, Flatten, Ordered, Splits, InsertAt, Ext;
    hide Subslab.Kids;
    ghost var g := l.kids;
    ghost var x := g[j];
    ghost var cut := x[..|x| - 1];
    SubNeighbours(l, j);
    InGroup(l.subs, g, ss, n, j, |x| - 1);
    AbsentCutLast(g, j);
    SplitsCutLast(x, n.s_max, d);
    lst := l.CutLast(t, j, ss);
    snx := t.ss_next;
    SubNeighbours(l, j);
    var k := SubslabBinSrchTop(n.s_max, t, cut);
    SplitsUnique(cut, n.s_max, k, d);
    l.PutSlab(snx, lst, 0, j + 1, ss);
    InsertAtFront(g[j + 1], lst);
    AbsentMoved(g, n, j, j, lst, cut);
    AbsentMoved(g[j := cut], n, j, j + 1, lst, [lst] + g[j + 1]);
    l.PutSlab(t, n, k, j, ss);
  }

  /** But for their first subslabs the ways down are in deeper layers. */
  ghost predicate OutOf(ps: seq<Subslab>, qs: seq<Subslab>, ts: seq<Subslab>) {
    forall i :: 1 <= i < |ps| && i < |qs| ==> ps[i] !in ts && qs[i] !in ts
  }

  lemma MeetEnds(s: Subslab, q: Subslab, ps: seq<Subslab>, qs: seq<Subslab>)
    requires Meet(s, q, ps, qs)
    ensures |ps| == |qs| > 0 && ps[0] == s && qs[0] == q
  {
    hide NoDup;
  }

  lemma NotOnWay(t: Subslab, q: Subslab, ts: seq<Subslab>, ps: seq<Subslab>, qs: seq<Subslab>)
    requires |ps| == |qs| > 0 && ps[0] == t && qs[0] == q && OutOf(ps, qs, ts)
    ensures forall i :: 0 <= i < |ts| && ts[i] != t && ts[i] != q ==> ts[i] !in ps && ts[i] !in qs
  {
    assert forall i :: 0 <= i < |ts| ==> ts[i] in ts;
  }

  /** The last loop of sub_addsn and sub_addsp, as the chain ts of t and q sees it. */
  method MoveBetween(t: Subslab, q: Subslab, diff: nat, ghost ts: seq<Subslab>, ghost ps: seq<Subslab>, ghost qs: seq<Subslab>)
    returns (common: Subslab?)
    requires Meet(t, q, ps, qs) && OutOf(ps, qs, ts) && forall i :: 0 <= i < |ps| ==> ps[i].ss_usr_elems >= diff
    modifies ps`ss_usr_elems, qs`ss_usr_elems
    ensures t.ss_usr_elems == old(t.ss_usr_elems) - diff && q.ss_usr_elems == old(q.ss_usr_elems) + diff
    ensures forall i :: 0 <= i < |ts| && ts[i] != t && ts[i] != q ==> ts[i].ss_usr_elems == old(ts[i].ss_usr_elems)
    ensures |ps| == |qs| && forall i :: 0 <= i < |ps| ==>
      ps[i].ss_usr_elems == old(ps[i].ss_usr_elems) - diff && qs[i].ss_usr_elems == old(qs[i].ss_usr_elems) + diff
  {
    hide Meet, OutOf;
    MeetEnds(t, q, ps, qs);
    NotOnWay(t, q, ts, ps, qs);
    common := MoveUsrElems(t, q, diff, ps, qs);
  }

  /** sub_addsn. The counts of the moved slab go along both ways down, ps and qs. */
  method SubAddsn(l: Layer, t: Subslab, n: Slab, ghost j: nat, ghost d: nat, ghost ss: seq<Slab>, ghost sz: map<Slab, nat>,
                  ghost ps: seq<Subslab>, ghost qs: seq<Subslab>)
    returns (common: Subslab?, ghost diff: nat)
    requires Ready(l, n, ss) && Counted(l.subs, l.kids, n, ss, sz) && j + 1 < |l.subs| && t == l.subs[j]
    requires |l.kids[j]| == SUBELEM_MAX && |l.kids[j + 1]| < SUBELEM_MAX
    requires Ordered(l.kids[j]) && Splits(l.kids[j], n.s_max, d) && d < SUBELEM_MAX
    requires Meet(t, l.subs[j + 1], ps, qs) && OutOf(ps, qs, l.subs)
    requires forall i :: 0 <= i < |ps| ==> ps[i].ss_usr_elems >= t.ss_usr_elems
    modifies l`kids, l.subs`ss_min, l.subs`ss_max, l.subs`ss_elems, ps`ss_usr_elems, qs`ss_usr_elems
    modifies (set x <- l.subs :: x.ss_slabs), ss`s_below
    ensures l.Chain() && Below(l.subs, l.kids, ss)
    ensures l.kids == SpillNext(old(l.kids), j, d, n, SUBELEM_MAX)
    ensures Usr(l.subs, l.kids, sz) && (old(Ext(l.subs, l.kids, ss)) ==> Ext(l.subs, l.kids, ss))
    ensures diff <= old(t.ss_usr_elems) && forall i :: 0 <= i < |ps| ==>
      ps[i].ss_usr_elems == old(ps[i].ss_usr_elems) - diff && qs[i].ss_usr_elems == old(qs[i].ss_usr_elems) + diff
  {
    hide SubLinked, SubData, Below, Absent, NoDup, Flatten, Ordered, Splits, SumOf, Sized, SpillNext, Ext, Meet, OutOf;
    ghost var g, ts := l.kids, l.subs;
    EndsCounted(ts, g, ss, sz, j);
    MeetEnds(t, ts[j + 1], ps, qs);
    SubNeighbours(l, j);
    var snx, lst := MoveLastAndPut(l, t, n, j, d, ss);
    diff := lst.s_elems;
    common := MoveBetween(t, snx, lst.s_elems, ts, ps, qs);
    SpillNextUsr(ts, g, sz, j, d, n);
  }

  /** The pointer moves of sub_addsp: the first pointer of the full group j goes to the previous
      subslab, and n into the room it leaves. */
  method MoveFirstAndPut(l: Layer, t: Subslab, n: Slab, ghost j: nat, ghost d: nat, ghost ss: seq<Slab>) returns (spv: Subslab, fst: Slab)
    requires Ready(l, n, ss) && 0 < j < |l.subs| && t == l.subs[j]
    requires |l.kids[j]| == SUBELEM_MAX && 0 < |l.kids[j - 1]| < SUBELEM_MAX
    requires Ordered(l.kids[j]) && Splits(l.kids[j], n.s_max, d) && 0 < d <= SUBELEM_MAX
    requires Ordered(l.kids[j - 1]) && Splits(l.kids[j - 1], l.kids[j][0].s_max, |l.kids[j - 1]|)
    modifies l`kids, l.subs`ss_min, l.subs`ss_max, l.subs`ss_elems
    modifies (set x <- l.subs :: x.ss_slabs), ss`s_below
    ensures l.Chain() && Below(l.subs, l.kids, ss)
    ensures l.kids == SpillPrev(old(l.kids), j, d, n, SUBELEM_MAX)
    ensures old(Ext(l.subs, l.kids, ss)) ==> Ext(l.subs, l.kids, ss)
    ensures spv == l.subs[j - 1] && fst == old(l.kids)[j][0]
  {
    hide SubDistinct, SubLinked, SubData, Below, Absent, NoDup, Flatten, Ordered, Splits, InsertAt, Ext;
    hide Subslab.Kids;
    ghost var g := l.kids;
    ghost var x := g[j];
    ghost var cut := x[1..];
    SubNeighbours(l, j);
    InGroup(l.subs, g, ss, n, j, 0);
    AbsentCutFirst(g, j);
    SplitsCutFirst(x, n.s_max, d);
    spv := t.ss_prev;
    fst := l.CutFirst(t, j, ss);
    SubNeighbours(l, j);
    var i := 0;
    if spv.ss_elems > 0 {
      i := SubslabBinSrchTop(fst.s_max, spv, g[j - 1]);
      SplitsUnique(g[j - 1], fst.s_max, i, |g[j - 1]|);
    }
    var k := SubslabBinSrchTop(n.s_max, t, cut);
    SplitsUnique(cut, n.s_max, k, d - 1);
    l.PutSlab(spv, fst, i, j - 1, ss);
    InsertAtBack(g[j - 1], fst);
    AbsentMoved(g, n, j, j, fst, cut);
    AbsentMoved(g[j := cut], n, j, j - 1, fst, g[j - 1] + [fst]);
    l.PutSlab(t, n, k, j, ss);
  }

  /** sub_addsp. */
  method SubAddsp(l: Layer, t: Subslab, n: Slab, ghost j: nat, ghost d: nat, ghost ss: seq<Slab>, ghost sz: map<Slab, nat>,
                  ghost ps: seq<Subslab>, ghost qs: seq<Subslab>)
    returns (common: Subslab?, ghost diff: nat)
    requires Ready(l, n, ss) && Counted(l.subs, l.kids, n, ss, sz) && 0 < j < |l.subs| && t == l.subs[j]
    requires |l.kids[j]| == SUBELEM_MAX && 0 < |l.kids[j - 1]| < SUBELEM_MAX
    requires Ordered(l.kids[j]) && Splits(l.kids[j], n.s_max, d) && 0 < d <= SUBELEM_MAX
    requires Ordered(l.kids[j - 1]) && Splits(l.kids[j - 1], l.kids[j][0].s_max, |l.kids[j - 1]|)
    requires Meet(t, l.subs[j - 1], ps, qs) && OutOf(ps, qs, l.subs)
    requires forall i :: 0 <= i < |ps| ==> ps[i].ss_usr_elems >= t.ss_usr_elems
    modifies l`kids, l.subs`ss_min, l.subs`ss_max, l.subs`ss_elems, ps`ss_usr_elems, qs`ss_usr_elems
    modifies (set x <- l.subs :: x.ss_slabs), ss`s_below
    ensures l.Chain() && Below(l.subs, l.kids, ss)
    ensures l.kids == SpillPrev(old(l.kids), j, d, n, SUBELEM_MAX)
    ensures Usr(l.subs, l.kids, sz) && (old(Ext(l.subs, l.kids, ss)) ==> Ext(l.subs, l.kids, ss))
    ensures diff <= old(t.ss_usr_elems) && forall i :: 0 <= i < |ps| ==>
      ps[i].ss_usr_elems == old(ps[i].ss_usr_elems) - diff && qs[i].ss_usr_elems == old(qs[i].ss_usr_elems) + diff
  {
    hide SubLinked, SubData, Below, Absent, NoDup, Flatten, Ordered, Splits, SumOf, Sized, SpillPrev, Ext, Meet, OutOf;
    ghost var g, ts := l.kids, l.subs;
    EndsCounted(ts, g, ss, sz, j);
    MeetEnds(t, ts[j - 1], ps, qs);
    SubNeighbours(l, j);
    var spv, fst := MoveFirstAndPut(l, t, n, j, d, ss);
    diff := fst.s_elems;
    common := MoveBetween(t, spv, fst.s_elems, ts, ps, qs);
    SpillPrevUsr(ts, g, sz, j, d, n);
  }
}
