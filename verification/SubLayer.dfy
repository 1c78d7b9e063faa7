/** The handle of a sublayer and its chain of subslabs: the operations on one, two or three
    neighbours of it. */
module SubLayer {
  import opened Seqs
  import opened SlabModel
  import opened Groups
  import opened AddModel
  import opened IndexModel
  import opened SlabCore

  ghost predicate SubDistinct(ts: seq<Subslab>) {
    forall i, j :: 0 <= i < j < |ts| ==> ts[i] != ts[j] && ts[i].ss_slabs != ts[j].ss_slabs && ts[i].ss_subs != ts[j].ss_subs
  }

  ghost predicate SubApart(ts: seq<Subslab>, t: Subslab) {
    forall i :: 0 <= i < |ts| ==> ts[i] != t && ts[i].ss_slabs != t.ss_slabs && ts[i].ss_subs != t.ss_subs
  }

  ghost predicate SubLinked(ts: seq<Subslab>)
    reads ts`ss_next, ts`ss_prev
  {
    && (forall i {:trigger ts[i].ss_next} :: 0 <= i < |ts| - 1 ==> ts[i].ss_next == ts[i + 1])
    && (forall i {:trigger ts[i].ss_prev} :: 1 <= i < |ts| ==> ts[i].ss_prev == ts[i - 1])
    && (ts != [] ==> ts[0].ss_prev == null && ts[|ts| - 1].ss_next == null)
  }

  /** Each subslab holds its group of slab pointers. */
  ghost predicate SubData(ts: seq<Subslab>, g: seq<seq<Slab>>)
    reads ts`ss_elems, set t <- ts :: t.ss_slabs
  {
    |g| == |ts| && forall j :: 0 <= j < |ts| ==> ts[j].Kids(g[j])
  }

  /** Every slab of a group points back at the subslab that holds it. */
  ghost predicate Below(ts: seq<Subslab>, g: seq<seq<Slab>>, ss: seq<Slab>)
    reads ss`s_below
  {
    |g| == |ts| && forall j, k {:trigger g[j][k]} :: 0 <= j < |g| && 0 <= k < |g[j]| ==>
      g[j][k] in ss && g[j][k].s_below == ts[j]
  }

  ghost predicate ExtAt(t: Subslab, ks: seq<Slab>, ss: seq<Slab>)
    reads t`ss_min, t`ss_max, ss`s_min, ss`s_max
  {
    ks != [] ==> ks[0] in ss && ks[|ks| - 1] in ss && t.ss_min == ks[0].s_min && t.ss_max == ks[|ks| - 1].s_max
  }

  /** The cached extrema of every subslab are those of the slabs at the ends of its group. */
  ghost predicate Ext(ts: seq<Subslab>, g: seq<seq<Slab>>, ss: seq<Slab>)
    reads ts`ss_min, ts`ss_max, ss`s_min, ss`s_max
  {
    |g| == |ts| && forall j :: 0 <= j < |ts| ==> ExtAt(ts[j], g[j], ss)
  }

  lemma {:induction false} SubDistinctInsert(ts: seq<Subslab>, k: nat, t: Subslab)
    requires SubDistinct(ts) && k <= |ts| && SubApart(ts, t)
    ensures SubDistinct(InsertAt(ts, k, t))
  {
  }

  lemma {:induction false} SubDataInsert(ts: seq<Subslab>, g: seq<seq<Slab>>, k: nat, t: Subslab)
    requires SubData(ts, g) && k <= |ts| && t.Kids([])
    ensures SubData(InsertAt(ts, k, t), InsertAt(g, k, []))
  {
  }

  lemma {:induction false} BelowInsert(ts: seq<Subslab>, g: seq<seq<Slab>>, ss: seq<Slab>, i: nat, t: Subslab)
    requires Below(ts, g, ss) && i <= |ts|
    ensures Below(InsertAt(ts, i, t), InsertAt(g, i, []), ss)
  {
    var h := InsertAt(g, i, []);
    assert forall j :: 0 <= j < |h| ==> h[j] == if j < i then g[j] else if j == i then [] else g[j - 1];
  }

  lemma {:induction false} ExtInsert(ts: seq<Subslab>, g: seq<seq<Slab>>, ss: seq<Slab>, i: nat, t: Subslab)
    requires Ext(ts, g, ss) && i <= |ts|
    ensures Ext(InsertAt(ts, i, t), InsertAt(g, i, []), ss)
  {
  }

  lemma {:induction false} SubDataUpdate(ts: seq<Subslab>, g: seq<seq<Slab>>, j: nat, ks: seq<Slab>)
    requires j < |ts| == |g| && ts[j].Kids(ks)
    requires forall i :: 0 <= i < |ts| && i != j ==> ts[i].Kids(g[i])
    ensures SubData(ts, g[j := ks])
  {
    hide Subslab.Kids;
  }

  lemma {:induction false} ExtUpdate(ts: seq<Subslab>, g: seq<seq<Slab>>, ss: seq<Slab>, j: nat, ks: seq<Slab>)
    requires j < |ts| == |g| && ExtAt(ts[j], ks, ss)
    requires forall i :: 0 <= i < |ts| && i != j ==> ExtAt(ts[i], g[i], ss)
    ensures Ext(ts, g[j := ks], ss)
  {
    hide ExtAt;
  }

  /** The pointer writes of link_subslab with SLAB_LINK_AFTER. */
  method SubPointAfter(t1: Subslab, t2: Subslab, ghost ts: seq<Subslab>, ghost m: nat)
    requires SubDistinct(ts) && SubLinked(ts) && m < |ts| && t2 == ts[m] && SubApart(ts, t1)
    modifies t1`ss_next, t1`ss_prev, t1`ss_below, ts`ss_next, ts`ss_prev
    ensures SubLinked(InsertAt(ts, m + 1, t1))
    ensures t1.ss_below == t2.ss_below
  {
    t1.ss_below := t2.ss_below;
    t1.ss_prev := t2;
    t1.ss_next := t2.ss_next;
    t2.ss_next := t1;
    if t1.ss_next != null {
      assert t1.ss_next == ts[m + 1];
      t1.ss_next.ss_prev := t1;
    }
  }

  /** The pointer writes of link_subslab with SLAB_LINK_BEFORE. */
  method SubPointBefore(t1: Subslab, t2: Subslab, ghost ts: seq<Subslab>, ghost m: nat)
    requires SubDistinct(ts) && SubLinked(ts) && m < |ts| && t2 == ts[m] && SubApart(ts, t1)
    modifies t1`ss_next, t1`ss_prev, t1`ss_below, ts`ss_next, ts`ss_prev
    ensures SubLinked(InsertAt(ts, m, t1))
    ensures t1.ss_below == t2.ss_below
    ensures t2 == ts[0] <==> m == 0
  {
    t1.ss_below := t2.ss_below;
    t1.ss_next := t2;
    t1.ss_prev := t2.ss_prev;
    t2.ss_prev := t1;
    if t1.ss_prev != null {
      assert t1.ss_prev == ts[m - 1];
      t1.ss_prev.ss_next := t1;
    }
  }

  /** slablist_t of a sublayer. Its sl_end is a stale copy of the superlayer's and is not modelled. */
  class Layer {
    var sl_head: Subslab?
    var sl_slabs: nat

    ghost var subs: seq<Subslab>
    ghost var kids: seq<seq<Slab>>            // the groups of a first sublayer
    ghost var subkids: seq<seq<Subslab>>      // the groups of a deeper one

    constructor ()
      ensures sl_head == null && sl_slabs == 0 && subs == [] && kids == [] && subkids == []
    {
      sl_head, sl_slabs := null, 0;
      subs, kids, subkids := [], [], [];
    }

    /** The chain of subslabs and the groups of slabs they hold. */
    ghost predicate Chain()
      reads this, subs`ss_next, subs`ss_prev, subs`ss_elems, set t <- subs :: t.ss_slabs
    {
      && sl_slabs == |subs| == |kids| > 0 && sl_head == subs[0]
      && SubDistinct(subs) && SubLinked(subs) && SubData(subs, kids)
    }

    /** add_slab into group j. */
    method PutSlab(t: Subslab, n: Slab, i: nat, ghost j: nat, ghost ss: seq<Slab>)
      requires Chain() && j < |subs| && t == subs[j] && i <= |kids[j]| < SUBELEM_MAX
      requires Below(subs, kids, ss) && n in ss && Absent(kids, n)
      modifies `kids, t`ss_min, t`ss_max, t`ss_elems, t.ss_slabs, n`s_below
      ensures Chain() && kids == old(kids)[j := InsertAt(old(kids)[j], i, n)]
      ensures old(Ext(subs, kids, ss)) ==> Ext(subs, kids, ss)
      ensures Below(subs, kids, ss)
    {
      hide SubLinked, Subslab.Kids;
      assert forall i :: 0 <= i < |subs| && i != j ==> subs[i] != t && subs[i].ss_slabs != t.ss_slabs && subs[i].Kids(kids[i]);
      ghost var ks := kids[j];
      t.AddSlab(n, i, ks);
      BelowPut(subs, kids, ss, j, i, n);
      SubDataUpdate(subs, kids, j, InsertAt(ks, i, n));
      if old(Ext(subs, kids, ss)) {
        InsertAtEnds(ks, i, n);
        ExtUpdate(subs, kids, ss, j, InsertAt(ks, i, n));
      }
      kids := kids[j := InsertAt(kids[j], i, n)];
    }

    /** Takes the last pointer off the full group j. */
    method CutLast(t: Subslab, ghost j: nat, ghost ss: seq<Slab>) returns (n: Slab)
      requires Chain() && j < |subs| && t == subs[j] && |kids[j]| > 1 && Below(subs, kids, ss)
      modifies `kids, t`ss_max, t`ss_elems
      ensures Chain() && kids == old(kids)[j := old(kids)[j][..|old(kids)[j]| - 1]]
      ensures old(Ext(subs, kids, ss)) ==> Ext(subs, kids, ss)
      ensures n == old(kids)[j][|old(kids)[j]| - 1] && Below(subs, kids, ss)
    {
      hide SubLinked, Subslab.Kids;
      assert forall i :: 0 <= i < |subs| && i != j ==> subs[i] != t && subs[i].ss_slabs != t.ss_slabs && subs[i].Kids(kids[i]);
      ghost var ks := kids[j];
      n := t.CutLastSlab(ks);
      SubDataUpdate(subs, kids, j, ks[..|ks| - 1]);
      if old(Ext(subs, kids, ss)) {
        ExtUpdate(subs, kids, ss, j, ks[..|ks| - 1]);
      }
      kids := kids[j := kids[j][..|kids[j]| - 1]];
    }

    /** Takes the first pointer off the full group j. */
    method CutFirst(t: Subslab, ghost j: nat, ghost ss: seq<Slab>) returns (n: Slab)
      requires Chain() && j < |subs| && t == subs[j] && |kids[j]| > 1 && Below(subs, kids, ss)
      modifies `kids, t`ss_min, t`ss_elems, t.ss_slabs
      ensures Chain() && kids == old(kids)[j := old(kids)[j][1..]]
      ensures old(Ext(subs, kids, ss)) ==> Ext(subs, kids, ss)
      ensures n == old(kids)[j][0] && Below(subs, kids, ss)
    {
      hide SubLinked, Subslab.Kids;
      assert forall i :: 0 <= i < |subs| && i != j ==> subs[i] != t && subs[i].ss_slabs != t.ss_slabs && subs[i].Kids(kids[i]);
      ghost var ks := kids[j];
      n := t.CutFirstSlab(ks);
      SubDataUpdate(subs, kids, j, ks[1..]);
      if old(Ext(subs, kids, ss)) {
        ExtUpdate(subs, kids, ss, j, ks[1..]);
      }
      kids := kids[j := kids[j][1..]];
    }

    /** link_subslab with SLAB_LINK_AFTER: a new, empty subslab behind subslab j. */
    method LinkSubslabAfter(nt: Subslab, t: Subslab, ghost j: nat, ghost ss: seq<Slab>)
      requires Chain() && j < |subs| && t == subs[j] && Below(subs, kids, ss) && SubApart(subs, nt) && nt.Kids([])
      modifies `subs, `kids, `sl_slabs, nt`ss_next, nt`ss_prev, nt`ss_below, subs`ss_next, subs`ss_prev
      ensures Chain() && kids == LinkAfter(old(kids), j) && subs == InsertAt(old(subs), j + 1, nt)
      ensures nt.ss_below == t.ss_below && Below(subs, kids, ss)
      ensures old(Ext(subs, kids, ss)) ==> Ext(subs, kids, ss)
    {
      hide SubDistinct, SubLinked, SubData, Below, InsertAt, Ext, SubApart, Subslab.Kids;
      ghost var ts, g := subs, kids;
      SubPointAfter(nt, t, ts, j);
      sl_slabs := sl_slabs + 1;
      subs := InsertAt(ts, j + 1, nt);
      kids := InsertAt(g, j + 1, []);
      InsertAtEnds(ts, j + 1, nt);
      SubDistinctInsert(ts, j + 1, nt);
      SubDataInsert(ts, g, j + 1, nt);
      BelowInsert(ts, g, ss, j + 1, nt);
      if old(Ext(subs, kids, ss)) {
        ExtInsert(ts, g, ss, j + 1, nt);
      }
    }

    /** link_subslab with SLAB_LINK_BEFORE: a new, empty subslab in front of subslab j. */
    method LinkSubslabBefore(nt: Subslab, t: Subslab, ghost j: nat, ghost ss: seq<Slab>)
      requires Chain() && j < |subs| && t == subs[j] && Below(subs, kids, ss) && SubApart(subs, nt) && nt.Kids([])
      modifies `subs, `kids, `sl_slabs, `sl_head, nt`ss_next, nt`ss_prev, nt`ss_below, subs`ss_next, subs`ss_prev
      ensures Chain() && kids == LinkBefore(old(kids), j) && subs == InsertAt(old(subs), j, nt)
      ensures nt.ss_below == t.ss_below && Below(subs, kids, ss)
      ensures old(Ext(subs, kids, ss)) ==> Ext(subs, kids, ss)
    {
      hide SubDistinct, SubLinked, SubData, Below, InsertAt, Ext, SubApart, Subslab.Kids;
      ghost var ts, g := subs, kids;
      SubPointBefore(nt, t, ts, j);
      if t == sl_head {
        sl_head := nt;
      }
      sl_slabs := sl_slabs + 1;
      subs := InsertAt(ts, j, nt);
      kids := InsertAt(g, j, []);
      InsertAtEnds(ts, j, nt);
      SubDistinctInsert(ts, j, nt);
      SubDataInsert(ts, g, j, nt);
      BelowInsert(ts, g, ss, j, nt);
      if old(Ext(subs, kids, ss)) {
        ExtInsert(ts, g, ss, j, nt);
      }
    }

    /** mk_subslab and link_subslab behind subslab j. */
    method MkSubslabAfter(t: Subslab, ghost j: nat, ghost ss: seq<Slab>) returns (nt: Subslab)
      requires Chain() && j < |subs| && t == subs[j] && Below(subs, kids, ss)
      modifies `subs, `kids, `sl_slabs, subs`ss_next, subs`ss_prev
      ensures Chain() && kids == LinkAfter(old(kids), j) && subs == InsertAt(old(subs), j + 1, nt)
      ensures fresh(nt) && fresh(nt.ss_slabs) && fresh(nt.ss_subs) && nt.ss_usr_elems == 0 && nt.ss_below == t.ss_below
      ensures Below(subs, kids, ss)
      ensures old(Ext(subs, kids, ss)) ==> Ext(subs, kids, ss)
      ensures subs[j] == t && subs[j + 1] == nt
      ensures forall k :: 0 <= k < |subs| ==> subs[k] in old(subs) || subs[k] == nt
    {
      hide SubDistinct, SubLinked, SubData, Below, InsertAt, Ext;
      nt := new Subslab();
      InsertAtMembers(subs, j + 1, nt);
      LinkSubslabAfter(nt, t, j, ss);
    }

    /** mk_subslab and link_subslab in front of subslab j. */
    method MkSubslabBefore(t: Subslab, ghost j: nat, ghost ss: seq<Slab>) returns (nt: Subslab)
      requires Chain() && j < |subs| && t == subs[j] && Below(subs, kids, ss)
      modifies `subs, `kids, `sl_slabs, `sl_head, subs`ss_next, subs`ss_prev
      ensures Chain() && kids == LinkBefore(old(kids), j) && subs == InsertAt(old(subs), j, nt)
      ensures fresh(nt) && fresh(nt.ss_slabs) && fresh(nt.ss_subs) && nt.ss_usr_elems == 0 && nt.ss_below == t.ss_below
      ensures Below(subs, kids, ss)
      ensures old(Ext(subs, kids, ss)) ==> Ext(subs, kids, ss)
      ensures subs[j + 1] == t && subs[j] == nt
      ensures forall k :: 0 <= k < |subs| ==> subs[k] in old(subs) || subs[k] == nt
    {
      hide SubDistinct, SubLinked, SubData, Below, InsertAt, Ext;
      nt := new Subslab();
      InsertAtMembers(subs, j, nt);
      LinkSubslabBefore(nt, t, j, ss);
    }
  }

  /** What the links and counts of subslab j tell about it and its neighbours. */
  lemma SubNeighbours(l: Layer, j: nat)
    requires l.Chain() && j < |l.subs|
    ensures l.subs[j].Kids(l.kids[j]) && l.subs[j].ss_elems == |l.kids[j]| <= SUBELEM_MAX
    ensures l.subs[j].ss_next == if j + 1 < |l.subs| then l.subs[j + 1] else null
    ensures l.subs[j].ss_prev == if j > 0 then l.subs[j - 1] else null
    ensures j + 1 < |l.subs| ==> l.subs[j + 1].ss_elems == |l.kids[j + 1]| <= SUBELEM_MAX
    ensures j > 0 ==> l.subs[j - 1].ss_elems == |l.kids[j - 1]| <= SUBELEM_MAX
    ensures j + 1 < |l.subs| ==> l.subs[j + 1].Kids(l.kids[j + 1]) && l.subs[j + 1] != l.subs[j]
    ensures j > 0 ==> l.subs[j - 1].Kids(l.kids[j - 1]) && l.subs[j - 1] != l.subs[j]
  {
  }

  lemma BelowPut(ts: seq<Subslab>, g: seq<seq<Slab>>, ss: seq<Slab>, j: nat, i: nat, n: Slab)
    requires j < |g| == |ts| && i <= |g[j]| && n in ss && n.s_below == ts[j]
    requires forall a, b {:trigger g[a][b]} :: 0 <= a < |g| && 0 <= b < |g[a]| ==> g[a][b] in ss && g[a][b].s_below == ts[a]
    ensures Below(ts, g[j := InsertAt(g[j], i, n)], ss)
  {
    var h := g[j := InsertAt(g[j], i, n)];
    forall a, b | 0 <= a < |h| && 0 <= b < |h[a]| ensures h[a][b] in ss && h[a][b].s_below == ts[a] {
      if a == j && b < i {
        assert h[a][b] == g[a][b];
      } else if a == j && b > i {
        assert h[a][b] == g[a][b - 1];
      } else if a != j {
        assert h[a][b] == g[a][b];
      }
    }
  }
}
