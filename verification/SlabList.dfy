/** The list handle and its top layer: a doubly linked chain of slabs, and the operations on one,
    two or three neighbours of it. */
module SlabList {
  import opened Seqs
  import opened SlabModel
  import opened AddModel
  import opened RemModel
  import opened SlabCore

  /** No slab and no element array occurs twice. */
  ghost predicate Distinct(ss: seq<Slab>) {
    forall i, j :: 0 <= i < j < |ss| ==> ss[i] != ss[j] && ss[i].s_arr != ss[j].s_arr
  }

  ghost predicate Apart(ss: seq<Slab>, s: Slab) {
    forall i :: 0 <= i < |ss| ==> ss[i] != s && ss[i].s_arr != s.s_arr
  }

  /** The slabs are linked both ways, in order, ending in null. */
  ghost predicate Linked(ss: seq<Slab>)
    reads ss`s_next, ss`s_prev
  {
    && (forall i {:trigger ss[i].s_next} :: 0 <= i < |ss| - 1 ==> ss[i].s_next == ss[i + 1])
    && (forall i {:trigger ss[i].s_prev} :: 1 <= i < |ss| ==> ss[i].s_prev == ss[i - 1])
    && (ss != [] ==> ss[0].s_prev == null && ss[|ss| - 1].s_next == null)
  }

  /** Each slab holds its block; with sorted set, the cached extrema are exact. */
  ghost predicate Data(ss: seq<Slab>, v: Blocks, sorted: bool)
    reads ss`s_elems, ss`s_min, ss`s_max, (set s <- ss :: s.s_arr)
  {
    && |v| == |ss|
    && (forall i :: 0 <= i < |ss| ==> ss[i].Holds(v[i]))
    && (sorted ==> forall i :: 0 <= i < |ss| ==> ss[i].Exact(v[i]))
  }

  ghost predicate SmlDistinct(ns: seq<SmallNode>) {
    forall i, j :: 0 <= i < j < |ns| ==> ns[i] != ns[j]
  }

  /** The nodes are linked in order, ending in null, and hold xs. */
  ghost predicate SmlChain(ns: seq<SmallNode>, xs: seq<int>)
    reads ns`sml_next, ns`sml_data
  {
    && |ns| == |xs|
    && (forall i {:trigger ns[i].sml_data} :: 0 <= i < |ns| ==> ns[i].sml_data == xs[i])
    && (forall i {:trigger ns[i].sml_next} :: 0 <= i < |ns| - 1 ==> ns[i].sml_next == ns[i + 1])
    && (ns != [] ==> ns[|ns| - 1].sml_next == null)
  }

  lemma {:induction false} DistinctInsert(ss: seq<Slab>, k: nat, s: Slab)
    requires Distinct(ss) && k <= |ss| && Apart(ss, s)
    ensures Distinct(InsertAt(ss, k, s))
  {
  }

  lemma {:induction false} DistinctDelete(ss: seq<Slab>, k: nat)
    requires Distinct(ss) && k < |ss|
    ensures Distinct(DeleteAt(ss, k)) && ss[k] !in DeleteAt(ss, k)
  {
  }

  /** The pointer writes of link_slab with SLAB_LINK_AFTER. */
  method PointAfter(s1: Slab, s2: Slab, ghost ss: seq<Slab>, ghost m: nat)
    requires Distinct(ss) && Linked(ss) && m < |ss| && s2 == ss[m] && Apart(ss, s1)
    modifies s1`s_next, s1`s_prev, s1`s_below, ss`s_next, ss`s_prev
    ensures Linked(InsertAt(ss, m + 1, s1))
    ensures s1.s_below == s2.s_below
    ensures s1.s_next == null <==> m + 1 == |ss|
  {
    s1.s_below := s2.s_below;
    s1.s_prev := s2;
    s1.s_next := s2.s_next;
    s2.s_next := s1;
    if s1.s_next != null {
      assert s1.s_next == ss[m + 1];
      s1.s_next.s_prev := s1;
    }
  }

  /** The pointer writes of link_slab with SLAB_LINK_BEFORE. */
  method PointBefore(s1: Slab, s2: Slab, ghost ss: seq<Slab>, ghost m: nat)
    requires Distinct(ss) && Linked(ss) && m < |ss| && s2 == ss[m] && Apart(ss, s1)
    modifies s1`s_next, s1`s_prev, s1`s_below, ss`s_next, ss`s_prev
    ensures Linked(InsertAt(ss, m, s1))
    ensures s1.s_below == s2.s_below
    ensures s2 == ss[0] <==> m == 0
  {
    s1.s_below := s2.s_below;
    s1.s_next := s2;
    s1.s_prev := s2.s_prev;
    s2.s_prev := s1;
    if s1.s_prev != null {
      assert s1.s_prev == ss[m - 1];
      s1.s_prev.s_next := s1;
    }
  }

  /** The pointer writes of unlink_slab. */
  method PointAround(s: Slab, ghost ss: seq<Slab>, ghost m: nat)
    requires Distinct(ss) && Linked(ss) && m < |ss| && s == ss[m]
    modifies ss`s_next, ss`s_prev
    ensures Linked(DeleteAt(ss, m))
    ensures s.s_next == if m + 1 < |ss| then ss[m + 1] else null
    ensures s.s_prev == if m > 0 then ss[m - 1] else null
    ensures s == ss[0] <==> m == 0
    ensures s == ss[|ss| - 1] <==> m + 1 == |ss|
  {
    if s.s_prev != null {
      assert s.s_prev == ss[m - 1];
      s.s_prev.s_next := s.s_next;
    }
    if s.s_next != null {
      assert s.s_next == ss[m + 1];
      s.s_next.s_prev := s.s_prev;
    }
  }

  /** Two neighbours are apart from each other and from all others. */
  lemma {:induction false} PairApart(ss: seq<Slab>, m: nat)
    requires Distinct(ss) && m + 1 < |ss|
    ensures ss[m] != ss[m + 1] && ss[m].s_arr != ss[m + 1].s_arr
    ensures forall i :: 0 <= i < |ss| && i != m && i != m + 1 ==>
      ss[i] != ss[m] && ss[i] != ss[m + 1] && ss[i].s_arr != ss[m].s_arr && ss[i].s_arr != ss[m + 1].s_arr
  {
  }

  lemma {:induction false} DataUpdate2(ss: seq<Slab>, v: Blocks, sorted: bool, m: nat, x: seq<int>, y: seq<int>)
    requires m + 1 < |ss| == |v|
    requires forall i :: 0 <= i < |ss| && i != m && i != m + 1 ==> ss[i].Holds(v[i]) && (sorted ==> ss[i].Exact(v[i]))
    requires ss[m].Holds(x) && ss[m + 1].Holds(y)
    requires sorted ==> ss[m].Exact(x) && ss[m + 1].Exact(y)
    ensures Data(ss, v[m := x][m + 1 := y], sorted)
  {
  }

  lemma {:induction false} DataInsert(ss: seq<Slab>, v: Blocks, sorted: bool, k: nat, s: Slab)
    requires Data(ss, v, sorted) && k <= |ss| && s.Holds([])
    ensures Data(InsertAt(ss, k, s), InsertAt(v, k, []), sorted)
  {
  }

  lemma {:induction false} DataDelete(ss: seq<Slab>, v: Blocks, sorted: bool, k: nat)
    requires Data(ss, v, sorted) && k < |ss|
    ensures Data(DeleteAt(ss, k), DeleteAt(v, k), sorted)
  {
  }

  /** slablist_t of a top layer. sl_head and sl_end are void pointers in the source; the small list
      and the slab list each have their own pair here. */
  class List {
    const sl_sorted: bool
    const sl_circular: bool
    var sl_head: Slab?
    var sl_end: Slab?
    var sml_head: SmallNode?
    var sml_end: SmallNode?
    var sl_slabs: nat
    var sl_elems: nat

    ghost var slabs: seq<Slab>
    ghost var view: Blocks
    ghost var nodes: seq<SmallNode>
    ghost var items: seq<int>

    constructor (sorted: bool, circular: bool)
      ensures sl_sorted == sorted && sl_circular == circular && sl_slabs == 0
      ensures Sml() && items == []
    {
      sl_sorted, sl_circular := sorted, circular;
      sl_head, sl_end, sml_head, sml_end := null, null, null, null;
      sl_slabs, sl_elems := 0, 0;
      slabs, view, nodes, items := [], [], [], [];
    }

    /** The singly linked list, its contents and the handle's knowledge of its ends. The end is
        meaningful only while there is a node. */
    ghost predicate Sml()
      reads this, nodes`sml_next, nodes`sml_data
    {
      && SmlChain(nodes, items) && SmlDistinct(nodes)
      && sl_elems == |nodes| == |items|
      && sml_head == (if nodes == [] then null else nodes[0])
      && (nodes != [] ==> sml_end == nodes[|nodes| - 1])
    }

    /** The chain of slabs, what they hold, and the handle's knowledge of its ends. */
    ghost predicate Top()
      reads this, slabs`s_next, slabs`s_prev, slabs`s_elems, slabs`s_min, slabs`s_max, (set s <- slabs :: s.s_arr)
    {
      && sl_slabs == |slabs| == |view| > 0
      && sl_head == slabs[0] && sl_end == slabs[|slabs| - 1]
      && Distinct(slabs) && Linked(slabs) && Data(slabs, view, sl_sorted)
    }

    /** add_elem on slab m. */
    method PutElem(s: Slab, e: int, i: nat, ghost m: nat)
      requires Top() && m < |slabs| && s == slabs[m] && i <= |view[m]| < SELEM_MAX
      modifies `view, s`s_min, s`s_max, s`s_elems, s.s_arr
      ensures Top() && view == old(view)[m := InsertAt(old(view)[m], i, e)]
    {
      s.AddElem(e, i, view[m]);
      view := view[m := InsertAt(view[m], i, e)];
    }

    method CutLast(s: Slab, ghost m: nat) returns (e: int)
      requires Top() && m < |slabs| && s == slabs[m] && |view[m]| > 1
      modifies `view, s`s_max, s`s_elems
      ensures Top() && view == old(view)[m := old(view)[m][..|old(view)[m]| - 1]]
      ensures e == Last(old(view)[m])
    {
      e := s.CutLast(view[m]);
      view := view[m := view[m][..|view[m]| - 1]];
    }

    method CutFirst(s: Slab, ghost m: nat) returns (e: int)
      requires Top() && m < |slabs| && s == slabs[m] && |view[m]| > 1
      modifies `view, s`s_min, s`s_elems, s.s_arr
      ensures Top() && view == old(view)[m := old(view)[m][1..]]
      ensures e == old(view)[m][0]
    {
      e := s.CutFirst(view[m]);
      view := view[m := view[m][1..]];
    }

    /** remove_elem on slab m. */
    method TakeElem(s: Slab, i: nat, ghost m: nat)
      requires Top() && m < |slabs| && s == slabs[m] && i < |view[m]|
      modifies `view, s`s_min, s`s_max, s`s_elems, s.s_arr
      ensures Top() && view == old(view)[m := DeleteAt(old(view)[m], i)]
    {
      s.RemoveElem(i, view[m]);
      view := view[m := DeleteAt(view[m], i)];
    }

    /** move_to_next from slab m. */
    method ShiftNext(s: Slab, sn: Slab, ghost m: nat)
      requires Top() && m + 1 < |slabs| && s == slabs[m] && sn == slabs[m + 1] && view[m + 1] != []
      modifies `view, s`s_min, s`s_max, s`s_elems, s.s_arr, sn`s_min, sn`s_max, sn`s_elems, sn.s_arr
      ensures Top() && view == MoveNext(old(view), m)
    {
      hide Linked, Distinct, Slab.Exact;
      PairApart(slabs, m);
      s.MoveToNext(sn, view[m], view[m + 1]);
      ghost var from := |view[m]| - Min(|view[m]|, FreeSpace(view[m + 1]));
      DataUpdate2(slabs, view, sl_sorted, m, view[m][..from], view[m][from..] + view[m + 1]);
      view := MoveNext(view, m);
    }

    /** move_to_prev from slab m. */
    method ShiftPrev(s: Slab, sp: Slab, ghost m: nat)
      requires Top() && 0 < m < |slabs| && s == slabs[m] && sp == slabs[m - 1]
      modifies `view, s`s_min, s`s_max, s`s_elems, s.s_arr, sp`s_min, sp`s_max, sp`s_elems, sp.s_arr
      ensures Top() && view == MovePrev(old(view), m)
    {
      hide Linked, Distinct, Slab.Exact;
      PairApart(slabs, m - 1);
      s.MoveToPrev(sp, view[m], view[m - 1]);
      ghost var cp := Min(|view[m]|, FreeSpace(view[m - 1]));
      DataUpdate2(slabs, view, sl_sorted, m - 1, view[m - 1] + view[m][..cp], view[m][cp..]);
      view := MovePrev(view, m);
    }

    /** link_slab with SLAB_LINK_AFTER: a new, empty slab behind slab m. */
    method LinkSlabAfter(s1: Slab, s2: Slab, ghost m: nat)
      requires Top() && m < |slabs| && s2 == slabs[m] && Apart(slabs, s1) && s1.Holds([])
      modifies `slabs, `view, `sl_slabs, `sl_end, s1`s_next, s1`s_prev, s1`s_below, slabs`s_next, slabs`s_prev
      ensures Top() && view == LinkAfter(old(view), m) && slabs == InsertAt(old(slabs), m + 1, s1)
      ensures s1.s_below == s2.s_below
    {
      hide Distinct, Linked, Data, InsertAt, Apart, Slab.Holds, Slab.Exact;
      ghost var ss, v := slabs, view;
      PointAfter(s1, s2, ss, m);
      if s1.s_next == null {
        sl_end := s1;
      }
      sl_slabs := sl_slabs + 1;
      slabs := InsertAt(ss, m + 1, s1);
      view := InsertAt(v, m + 1, []);
      DistinctInsert(ss, m + 1, s1);
      InsertAtEnds(ss, m + 1, s1);
      DataInsert(ss, v, sl_sorted, m + 1, s1);
    }

    /** link_slab with SLAB_LINK_BEFORE: a new, empty slab in front of slab m. */
    method LinkSlabBefore(s1: Slab, s2: Slab, ghost m: nat)
      requires Top() && m < |slabs| && s2 == slabs[m] && Apart(slabs, s1) && s1.Holds([])
      modifies `slabs, `view, `sl_slabs, `sl_head, s1`s_next, s1`s_prev, s1`s_below, slabs`s_next, slabs`s_prev
      ensures Top() && view == LinkBefore(old(view), m) && slabs == InsertAt(old(slabs), m, s1)
      ensures s1.s_below == s2.s_below
    {
      hide Distinct, Linked, Data, InsertAt, Apart, Slab.Holds, Slab.Exact;
      ghost var ss, v := slabs, view;
      PointBefore(s1, s2, ss, m);
      if s2 == sl_head {
        sl_head := s1;
      }
      sl_slabs := sl_slabs + 1;
      slabs := InsertAt(ss, m, s1);
      view := InsertAt(v, m, []);
      DistinctInsert(ss, m, s1);
      InsertAtEnds(ss, m, s1);
      DataInsert(ss, v, sl_sorted, m, s1);
    }

    /** unlink_slab of one of several slabs. */
    method UnlinkSlab(s: Slab, ghost m: nat)
      requires Top() && m < |slabs| && s == slabs[m] && |slabs| > 1
      modifies `slabs, `view, `sl_slabs, `sl_head, `sl_end, slabs`s_next, slabs`s_prev
      ensures Top() && view == Unlink(old(view), m) && slabs == DeleteAt(old(slabs), m)
      ensures s.s_next == if m + 1 < |old(slabs)| then old(slabs)[m + 1] else null
    {
      hide Distinct, Linked, Data, DeleteAt;
      ghost var ss, v := slabs, view;
      PointAround(s, ss, m);
      if s.s_prev != null && sl_end == s {
        sl_end := s.s_prev;
      }
      if s.s_next != null && sl_head == s {
        sl_head := s.s_next;
      }
      sl_slabs := sl_slabs - 1;
      slabs := DeleteAt(ss, m);
      view := DeleteAt(v, m);
      DistinctDelete(ss, m);
      DeleteAtEnds(ss, m);
      DataDelete(ss, v, sl_sorted, m);
    }
  }
}
