/** slablist_add.c, the top layer: adding an element to a chain of slabs. */
module SlabAdd {
  import opened Seqs
  import opened SlabModel
  import opened AddModel
  import opened RemModel
  import opened SlabCore
  import opened SlabList
  import opened SlabFind

  /** How an element was added; AC_HOW_* in the source. */
  datatype How = Into | SpNx | SpPv | Before | After | Edup

  /** The new slab, if any, stands at index k. */
  ghost predicate Grown(was: seq<Slab>, now: seq<Slab>, ns: Slab?, k: nat) {
    if ns == null then now == was else k <= |was| && now == InsertAt<Slab>(was, k, ns)
  }

  /** w is v with one more element in slab c; slab o may have passed one on, all others are as before. */
  ghost predicate Gains(v: Blocks, w: Blocks, c: nat, o: nat) {
    && |w| == |v| && c < |v| && o < |v| && |w[c]| == |v[c]| + 1 && (o != c ==> |w[o]| == |v[o]|)
    && forall k :: 0 <= k < |v| && k != c && k != o ==> w[k] == v[k]
  }

  /** Index of the slab that has one element more than before, when slab m was found. */
  function Recipient(how: How, m: nat, made: bool): int {
    match how
    case Into => m
    case SpNx => m + 1
    case After => m + 1
    case SpPv => m - 1
    case Before => if made then m else m - 1
    case Edup => m
  }

  /** Index at which the found slab m stands afterwards. */
  function StaysAt(how: How, m: nat, made: bool): int {
    if how == Before && made then m + 1 else m
  }

  /** Which slabs an addition touched; a new slab was empty before. */
  ghost predicate HowView(v: Blocks, w: Blocks, m: nat, how: How, made: bool, at: nat) {
    var c, o := Recipient(how, m, made), StaysAt(how, m, made);
    0 <= c && 0 <= o && at <= |v| && Gains(if made then InsertAt(v, at, []) else v, w, c, o)
  }

  lemma {:induction false} PutGains(v: Blocks, c: nat, o: nat, i: nat, e: int)
    requires c < |v| && o < |v| && i <= |v[c]|
    ensures Gains(v, v[c := InsertAt(v[c], i, e)], c, o)
  {
  }

  lemma {:induction false} SpillNextGains(v: Blocks, m: nat, i: nat, e: int)
    requires m + 1 < |v| && |v[m]| == SELEM_MAX && i < SELEM_MAX
    ensures Gains(v, SpillNext(v, m, i, e, SELEM_MAX), m + 1, m)
  {
    hide InsertAt;
  }

  lemma {:induction false} SpillPrevGains(v: Blocks, m: nat, i: nat, e: int)
    requires 0 < m < |v| && |v[m]| == SELEM_MAX && i <= SELEM_MAX
    ensures Gains(v, SpillPrev(v, m, i, e, SELEM_MAX), m - 1, m)
  {
    hide InsertAt;
  }

  /** What the links and counts of slab m tell about it and its neighbours. */
  lemma Neighbours(sl: List, m: nat)
    requires sl.Top() && m < |sl.slabs|
    ensures sl.slabs[m].Holds(sl.view[m]) && sl.slabs[m].s_elems == |sl.view[m]| <= SELEM_MAX
    ensures sl.slabs[m].s_arr.Length == SELEM_MAX
    ensures forall i :: 0 <= i < |sl.view[m]| ==> sl.slabs[m].s_arr[i] == sl.view[m][i]
    ensures sl.slabs[m].s_next == if m + 1 < |sl.slabs| then sl.slabs[m + 1] else null
    ensures sl.slabs[m].s_prev == if m > 0 then sl.slabs[m - 1] else null
    ensures m + 1 < |sl.slabs| ==> sl.slabs[m + 1].s_elems == |sl.view[m + 1]| <= SELEM_MAX
    ensures m > 0 ==> sl.slabs[m - 1].s_elems == |sl.view[m - 1]| <= SELEM_MAX
  {
    var s, x := sl.slabs[m], sl.view[m];
    assert s.Holds(x);
    assert forall i :: 0 <= i < |x| ==> s.s_arr[i] == s.s_arr[..|x|][i];
  }

  /** addsn: spills the maximum of the full slab m into the next slab. */
  method Addsn(sl: List, s: Slab, elem: int, i: nat, ghost m: nat)
    requires sl.Top() && m + 1 < |sl.slabs| && s == sl.slabs[m]
    requires |sl.view[m]| == SELEM_MAX && |sl.view[m + 1]| < SELEM_MAX && i < SELEM_MAX
    modifies sl`view, sl.slabs`s_min, sl.slabs`s_max, sl.slabs`s_elems, set x <- sl.slabs :: x.s_arr
    ensures sl.Top() && sl.view == SpillNext(old(sl.view), m, i, elem, SELEM_MAX)
  {
    hide Distinct, Linked, Data, Slab.Holds, InsertAt;
    ghost var v := sl.view;
    Neighbours(sl, m);
    var snx := s.s_next;
    var last := sl.CutLast(s, m);
    var q := i;
    if q > SELEM_MAX - 1 {
      q := q - 1;
    }
    sl.PutElem(snx, last, 0, m + 1);
    sl.PutElem(s, elem, q, m);
    InsertAtFront(v[m + 1], last);
  }

  /** addsp: spills the minimum of the full slab m into the previous slab. */
  method Addsp(sl: List, s: Slab, elem: int, i: nat, ghost m: nat)
    requires sl.Top() && 0 < m < |sl.slabs| && s == sl.slabs[m]
    requires |sl.view[m]| == SELEM_MAX && |sl.view[m - 1]| < SELEM_MAX && i <= SELEM_MAX
    modifies sl`view, sl.slabs`s_min, sl.slabs`s_max, sl.slabs`s_elems, set x <- sl.slabs :: x.s_arr
    ensures sl.Top() && sl.view == SpillPrev(old(sl.view), m, i, elem, SELEM_MAX)
  {
    hide Distinct, Linked, Data, Slab.Holds, InsertAt;
    ghost var v := sl.view;
    Neighbours(sl, m);
    var spv := s.s_prev;
    var j := spv.s_elems;
    var first := sl.CutFirst(s, m);
    sl.PutElem(spv, first, j, m - 1);
    var q := i;
    if q > 0 {
      q := q - 1;
    }
    sl.PutElem(s, elem, q, m);
    InsertAtBack(v[m - 1], first);
  }

  /** mk_slab and link_slab behind slab m. */
  method MkSlabAfter(sl: List, s: Slab, ghost m: nat) returns (ns: Slab)
    requires sl.Top() && m < |sl.slabs| && s == sl.slabs[m]
    modifies sl`slabs, sl`view, sl`sl_slabs, sl`sl_end, sl.slabs`s_next, sl.slabs`s_prev
    ensures sl.Top() && sl.view == LinkAfter(old(sl.view), m) && sl.slabs == InsertAt(old(sl.slabs), m + 1, ns)
    ensures fresh(ns) && fresh(ns.s_arr) && ns.s_below == s.s_below
    ensures sl.slabs[m] == s && sl.slabs[m + 1] == ns && forall k :: 0 <= k < |sl.slabs| ==> sl.slabs[k] in old(sl.slabs) || sl.slabs[k] == ns
  {
    hide Distinct, Linked, Data, InsertAt;
    ns := new Slab();
    assert ns.s_arr[..0] == [];
    InsertAtMembers(sl.slabs, m + 1, ns);
    sl.LinkSlabAfter(ns, s, m);
  }

  /** mk_slab and link_slab in front of slab m. */
  method MkSlabBefore(sl: List, s: Slab, ghost m: nat) returns (ns: Slab)
    requires sl.Top() && m < |sl.slabs| && s == sl.slabs[m]
    modifies sl`slabs, sl`view, sl`sl_slabs, sl`sl_head, sl.slabs`s_next, sl.slabs`s_prev
    ensures sl.Top() && sl.view == LinkBefore(old(sl.view), m) && sl.slabs == InsertAt(old(sl.slabs), m, ns)
    ensures fresh(ns) && fresh(ns.s_arr) && ns.s_below == s.s_below
    ensures sl.slabs[m] == ns && forall k :: 0 <= k < |sl.slabs| ==> sl.slabs[k] in old(sl.slabs) || sl.slabs[k] == ns
  {
    hide Distinct, Linked, Data, InsertAt;
    ns := new Slab();
    assert ns.s_arr[..0] == [];
    InsertAtMembers(sl.slabs, m, ns);
    sl.LinkSlabBefore(ns, s, m);
  }

  lemma NotInUnless(x: seq<int>, e: int)
    requires StrictlySorted(x) && x != [] && e <= Last(x)
    ensures LowerBound(x, e) < |x| && (x[LowerBound(x, e)] == e <==> e in x)
  {
  }

  ghost predicate RoomIn(v: Blocks, j: int) {
    0 <= j < |v| && |v[j]| < SELEM_MAX
  }

  /** What the guards of gen_add_ira choose between, and which slabs each choice touches. */
  lemma {:induction false} InRangeCases(v: Blocks, m: nat, e: int)
    requires m < |v| && SizesOk(v)
    requires var i := LowerBound(v[m], e); i < |v[m]| && v[m][i] != e
    ensures var i, w := LowerBound(v[m], e), AddInRange(v, m, e);
      && (RoomIn(v, m) ==> w == v[m := InsertAt(v[m], i, e)] && HowView(v, w, m, Into, false, m + 1))
      && (!RoomIn(v, m) ==> |v[m]| == SELEM_MAX)
      && (!RoomIn(v, m) && RoomIn(v, m + 1) ==>
            w == SpillNext(v, m, i, e, SELEM_MAX) && HowView(v, w, m, SpNx, false, m + 1))
      && (!RoomIn(v, m) && !RoomIn(v, m + 1) && RoomIn(v, m - 1) ==>
            w == SpillPrev(v, m, i, e, SELEM_MAX) && HowView(v, w, m, SpPv, false, m + 1))
      && (!RoomIn(v, m) && !RoomIn(v, m + 1) && !RoomIn(v, m - 1) ==>
            w == SpillNext(LinkAfter(v, m), m, i, e, SELEM_MAX) && HowView(v, w, m, SpNx, true, m + 1))
  {
    hide SpillNext, SpillPrev, InsertAt, LowerBound, Gains;
    var i := LowerBound(v[m], e);
    if RoomIn(v, m) {
      PutGains(v, m, m, i, e);
    } else if RoomIn(v, m + 1) {
      SpillNextGains(v, m, i, e);
    } else if RoomIn(v, m - 1) {
      SpillPrevGains(v, m, i, e);
    } else {
      LinkAfterParts(v, m);
      SpillNextGains(LinkAfter(v, m), m, i, e);
    }
  }

  /** What gen_add_ura chooses between. */
  lemma {:induction false} UnderCases(v: Blocks, m: nat, e: int)
    requires m < |v| && SizesOk(v) && e < v[m][0]
    ensures var i, w := LowerBound(v[m], e), AddUnder(v, m, e);
      && i == 0
      && (RoomIn(v, m) ==> w == v[m := InsertAt(v[m], i, e)] && HowView(v, w, m, Into, false, m))
      && (!RoomIn(v, m) ==> |v[m]| == SELEM_MAX)
      && (!RoomIn(v, m) && RoomIn(v, m - 1) ==>
            w == v[m - 1 := InsertAt(v[m - 1], LowerBound(v[m - 1], e), e)] && HowView(v, w, m, Before, false, m))
      && (!RoomIn(v, m) && !RoomIn(v, m - 1) && RoomIn(v, m + 1) ==>
            w == SpillNext(v, m, i, e, SELEM_MAX) && HowView(v, w, m, SpNx, false, m))
      && (!RoomIn(v, m) && !RoomIn(v, m - 1) && !RoomIn(v, m + 1) ==>
            w == LinkBefore(v, m)[m := [e]] && HowView(v, w, m, Before, true, m))
  {
    hide SpillNext, InsertAt, Gains;
    if RoomIn(v, m) {
      PutGains(v, m, m, 0, e);
    } else if RoomIn(v, m - 1) {
      PutGains(v, m - 1, m, LowerBound(v[m - 1], e), e);
    } else if RoomIn(v, m + 1) {
      SpillNextGains(v, m, 0, e);
    } else {
      InsertAtMembers(v, m, []);
      InsertIntoEmpty(e);
      PutGains(LinkBefore(v, m), m, m + 1, 0, e);
    }
  }

  /** What gen_add_ora chooses between. */
  lemma {:induction false} OverCases(v: Blocks, m: nat, e: int)
    requires m < |v| && SizesOk(v)
    ensures var i, w := LowerBound(v[m], e), AddOver(v, m, e);
      && (RoomIn(v, m) ==> w == v[m := InsertAt(v[m], i, e)] && HowView(v, w, m, Into, false, m + 1))
      && (!RoomIn(v, m) ==> |v[m]| == SELEM_MAX)
      && (!RoomIn(v, m) && RoomIn(v, m + 1) ==>
            w == v[m + 1 := InsertAt(v[m + 1], LowerBound(v[m + 1], e), e)] && HowView(v, w, m, After, false, m + 1))
      && (!RoomIn(v, m) && !RoomIn(v, m + 1) && RoomIn(v, m - 1) ==>
            w == SpillPrev(v, m, i, e, SELEM_MAX) && HowView(v, w, m, SpPv, false, m + 1))
      && (!RoomIn(v, m) && !RoomIn(v, m + 1) && !RoomIn(v, m - 1) ==>
            w == LinkAfter(v, m)[m + 1 := [e]] && HowView(v, w, m, After, true, m + 1))
  {
    hide SpillPrev, InsertAt, LowerBound, Gains;
    var i := LowerBound(v[m], e);
    if RoomIn(v, m) {
      PutGains(v, m, m, i, e);
    } else if RoomIn(v, m + 1) {
      PutGains(v, m + 1, m, LowerBound(v[m + 1], e), e);
    } else if RoomIn(v, m - 1) {
      SpillPrevGains(v, m, i, e);
    } else {
      LinkAfterParts(v, m);
      InsertIntoEmpty(e);
      PutGains(LinkAfter(v, m), m + 1, m, 0, e);
    }
  }

  /** A new slab behind the full slab m takes its maximum, and elem goes into the room left. */
  method AddsnNew(sl: List, s: Slab, elem: int, i: nat, ghost m: nat) returns (ns: Slab)
    requires sl.Top() && m < |sl.slabs| && s == sl.slabs[m] && |sl.view[m]| == SELEM_MAX && i < SELEM_MAX
    modifies sl`view, sl`slabs, sl`sl_slabs, sl`sl_end, sl.slabs`s_next, sl.slabs`s_prev
    modifies sl.slabs`s_min, sl.slabs`s_max, sl.slabs`s_elems, set x <- sl.slabs :: x.s_arr
    ensures sl.Top() && sl.view == SpillNext(LinkAfter(old(sl.view), m), m, i, elem, SELEM_MAX)
    ensures sl.slabs == InsertAt(old(sl.slabs), m + 1, ns) && fresh(ns) && fresh(ns.s_arr) && ns.s_below == s.s_below
  {
    hide Distinct, Linked, Data, InsertAt, SpillNext;
    LinkAfterParts(sl.view, m);
    ns := MkSlabAfter(sl, s, m);
    Addsn(sl, s, elem, i, m);
  }

  /** A new slab behind slab m takes elem. */
  method AddAfterNew(sl: List, s: Slab, elem: int, ghost m: nat) returns (ns: Slab)
    requires sl.Top() && m < |sl.slabs| && s == sl.slabs[m]
    modifies sl`view, sl`slabs, sl`sl_slabs, sl`sl_end, sl.slabs`s_next, sl.slabs`s_prev
    ensures sl.Top() && m < |old(sl.view)| && sl.view == LinkAfter(old(sl.view), m)[m + 1 := [elem]]
    ensures sl.slabs == InsertAt(old(sl.slabs), m + 1, ns) && fresh(ns) && fresh(ns.s_arr) && ns.s_below == s.s_below
  {
    hide Distinct, Linked, Data, InsertAt;
    LinkAfterParts(sl.view, m);
    InsertIntoEmpty(elem);
    ns := MkSlabAfter(sl, s, m);
    sl.PutElem(ns, elem, 0, m + 1);
  }

  /** A new slab in front of slab m takes elem. */
  method AddBeforeNew(sl: List, s: Slab, elem: int, ghost m: nat) returns (ns: Slab)
    requires sl.Top() && m < |sl.slabs| && s == sl.slabs[m]
    modifies sl`view, sl`slabs, sl`sl_slabs, sl`sl_head, sl.slabs`s_next, sl.slabs`s_prev
    ensures sl.Top() && m < |old(sl.view)| && sl.view == LinkBefore(old(sl.view), m)[m := [elem]]
    ensures sl.slabs == InsertAt(old(sl.slabs), m, ns) && fresh(ns) && fresh(ns.s_arr) && ns.s_below == s.s_below
  {
    hide Distinct, Linked, Data, InsertAt;
    InsertAtMembers(sl.view, m, []);
    InsertIntoEmpty(elem);
    ns := MkSlabBefore(sl, s, m);
    sl.PutElem(ns, elem, 0, m);
  }

  /** gen_add_ira on the top layer: elem is in the range of slab m. */
  method GenAddIra(sl: List, s: Slab, elem: int, ghost m: nat) returns (how: How, ns: Slab?)
    requires sl.Top() && SizesOk(sl.view) && m < |sl.slabs| && s == sl.slabs[m]
    requires StrictlySorted(sl.view[m]) && sl.view[m][0] <= elem <= Last(sl.view[m])
    modifies sl`view, sl`slabs, sl`sl_slabs, sl`sl_end, sl.slabs`s_next, sl.slabs`s_prev
    modifies sl.slabs`s_min, sl.slabs`s_max, sl.slabs`s_elems, set x <- sl.slabs :: x.s_arr
    ensures sl.Top() && sl.view == AddInRange(old(sl.view), m, elem)
    ensures Grown(old(sl.slabs), sl.slabs, ns, m + 1)
    ensures ns != null ==> fresh(ns) && fresh(ns.s_arr) && ns.s_below == s.s_below
    ensures how == Edup <==> elem in old(sl.view)[m]
    ensures how == Edup ==> ns == null
    ensures ns != null ==> how == SpNx
    ensures how != Edup ==> HowView(old(sl.view), sl.view, m, how, ns != null, m + 1)
  {
    hide Distinct, Linked, Data, Slab.Holds, StrictlySorted, InsertAt, SpillNext, SpillPrev, LowerBound, LinkAfter;
    hide HowView, AddInRange;
    ghost var v := sl.view;
    Neighbours(sl, m);
    var i := SlabBinSrch(elem, s, false, v[m]);
    NotInUnless(v[m], elem);
    if elem == s.s_arr[i] {
      AddInRangeDup(v, m, elem);
      return Edup, null;
    }
    InRangeCases(v, m, elem);
    if s.s_elems < SELEM_MAX {
      sl.PutElem(s, elem, i, m);
      return Into, null;
    }
    var snx, spv := s.s_next, s.s_prev;
    if snx != null && snx.s_elems < SELEM_MAX {
      Addsn(sl, s, elem, i, m);
      return SpNx, null;
    }
    if spv != null && spv.s_elems < SELEM_MAX {
      Addsp(sl, s, elem, i, m);
      return SpPv, null;
    }
    if snx == null || snx.s_elems == SELEM_MAX {
      ns := AddsnNew(sl, s, elem, i, m);
      return SpNx, ns;
    }
    // the fourth branch, with a new slab linked in front of s, comes behind guards that cover all cases
    assert false;
  }

  lemma AddInRangeDup(v: Blocks, m: nat, e: int)
    requires m < |v| && SizesOk(v) && LowerBound(v[m], e) < |v[m]| && v[m][LowerBound(v[m], e)] == e
    ensures AddInRange(v, m, e) == v
  {
  }

  /** Searches slab m, which is not full, and adds elem there. */
  method AddFound(sl: List, s: Slab, elem: int, ghost m: nat)
    requires sl.Top() && m < |sl.slabs| && s == sl.slabs[m] && 0 < |sl.view[m]| < SELEM_MAX && StrictlySorted(sl.view[m])
    modifies sl`view, s`s_min, s`s_max, s`s_elems, s.s_arr
    ensures sl.Top() && m < |old(sl.view)|
    ensures sl.view == old(sl.view)[m := InsertAt(old(sl.view)[m], LowerBound(old(sl.view)[m], elem), elem)]
  {
    hide Distinct, Linked, Data, Slab.Holds, StrictlySorted, InsertAt, LowerBound;
    Neighbours(sl, m);
    var i := SlabBinSrch(elem, s, false, sl.view[m]);
    sl.PutElem(s, elem, i, m);
  }

  /** gen_add_ura on the top layer: elem is below the range of slab m. */
  method GenAddUra(sl: List, s: Slab, elem: int, ghost m: nat) returns (how: How, ns: Slab?)
    requires sl.Top() && SizesOk(sl.view) && m < |sl.slabs| && s == sl.slabs[m]
    requires StrictlySorted(sl.view[m]) && (m > 0 ==> StrictlySorted(sl.view[m - 1])) && elem < sl.view[m][0]
    modifies sl`view, sl`slabs, sl`sl_slabs, sl`sl_head, sl.slabs`s_next, sl.slabs`s_prev
    modifies sl.slabs`s_min, sl.slabs`s_max, sl.slabs`s_elems, set x <- sl.slabs :: x.s_arr
    ensures sl.Top() && sl.view == AddUnder(old(sl.view), m, elem) && how != Edup
    ensures Grown(old(sl.slabs), sl.slabs, ns, m)
    ensures ns != null ==> fresh(ns) && fresh(ns.s_arr) && ns.s_below == s.s_below
    ensures ns != null ==> how == Before
    ensures HowView(old(sl.view), sl.view, m, how, ns != null, m)
  {
    hide Distinct, Linked, Data, Slab.Holds, StrictlySorted, InsertAt, SpillNext, LowerBound, LinkBefore;
    hide HowView, AddUnder;
    ghost var v := sl.view;
    Neighbours(sl, m);
    var i := SlabBinSrch(elem, s, false, v[m]);
    UnderCases(v, m, elem);
    if s.s_elems < SELEM_MAX {
      sl.PutElem(s, elem, i, m);
      return Into, null;
    }
    var snx, spv := s.s_next, s.s_prev;
    if spv != null && spv.s_elems < SELEM_MAX {
      AddFound(sl, spv, elem, m - 1);
      return Before, null;
    }
    if snx != null && snx.s_elems < SELEM_MAX {
      Addsn(sl, s, elem, i, m);
      return SpNx, null;
    }
    ns := AddBeforeNew(sl, s, elem, m);
    how := Before;
  }

  /** gen_add_ora on the top layer: elem is above the range of slab m. */
  method GenAddOra(sl: List, s: Slab, elem: int, ghost m: nat) returns (how: How, ns: Slab?)
    requires sl.Top() && SizesOk(sl.view) && m < |sl.slabs| && s == sl.slabs[m]
    requires StrictlySorted(sl.view[m]) && (m + 1 < |sl.slabs| ==> StrictlySorted(sl.view[m + 1]))
    modifies sl`view, sl`slabs, sl`sl_slabs, sl`sl_end, sl.slabs`s_next, sl.slabs`s_prev
    modifies sl.slabs`s_min, sl.slabs`s_max, sl.slabs`s_elems, set x <- sl.slabs :: x.s_arr
    ensures sl.Top() && sl.view == AddOver(old(sl.view), m, elem) && how != Edup
    ensures Grown(old(sl.slabs), sl.slabs, ns, m + 1)
    ensures ns != null ==> fresh(ns) && fresh(ns.s_arr) && ns.s_below == s.s_below
    ensures ns != null ==> how == After
    ensures HowView(old(sl.view), sl.view, m, how, ns != null, m + 1)
  {
    hide Distinct, Linked, Data, Slab.Holds, StrictlySorted, InsertAt, SpillPrev, LowerBound, LinkAfter;
    hide HowView, AddOver;
    ghost var v := sl.view;
    Neighbours(sl, m);
    var i := SlabBinSrch(elem, s, false, v[m]);
    OverCases(v, m, elem);
    if s.s_elems < SELEM_MAX {
      sl.PutElem(s, elem, i, m);
      return Into, null;
    }
    var snx, spv := s.s_next, s.s_prev;
    if snx != null && snx.s_elems < SELEM_MAX {
      AddFound(sl, snx, elem, m + 1);
      return After, null;
    }
    if spv != null && spv.s_elems < SELEM_MAX {
      Addsp(sl, s, elem, i, m);
      return SpPv, null;
    }
    ns := AddAfterNew(sl, s, elem, m);
    how := After;
  }
}
