/** The entry points of the library on ordered lists without sublayers. */
module OrderedApi {
  import opened Seqs
  import opened SlabModel
  import opened AddModel
  import opened RemModel
  import opened ListModel
  import opened OrderedModel
  import opened SlabCore
  import opened SlabList
  import opened SlabAdd
  import opened SlabRem
  import opened SmallList
  import opened SlabApi

  /** The ordered branch of slablist_add_impl: appends to the last slab, or to a new one behind it. */
  method AppendToSlabs(sl: List, elem: int)
    requires sl.Top() && !sl.sl_sorted
    modifies sl`view, sl`slabs, sl`sl_slabs, sl`sl_end, sl.slabs`s_next, sl.slabs`s_prev
    modifies sl.slabs`s_min, sl.slabs`s_max, sl.slabs`s_elems, set x <- sl.slabs :: x.s_arr
    ensures sl.Top() && sl.view == AppendBlocks(old(sl.view), elem)
    ensures forall k :: 0 <= k < |sl.slabs| ==>
              sl.slabs[k] in old(sl.slabs) || (fresh(sl.slabs[k]) && fresh(sl.slabs[k].s_arr))
  {
    hide Distinct, Linked, Data, Slab.Holds, InsertAt;
    ghost var m, v := |sl.slabs| - 1, sl.view;
    var s := sl.sl_end;
    Neighbours(sl, m);
    InsertAtBack(v[m], elem);
    if s.s_elems < SELEM_MAX {
      sl.PutElem(s, elem, s.s_elems, m);
    } else {
      var ns := MkSlabAfter(sl, s, m);
      InsertIntoEmpty(elem);
      InsertAtBack(v, []);
      sl.PutElem(ns, elem, 0, m + 1);
      assert sl.view == v + [[elem]];
    }
  }

  /** slablist_add_impl on an ordered list: the nodes of a small list, or slabs. */
  method AppendAny(sl: List, elem: int, reap: bool)
    requires Rep(sl) && !sl.sl_sorted && Valid(State(sl))
    modifies sl, sl.nodes`sml_next, sl.slabs`s_next, sl.slabs`s_prev
    modifies sl.slabs`s_min, sl.slabs`s_max, sl.slabs`s_elems, set x <- sl.slabs :: x.s_arr
    ensures Rep(sl) && State(sl) == Append(old(State(sl)), elem, reap)
  {
    hide Distinct, Linked, Data, Flatten, AppendBlocks, TryReap, SmlChain, SmlDistinct, SizesOk, Packed, Fits;
    ghost var st := State(sl);
    if sl.sl_slabs == 0 && sl.sl_elems <= SMELEM_MAX - 1 {
      var _ := SmallListAdd(sl, elem);
      return;
    }
    AsSlabsValid(st);
    if sl.sl_slabs == 0 && sl.sl_elems == SMELEM_MAX {
      SmallListToSlab(sl);
    }
    ApplyAppend(sl, elem, reap);
  }

  /** slablist_add on an ordered list. */
  method AddToOrdered(sl: List, elem: int, reap: bool)
    requires Rep(sl) && !sl.sl_sorted && Valid(State(sl))
    modifies sl, sl.nodes`sml_next, sl.slabs`s_next, sl.slabs`s_prev
    modifies sl.slabs`s_min, sl.slabs`s_max, sl.slabs`s_elems, set x <- sl.slabs :: x.s_arr
    ensures Rep(sl) && State(sl) == Append(old(State(sl)), elem, reap)
    ensures reap && sl.sl_slabs > 1 ==> |sl.view[0]| == SELEM_MAX
  {
    hide *;
    ghost var st := State(sl);
    AppendAny(sl, elem, reap);
    AppendHead(st, elem, reap);
    StateParts(sl);
  }

  method ApplyAppend(sl: List, elem: int, reap: bool)
    requires sl.Top() && !sl.sl_sorted && SizesOk(sl.view) && Packed(sl.view)
    requires sl.sl_elems == |Flatten(sl.view)|
    modifies sl`view, sl`slabs, sl`sl_slabs, sl`sl_head, sl`sl_end, sl`sl_elems
    modifies sl.slabs`s_next, sl.slabs`s_prev, sl.slabs`s_min, sl.slabs`s_max, sl.slabs`s_elems
    modifies set x <- sl.slabs :: x.s_arr
    ensures sl.Top() && sl.sl_elems == |Flatten(sl.view)|
    ensures Fits(AppendBlocks(old(sl.view), elem)) && sl.view == TryReap(AppendBlocks(old(sl.view), elem), reap)
  {
    hide Distinct, Linked, Data, Flatten, AppendBlocks, Packed;
    AppendBlocksCorrect(sl.view, elem);
    TryReapCorrect(AppendBlocks(sl.view, elem), reap);
    AppendToSlabs(sl, elem);
    if reap {
      SlablistReap(sl);
    }
    sl.sl_elems := sl.sl_elems + 1;
  }

  /** slab_get_elem_pos on a list without sublayers. */
  method SlabGetElemPos(sl: List, pos: nat) returns (s: Slab, off: nat, ghost m: nat)
    requires sl.Top() && SizesOk(sl.view) && sl.sl_elems == |Flatten(sl.view)|
    requires PosOk(sl.sl_elems, pos, sl.sl_circular)
    ensures m < |sl.slabs| && s == sl.slabs[m]
    ensures exists p :: Around(sl.sl_elems, pos, p) && StopsIn(sl.view, p, m, off)
    ensures ActPos(sl.sl_elems, pos) < |Flatten(sl.view)| && Locate(sl.view, ActPos(sl.sl_elems, pos)) == (m, off)
  {
    hide Distinct, Linked, Data, Slab.Holds, Flatten, Around;
    ActPosAround(sl.sl_elems, pos);
    FlattenEmpty();
    assert sl.view[..0] == [];
    var act_pos := pos;
    if sl.sl_elems < pos {
      act_pos := pos % sl.sl_elems;
    }
    if act_pos == 0 {
      Located(sl.view, 0, 0, 0);
      return sl.sl_head, 0, 0;
    }
    var slab: Slab? := sl.sl_head;
    var sum, i := 0, 0;
    while i < sl.sl_slabs
      invariant i <= |sl.slabs| && slab == if i < |sl.slabs| then sl.slabs[i] else null
      invariant sum == |Flatten(sl.view[..i])| <= act_pos
    {
      Neighbours(sl, i);
      SumStep(sl.view, i);
      sum := sum + slab.s_elems;
      if sum > act_pos {
        Located(sl.view, act_pos, i, act_pos - (sum - slab.s_elems));
        return slab, act_pos - (sum - slab.s_elems), i;
      }
      slab := slab.s_next;
      i := i + 1;
    }
    SumAll(sl.view);
    assert false;
  }

  lemma SumAll(v: Blocks)
    ensures Flatten(v[..|v|]) == Flatten(v)
  {
    assert v[..|v|] == v;
  }

  lemma SumStep(v: Blocks, i: nat)
    requires i < |v|
    ensures |Flatten(v[..i + 1])| == |Flatten(v[..i])| + |v[i]|
  {
    FlattenInit(v, i + 1);
  }

  /** slablist_get */
  method SlablistGet(sl: List, pos: nat) returns (e: int)
    requires Rep(sl) && Valid(State(sl)) && PosOk(sl.sl_elems, pos, sl.sl_circular)
    ensures sl.sl_elems == |Contents(State(sl))|
    ensures pos < sl.sl_elems ==> e == Contents(State(sl))[pos]
    ensures exists r: nat :: Around(sl.sl_elems, pos, r) && r < |Contents(State(sl))| && e == Contents(State(sl))[r]
  {
    hide Distinct, Linked, Data, Flatten, SmlChain, SmlDistinct, Locate, Around;
    ActPosAround(sl.sl_elems, pos);
    AroundIs(sl.sl_elems, pos, ActPos(sl.sl_elems, pos));
    if sl.sl_slabs == 0 {
      ghost var ns, xs := sl.nodes, sl.items;
      var mod := pos;
      if sl.sl_elems < pos {
        mod := pos % sl.sl_elems;
      }
      var s := sl.sml_head;
      for i := 0 to mod
        invariant mod < |ns| && s == NodeAt(ns, i)
      {
        SmlStep(ns, xs, i);
        s := s.sml_next;
      }
      SmlStep(ns, xs, mod);
      return s.sml_data;
    }
    var s, off, m := SlabGetElemPos(sl, pos);
    LocateCorrect(sl.view, ActPos(sl.sl_elems, pos));
    Neighbours(sl, m);
    e := s.s_arr[off];
  }

  /** The slab part of slablist_rem on an ordered list. */
  method RemFromSlabsAt(sl: List, pos: nat, reap: bool) returns (ret: Ret)
    requires sl.Top() && sl.sl_slabs != 0 && !sl.sl_sorted && Valid(Slabs(sl.view)) && RemAtDefined(State(sl), pos, sl.sl_circular)
    requires sl.sl_elems == |Flatten(sl.view)| > SMELEM_MAX
    modifies sl, sl.nodes`sml_next, sl.slabs`s_next, sl.slabs`s_prev
    modifies sl.slabs`s_min, sl.slabs`s_max, sl.slabs`s_elems, set x <- sl.slabs :: x.s_arr
    ensures Rep(sl) && (State(sl), ret) == RemAt(old(State(sl)), pos, sl.sl_circular, reap)
  {
    hide Distinct, Linked, Data, Flatten, RemAtBlocks, TryReap, DeleteAt, Locate, Packed, ActPos;
    hide SmlChain, SmlDistinct;
    var s, off, m := SlabGetElemPos(sl, pos);
    RemAtBlocksCorrect(sl.view, m, off);
    TryReapCorrect(RemAtBlocks(sl.view, m, off), reap);
    RemoveAt(sl, s, off, reap, m);
    sl.sl_elems := sl.sl_elems - 1;
    ret := SL_SUCCESS;
  }

  /** What small_list_rem makes of a list that is, or has become, small. */
  lemma RemSmallIs(st: ListState, pos: nat, circular: bool, reap: bool, items: seq<int>, ret: Ret)
    requires Valid(st) && RemAtDefined(st, pos, circular) && Shrunk(st).Small?
    requires var s := Shrunk(st).s;
      && ret == (if s == [] then SL_EMPTY else if |s| < pos && !circular then SL_ENCIRC else SL_SUCCESS)
      && (ret != SL_SUCCESS ==> items == s)
      && (ret == SL_SUCCESS ==> exists r :: Around(|s|, pos, r) && items == DeleteAt(s, r))
    ensures (Small(items), ret) == RemAt(st, pos, circular, reap)
  {
    hide ActPos;
    ShrunkLossless(st);
    var s := Shrunk(st).s;
    if ret == SL_SUCCESS {
      var r :| Around(|s|, pos, r) && items == DeleteAt(s, r);
      ActPosAround(|s|, pos);
      AroundOnce(|s|, pos, r, ActPos(|s|, pos));
    }
  }

  /** slablist_rem_impl on an ordered list: the nodes of a small list, or slabs. */
  method RemPosition(sl: List, pos: nat, reap: bool) returns (ret: Ret)
    requires Rep(sl) && !sl.sl_sorted && Valid(State(sl)) && RemAtDefined(State(sl), pos, sl.sl_circular)
    modifies sl, sl.nodes`sml_next, sl.slabs`s_next, sl.slabs`s_prev
    modifies sl.slabs`s_min, sl.slabs`s_max, sl.slabs`s_elems, set x <- sl.slabs :: x.s_arr
    ensures Rep(sl) && (State(sl), ret) == RemAt(old(State(sl)), pos, sl.sl_circular, reap)
  {
    hide Distinct, Linked, Data, Flatten, RemAt, DeleteAt, Packed, SmlChain, SmlDistinct, Around;
    ghost var st := State(sl);
    ShrunkLossless(st);
    if sl.sl_slabs != 0 && sl.sl_elems == SMELEM_MAX {
      HeadHoldsAll(st);
      SlabToSmallList(sl);
    }
    if sl.sl_slabs == 0 {
      ret := SmallListRemAt(sl, pos);
      RemSmallIs(st, pos, sl.sl_circular, reap, sl.items, ret);
      return;
    }
    ret := RemFromSlabsAt(sl, pos, reap);
  }

  /** slablist_rem on an ordered list, without the callback. */
  method RemFromOrdered(sl: List, pos: nat, reap: bool) returns (ret: Ret)
    requires Rep(sl) && !sl.sl_sorted && Valid(State(sl)) && RemAtDefined(State(sl), pos, sl.sl_circular)
    modifies sl, sl.nodes`sml_next, sl.slabs`s_next, sl.slabs`s_prev
    modifies sl.slabs`s_min, sl.slabs`s_max, sl.slabs`s_elems, set x <- sl.slabs :: x.s_arr
    ensures Rep(sl) && (State(sl), ret) == RemAt(old(State(sl)), pos, sl.sl_circular, reap)
    ensures pos < old(|Contents(State(sl))|) ==> ret == SL_SUCCESS && Contents(State(sl)) == DeleteAt(old(Contents(State(sl))), pos)
    ensures reap && sl.sl_slabs > 1 ==> |sl.view[0]| == SELEM_MAX
  {
    hide *;
    ghost var st := State(sl);
    ret := RemPosition(sl, pos, reap);
    RemAtCorrect(st, pos, sl.sl_circular, reap);
    RemAtHead(st, pos, sl.sl_circular, reap);
    FitBelow(|Contents(st)|, pos, sl.sl_circular);
    StateParts(sl);
  }

  lemma FitBelow(n: nat, pos: nat, circular: bool)
    ensures pos < n ==> PosOk(n, pos, circular)
  {
  }

  /** The inner loop of slablist_reverse: the elements of one slab, in place. */
  method ReverseElems(s: Slab, ghost x: seq<int>)
    requires s.Holds(x) && x != []
    modifies s.s_arr
    ensures s.Holds(Reversed(x))
  {
    hide Reversed;
    var i, j := 0, s.s_elems - 1;
    assert forall k :: 0 <= k < |x| ==> s.s_arr[k] == s.s_arr[..|x|][k];
    while i < j
      invariant 0 <= i <= |x| && -1 <= j < |x| && i + j == |x| - 1
      invariant forall k :: 0 <= k < i ==> s.s_arr[k] == x[|x| - 1 - k] && s.s_arr[|x| - 1 - k] == x[k]
      invariant forall k :: i <= k <= j ==> s.s_arr[k] == x[k]
    {
      s.s_arr[i], s.s_arr[j] := s.s_arr[j], s.s_arr[i];
      i, j := i + 1, j - 1;
    }
    ReversedAt(x);
    assert forall k :: 0 <= k < |x| ==> s.s_arr[k] == Reversed(x)[k];
    assert s.s_arr[..|x|] == Reversed(x);
  }

  /** The first i slabs are turned around, the others are as before. */
  ghost predicate Turned(ss: seq<Slab>, v: Blocks, i: nat)
    reads ss`s_next, ss`s_prev, ss`s_elems, set x <- ss :: x.s_arr
    requires |ss| == |v| && i <= |ss|
  {
    && (forall k {:trigger ss[k].s_next} :: i <= k < |ss| ==> ss[k].s_next == if k + 1 < |ss| then ss[k + 1] else null)
    && (forall k {:trigger ss[k].s_prev} :: i <= k < |ss| ==> ss[k].s_prev == if k > 0 then ss[k - 1] else null)
    && (forall k {:trigger ss[k].s_prev} :: 0 <= k < i ==> ss[k].s_prev == if k + 1 < |ss| then ss[k + 1] else null)
    && (forall k {:trigger ss[k].s_next} :: 0 <= k < i ==> ss[k].s_next == if k > 0 then ss[k - 1] else null)
    && (forall k :: 0 <= k < |ss| ==> ss[k].Holds(if k < i then Reversed(v[k]) else v[k]))
  }

  lemma TurnedStart(ss: seq<Slab>, v: Blocks)
    requires Linked(ss) && Data(ss, v, false)
    ensures Turned(ss, v, 0)
  {
  }

  lemma TurnedEnd(ss: seq<Slab>, v: Blocks)
    requires |ss| == |v| && Turned(ss, v, |ss|) && Distinct(ss)
    ensures Linked(Reversed(ss)) && Data(Reversed(ss), ReverseBlocks(v), false) && Distinct(Reversed(ss))
  {
    ReversedAt(ss);
    ReverseBlocksAt(v);
  }

  method TurnSlab(s: Slab, ghost ss: seq<Slab>, ghost v: Blocks, ghost i: nat) returns (tmp: Slab?)
    requires |ss| == |v| && Distinct(ss) && i < |ss| && Turned(ss, v, i) && s == ss[i] && v[i] != []
    modifies s`s_next, s`s_prev, s.s_arr
    ensures Turned(ss, v, i + 1) && tmp == if i + 1 < |ss| then ss[i + 1] else null
  {
    hide Slab.Holds, Reversed;
    tmp := s.s_next;
    s.s_next := s.s_prev;
    s.s_prev := tmp;
    ReverseElems(s, v[i]);
  }

  lemma ReversedEnds<T>(s: seq<T>)
    requires s != []
    ensures |Reversed(s)| == |s| && Reversed(s)[0] == s[|s| - 1] && Reversed(s)[|s| - 1] == s[0]
  {
    ReversedAt(s);
  }

  method TurnSlabs(head: Slab, ghost ss: seq<Slab>, ghost v: Blocks)
    requires |ss| == |v| > 0 && Distinct(ss) && Turned(ss, v, 0) && head == ss[0] && SizesOk(v)
    modifies ss`s_next, ss`s_prev, set x <- ss :: x.s_arr
    ensures Turned(ss, v, |ss|)
  {
    hide Distinct, Turned;
    var s: Slab? := head;
    ghost var i := 0;
    while s != null
      invariant i <= |ss| && Turned(ss, v, i) && s == if i < |ss| then ss[i] else null
      decreases |ss| - i
    {
      s := TurnSlab(s, ss, v, i);
      i := i + 1;
    }
  }

  /** The ends of the turned chain. */
  method SwapEnds(sl: List, ghost ss: seq<Slab>, ghost v: Blocks)
    requires sl.slabs == ss && |v| == |ss| > 0 && sl.sl_head == ss[0] && sl.sl_end == ss[|ss| - 1] && !sl.sl_sorted
    requires sl.sl_slabs == |ss| && Turned(ss, v, |ss|) && Distinct(ss)
    modifies sl`sl_head, sl`sl_end, sl`slabs, sl`view
    ensures sl.Top() && sl.view == ReverseBlocks(v)
  {
    hide Distinct, Linked, Data, Turned, Reversed, ReverseBlocks;
    ReversedEnds(ss);
    ReverseBlocksAt(v);
    TurnedEnd(ss, v);
    var head := sl.sl_head;
    sl.sl_head := sl.sl_end;
    sl.sl_end := head;
    sl.slabs := Reversed(ss);
    sl.view := ReverseBlocks(v);
  }

  /** slablist_reverse on the slabs of a list. */
  method ReverseSlabs(sl: List)
    requires sl.Top() && !sl.sl_sorted && SizesOk(sl.view)
    modifies sl`sl_head, sl`sl_end, sl`slabs, sl`view, sl.slabs`s_next, sl.slabs`s_prev, set x <- sl.slabs :: x.s_arr
    ensures sl.Top() && sl.view == ReverseBlocks(old(sl.view))
  {
    hide Distinct, Linked, Data, Turned, SizesOk, Reversed, ReverseBlocks;
    ghost var ss, v := sl.slabs, sl.view;
    TurnedStart(ss, v);
    TurnSlabs(sl.sl_head, ss, v);
    SwapEnds(sl, ss, v);
  }

  /** The first i nodes point backwards, the others are as before. */
  ghost predicate SmlTurned(ns: seq<SmallNode>, i: nat)
    reads ns`sml_next
    requires i <= |ns|
  {
    && (forall k {:trigger ns[k].sml_next} :: 0 <= k < i ==> ns[k].sml_next == if k > 0 then ns[k - 1] else null)
    && (forall k {:trigger ns[k].sml_next} :: i <= k < |ns| ==> ns[k].sml_next == if k + 1 < |ns| then ns[k + 1] else null)
  }

  lemma SmlTurnedStart(ns: seq<SmallNode>, xs: seq<int>)
    requires SmlChain(ns, xs)
    ensures SmlTurned(ns, 0) && forall k :: 0 <= k < |ns| ==> ns[k].sml_data == xs[k]
  {
  }

  method TurnNodes(head: SmallNode, ghost ns: seq<SmallNode>)
    requires ns != [] && head == ns[0] && SmlDistinct(ns) && SmlTurned(ns, 0)
    modifies ns`sml_next
    ensures SmlTurned(ns, |ns|)
  {
    var n: SmallNode?, prev: SmallNode? := head, null;
    ghost var i := 0;
    while n != null
      invariant i <= |ns| && SmlTurned(ns, i)
      invariant n == NodeAt(ns, i) && prev == if i > 0 then ns[i - 1] else null
      decreases |ns| - i
    {
      var tmp := n.sml_next;
      n.sml_next := prev;
      prev := n;
      n := tmp;
      i := i + 1;
    }
  }

  lemma SmlTurnedEnd(ns: seq<SmallNode>, xs: seq<int>)
    requires |ns| == |xs| && SmlTurned(ns, |ns|) && SmlDistinct(ns)
    requires forall k :: 0 <= k < |ns| ==> ns[k].sml_data == xs[k]
    ensures SmlChain(Reversed(ns), Reversed(xs)) && SmlDistinct(Reversed(ns))
  {
    ReversedAt(ns);
    ReversedAt(xs);
  }

  /** slablist_reverse on the nodes of a small list. On an empty list it would make the stale
      sl_end the head. */
  method ReverseSmall(sl: List)
    requires sl.Sml() && sl.items != []
    modifies sl`sml_head, sl`sml_end, sl`nodes, sl`items, sl.nodes`sml_next
    ensures sl.Sml() && sl.items == Reversed(old(sl.items))
  {
    hide SmlChain, SmlDistinct, SmlTurned, Reversed;
    ghost var ns, xs := sl.nodes, sl.items;
    SmlTurnedStart(ns, xs);
    var head := sl.sml_head;
    TurnNodes(head, ns);
    sl.sml_head := sl.sml_end;
    sl.sml_end := head;
    sl.nodes, sl.items := Reversed(ns), Reversed(xs);
    SmlTurnedEnd(ns, xs);
    ReversedAt(ns);
    ReversedAt(xs);
  }

  /** slablist_reverse on a list that is not empty. */
  method SlablistReverse(sl: List)
    requires Rep(sl) && Valid(State(sl)) && Contents(State(sl)) != []
    modifies sl, sl.nodes`sml_next, sl.slabs`s_next, sl.slabs`s_prev, set x <- sl.slabs :: x.s_arr
    ensures Rep(sl) && State(sl) == if sl.sl_sorted then old(State(sl)) else Reverse(old(State(sl)))
  {
    hide Distinct, Linked, Data, SmlChain, SmlDistinct, Flatten, ReverseBlocks;
    if sl.sl_sorted {
      return;
    }
    if sl.sl_slabs == 0 {
      ReverseSmall(sl);
      return;
    }
    ReverseBlocksFlat(sl.view);
    ReversedAt(Flatten(sl.view));
    ReverseSlabs(sl);
  }
}
