/** The singly linked list a slab list starts as: small_list_add, small_list_rem, and the
    conversions between the two representations. */
module SmallList {
  import opened Seqs
  import opened SlabModel
  import opened ListModel
  import opened OrderedModel
  import opened SlabCore
  import opened SlabList

  /** Node k, or null behind the last one. */
  ghost function NodeAt(ns: seq<SmallNode>, k: nat): SmallNode? {
    if k < |ns| then ns[k] else null
  }

  lemma SmlStep(ns: seq<SmallNode>, xs: seq<int>, k: nat)
    requires SmlChain(ns, xs) && k < |ns|
    ensures ns[k].sml_data == xs[k] && ns[k].sml_next == NodeAt(ns, k + 1)
  {
  }

  /** The pointer writes of link_sml_node behind a node. */
  method PointSml(prev: SmallNode, to_link: SmallNode, ghost ns: seq<SmallNode>, ghost xs: seq<int>, ghost k: nat)
    requires SmlChain(ns, xs) && SmlDistinct(ns) && to_link !in ns && 0 < k <= |ns| && prev == ns[k - 1]
    modifies prev`sml_next, to_link`sml_next
    ensures SmlChain(InsertAt(ns, k, to_link), InsertAt(xs, k, to_link.sml_data))
  {
    var next := prev.sml_next;
    prev.sml_next := to_link;
    to_link.sml_next := next;
  }

  lemma {:induction false} SmlDistinctInsert(ns: seq<SmallNode>, k: nat, n: SmallNode)
    requires SmlDistinct(ns) && k <= |ns| && n !in ns
    ensures SmlDistinct(InsertAt(ns, k, n))
  {
  }

  lemma {:induction false} SmlDistinctDelete(ns: seq<SmallNode>, k: nat)
    requires SmlDistinct(ns) && k < |ns|
    ensures SmlDistinct(DeleteAt(ns, k))
  {
  }

  /** link_sml_node: a node goes in at position k. Setting sl_end is left to the caller. */
  method LinkSmlNode(sl: List, prev: SmallNode?, to_link: SmallNode, ghost k: nat)
    requires SmlChain(sl.nodes, sl.items) && SmlDistinct(sl.nodes) && to_link !in sl.nodes
    requires sl.sml_head == NodeAt(sl.nodes, 0) && sl.sl_elems == |sl.nodes|
    requires k <= |sl.nodes| && prev == if k == 0 then null else sl.nodes[k - 1]
    modifies sl`sml_head, sl`sl_elems, sl`nodes, sl`items, sl.nodes`sml_next, to_link`sml_next
    ensures SmlChain(sl.nodes, sl.items) && SmlDistinct(sl.nodes)
    ensures sl.nodes == InsertAt(old(sl.nodes), k, to_link)
    ensures sl.items == InsertAt(old(sl.items), k, to_link.sml_data)
    ensures sl.sml_head == sl.nodes[0] && sl.sl_elems == |sl.nodes|
  {
    hide SmlDistinct;
    ghost var ns, xs := sl.nodes, sl.items;
    if prev != null {
      hide SmlChain;
      PointSml(prev, to_link, ns, xs, k);
    } else {
      var next := sl.sml_head;
      sl.sml_head := to_link;
      to_link.sml_next := next;
      assert SmlChain(InsertAt(ns, 0, to_link), InsertAt(xs, 0, to_link.sml_data));
    }
    sl.sl_elems := sl.sl_elems + 1;
    sl.nodes := InsertAt(ns, k, to_link);
    sl.items := InsertAt(xs, k, to_link.sml_data);
    SmlDistinctInsert(ns, k, to_link);
  }

  /** The pointer write of unlink_sml_node behind a node. */
  method PointPast(prev: SmallNode, to_rem: SmallNode, ghost ns: seq<SmallNode>, ghost xs: seq<int>, ghost k: nat)
    requires SmlChain(ns, xs) && SmlDistinct(ns) && 0 < k < |ns| && prev == ns[k - 1] && to_rem == ns[k]
    modifies prev`sml_next
    ensures SmlChain(DeleteAt(ns, k), DeleteAt(xs, k)) && to_rem.sml_next == old(to_rem.sml_next)
  {
    prev.sml_next := to_rem.sml_next;
  }

  lemma SmlTail(ns: seq<SmallNode>, xs: seq<int>)
    requires SmlChain(ns, xs) && ns != []
    ensures SmlChain(DeleteAt(ns, 0), DeleteAt(xs, 0))
  {
  }

  /** unlink_sml_node: takes out the node behind prev, or the head. When it takes out the only node,
      sl_end is left behind, pointing at it. */
  method UnlinkSmlNode(sl: List, prev: SmallNode?, ghost k: nat)
    requires sl.Sml() && k < |sl.nodes| && prev == if k == 0 then null else sl.nodes[k - 1]
    modifies sl`sml_head, sl`sml_end, sl`sl_elems, sl`nodes, sl`items, sl.nodes`sml_next
    ensures sl.Sml() && sl.items == DeleteAt(old(sl.items), k) && sl.nodes == DeleteAt(old(sl.nodes), k)
  {
    hide SmlDistinct, SmlChain, DeleteAt;
    ghost var ns, xs := sl.nodes, sl.items;
    SmlStep(ns, xs, k);
    if |ns| > 1 {
      DeleteAtEnds(ns, k);
    }
    if prev == null {
      var to_rem := sl.sml_head;
      sl.sml_head := to_rem.sml_next;
      SmlTail(ns, xs);
    } else {
      SmlStep(ns, xs, k - 1);
      var to_rem := prev.sml_next;
      PointPast(prev, to_rem, ns, xs, k);
      if to_rem.sml_next == null {
        sl.sml_end := prev;
      }
    }
    sl.sl_elems := sl.sl_elems - 1;
    sl.nodes := DeleteAt(ns, k);
    sl.items := DeleteAt(xs, k);
    SmlDistinctDelete(ns, k);
  }

  /** small_list_add where it places the node at position k. */
  method PlaceSmlNode(sl: List, prev: SmallNode?, elem: int, ghost k: nat)
    requires sl.Sml() && sl.nodes != [] && k <= |sl.nodes| && prev == if k == 0 then null else sl.nodes[k - 1]
    modifies sl`sml_head, sl`sml_end, sl`sl_elems, sl`nodes, sl`items, sl.nodes`sml_next
    ensures sl.Sml() && sl.items == InsertAt(old(sl.items), k, elem)
    ensures forall j :: 0 <= j < |sl.nodes| ==> sl.nodes[j] in old(sl.nodes) || fresh(sl.nodes[j])
  {
    hide SmlDistinct, SmlChain, InsertAt;
    ghost var ns := sl.nodes;
    var nsml := new SmallNode(elem);
    InsertAtEnds(ns, k, nsml);
    InsertAtMembers(ns, k, nsml);
    var last := prev == sl.sml_end;
    SmlEndIs(sl, k);
    LinkSmlNode(sl, prev, nsml, k);
    if last {
      sl.sml_end := nsml;
    }
  }

  lemma SmlEndIs(sl: List, k: nat)
    requires sl.Sml() && sl.nodes != [] && k <= |sl.nodes|
    ensures sl.sml_end == (if k == 0 then null else sl.nodes[k - 1]) <==> k == |sl.nodes|
  {
  }

  /** small_list_add with rep = 0. */
  method SmallListAdd(sl: List, elem: int) returns (ret: Ret)
    requires sl.Sml() && (sl.sl_sorted ==> StrictlySorted(sl.items))
    modifies sl`sml_head, sl`sml_end, sl`sl_elems, sl`nodes, sl`items, sl.nodes`sml_next
    ensures sl.Sml()
    ensures forall j :: 0 <= j < |sl.nodes| ==> sl.nodes[j] in old(sl.nodes) || fresh(sl.nodes[j])
    ensures ret == if sl.sl_sorted && elem in old(sl.items) then SL_EDUP else SL_SUCCESS
    ensures sl.items == if ret == SL_EDUP then old(sl.items)
                        else if sl.sl_sorted then InsertSorted(old(sl.items), elem) else old(sl.items) + [elem]
  {
    ghost var ns, xs := sl.nodes, sl.items;
    if sl.sml_head == null {
      sl.sml_head := new SmallNode(elem);
      sl.sml_end := sl.sml_head;
      sl.sl_elems := sl.sl_elems + 1;
      sl.nodes, sl.items := [sl.sml_head], [elem];
      assert InsertAt([], 0, elem) == [elem];
      return SL_SUCCESS;
    }
    if sl.sl_sorted {
      var sml: SmallNode?, prev: SmallNode? := sl.sml_head, null;
      var i := 0;
      while i < sl.sl_elems
        invariant sl.Sml() && sl.nodes == ns && sl.items == xs
        invariant i <= |sl.nodes| && sml == NodeAt(sl.nodes, i) && prev == if i == 0 then null else sl.nodes[i - 1]
        invariant forall k :: 0 <= k < i ==> xs[k] < elem
      {
        hide StrictlySorted, InsertAt, LowerBound, SmlChain, SmlDistinct;
        SmlStep(sl.nodes, xs, i);
        if elem < sml.sml_data {
          PlaceSmlNode(sl, prev, elem, i);
          AtLowerBound(xs, elem, i);
          return SL_SUCCESS;
        }
        if elem == sml.sml_data {
          return SL_EDUP;
        }
        prev := sml;
        sml := sml.sml_next;
        i := i + 1;
      }
      AtLowerBound(xs, elem, i);
      PlaceSmlNode(sl, prev, elem, i);
      return SL_SUCCESS;
    }
    InsertAtBack(xs, elem);
    PlaceSmlNode(sl, sl.sml_end, elem, |sl.nodes|);
    ret := SL_SUCCESS;
  }

  /** small_list_rem on a sorted list. */
  method SmallListRemSorted(sl: List, elem: int) returns (ret: Ret)
    requires sl.Sml() && StrictlySorted(sl.items)
    modifies sl`sml_head, sl`sml_end, sl`sl_elems, sl`nodes, sl`items, sl.nodes`sml_next
    ensures sl.Sml()
    ensures ret == if old(sl.items) == [] then SL_EMPTY else if elem in old(sl.items) then SL_SUCCESS else SL_ENFOUND
    ensures ret == SL_SUCCESS ==> LowerBound(old(sl.items), elem) < |old(sl.items)|
    ensures sl.items == if ret == SL_SUCCESS then DeleteAt(old(sl.items), LowerBound(old(sl.items), elem))
                        else old(sl.items)
  {
    hide StrictlySorted, SmlChain, SmlDistinct, DeleteAt;
    if sl.sml_head == null || sl.sl_elems == 0 {
      return SL_EMPTY;
    }
    ghost var ns, xs := sl.nodes, sl.items;
    var sml: SmallNode?, prev: SmallNode? := sl.sml_head, null;
    var i := 0;
    while i < sl.sl_elems
      invariant sl.Sml() && sl.nodes == ns && sl.items == xs
      invariant i <= |ns| && sml == NodeAt(ns, i) && prev == if i == 0 then null else ns[i - 1]
      invariant forall k :: 0 <= k < i ==> xs[k] != elem
    {
      SmlStep(ns, xs, i);
      if elem == sml.sml_data {
        IndexIsLowerBound(xs, i);
        UnlinkSmlNode(sl, prev, i);
        return SL_SUCCESS;
      }
      prev := sml;
      sml := sml.sml_next;
      i := i + 1;
    }
    ret := SL_ENFOUND;
  }

  lemma IndexIsLowerBound(xs: seq<int>, i: nat)
    requires StrictlySorted(xs) && i < |xs|
    ensures LowerBound(xs, xs[i]) == i
  {
    LowerBoundIs(xs, xs[i], i);
  }

  /** small_list_rem on an ordered list. */
  method SmallListRemAt(sl: List, pos: nat) returns (ret: Ret)
    requires sl.Sml() && (pos != |sl.items| || sl.items == [])
    modifies sl`sml_head, sl`sml_end, sl`sl_elems, sl`nodes, sl`items, sl.nodes`sml_next
    ensures sl.Sml()
    ensures ret == if old(sl.items) == [] then SL_EMPTY
                   else if |old(sl.items)| < pos && !sl.sl_circular then SL_ENCIRC else SL_SUCCESS
    ensures ret != SL_SUCCESS ==> sl.items == old(sl.items)
    ensures ret == SL_SUCCESS ==> exists r :: Around(|old(sl.items)|, pos, r) && sl.items == DeleteAt(old(sl.items), r)
  {
    hide SmlChain, SmlDistinct, DeleteAt, Around;
    if sl.sml_head == null || sl.sl_elems == 0 {
      return SL_EMPTY;
    }
    ghost var ns, xs := sl.nodes, sl.items;
    ActPosAround(|xs|, pos);
    if sl.sl_elems < pos && !sl.sl_circular {
      return SL_ENCIRC;
    }
    var mod := pos;
    if sl.sl_elems < pos {
      mod := pos % sl.sl_elems;
    }
    var sml: SmallNode?, prev: SmallNode? := sl.sml_head, null;
    var i := 0;
    while i < mod
      invariant sl.Sml() && sl.nodes == ns && sl.items == xs
      invariant i <= mod < |ns| && sml == NodeAt(ns, i) && prev == if i == 0 then null else ns[i - 1]
    {
      SmlStep(ns, xs, i);
      prev := sml;
      sml := sml.sml_next;
      i := i + 1;
    }
    UnlinkSmlNode(sl, prev, mod);
    ret := SL_SUCCESS;
  }

  lemma AtLowerBound(xs: seq<int>, e: int, i: nat)
    requires StrictlySorted(xs) && i <= |xs|
    requires forall k :: 0 <= k < i ==> xs[k] < e
    requires i < |xs| ==> e < xs[i]
    ensures e !in xs && InsertAt(xs, i, e) == InsertSorted(xs, e)
  {
    LowerBoundIs(xs, e, i);
  }

  /** slab_to_small_list: copies the elements of the head slab, and of no other. */
  method SlabToSmallList(sl: List)
    requires sl.Top() && (sl.sl_sorted ==> StrictlySorted(sl.view[0]))
    modifies sl
    ensures sl.Sml() && sl.sl_slabs == 0 && sl.items == old(sl.view)[0]
    ensures forall j :: 0 <= j < |sl.nodes| ==> fresh(sl.nodes[j])
  {
    ghost var x := sl.view[0];
    var h := sl.sl_head;
    sl.sml_head := null;
    sl.sl_elems := 0;
    sl.nodes, sl.items := [], [];
    assert h.Holds(x);
    var i := 0;
    while i < h.s_elems
      invariant h.Holds(x) && sl.Sml() && i <= |x| && sl.items == x[..i]
      invariant forall j :: 0 <= j < |sl.nodes| ==> fresh(sl.nodes[j])
    {
      assert h.s_arr[i] == x[i];
      CopyStep(x, i, sl.sl_sorted);
      var _ := SmallListAdd(sl, h.s_arr[i]);
      i := i + 1;
    }
    assert x[..i] == x;
    sl.sl_slabs := 0;
  }

  lemma CopyStep(x: seq<int>, i: nat, sorted: bool)
    requires i < |x| && (sorted ==> StrictlySorted(x))
    ensures sorted ==> StrictlySorted(x[..i]) && x[i] !in x[..i] && InsertSorted(x[..i], x[i]) == x[..i + 1]
    ensures x[..i] + [x[i]] == x[..i + 1]
  {
    if sorted {
      LowerBoundIs(x[..i], x[i], i);
    }
  }

  lemma OneSlab(s: Slab, x: seq<int>, sorted: bool)
    requires s.Holds(x) && s.Exact(x) && s.s_next == null && s.s_prev == null
    ensures Distinct([s]) && Linked([s]) && Data([s], [x], sorted)
  {
  }

  /** small_list_to_slab: all nodes go into one new slab. */
  method SmallListToSlab(sl: List)
    requires sl.Sml() && 0 < |sl.items| <= SELEM_MAX
    modifies sl
    ensures sl.Top() && sl.view == [old(sl.items)] && sl.sl_elems == old(sl.sl_elems)
    ensures forall k :: 0 <= k < |sl.slabs| ==> fresh(sl.slabs[k]) && fresh(sl.slabs[k].s_arr) && sl.slabs[k].s_below == null
  {
    hide SmlChain, SmlDistinct, Linked, Data, Distinct;
    ghost var xs := sl.items;
    var s := new Slab();
    var sml := sl.sml_head;
    var i := 0;
    while i < sl.sl_elems
      modifies s, s.s_arr
      invariant i <= |xs| && sml == NodeAt(sl.nodes, i)
      invariant s.Holds(xs[..i]) && s.s_next == null && s.s_prev == null && s.s_below == null
    {
      SmlStep(sl.nodes, xs, i);
      s.s_arr[i] := sml.sml_data;
      assert s.s_arr[..i + 1] == xs[..i + 1];
      sml := sml.sml_next;
      s.s_elems := s.s_elems + 1;
      i := i + 1;
    }
    assert xs[..i] == xs;
    sl.sl_head, sl.sl_end, sl.sl_slabs := s, s, 1;
    s.s_min := s.s_arr[0];
    s.s_max := s.s_arr[s.s_elems - 1];
    sl.slabs, sl.view := [s], [xs];
    OneSlab(s, xs, sl.sl_sorted);
  }
}
