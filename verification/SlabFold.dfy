/** slablist_cons.c, folding: the range fold over a sorted list without sublayers. */
module SlabFold {
  import opened Seqs
  import opened SlabModel
  import opened AddModel
  import opened ListModel
  import opened FoldModel
  import opened SlabCore
  import opened SlabList
  import opened SlabFind
  import opened SlabAdd
  import opened SmallList
  import opened SlabApi

  /** slablist_foldr_range_impl where both bounds lead to the same slab. */
  method FoldInOne<A>(s: Slab, f: (A, seq<int>) -> A, min: int, max: int, zero: A, ghost x: seq<int>) returns (acc: A)
    requires s.Holds(x) && x != [] && StrictlySorted(x) && min <= max
    ensures acc == FoldChunks(f, zero, ChunkInOne(x, min, max))
  {
    hide StrictlySorted, LowerBound;
    acc := zero;
    var i := SlabBinSrch(min, s, false, x);
    var j := SlabBinSrch(max, s, false, x);
    assert forall k :: 0 <= k < |x| ==> s.s_arr[k] == s.s_arr[..|x|][k];
    if i == s.s_elems {
      i := i - 1;
    }
    if j == s.s_elems {
      j := j - 1;
    }
    if Bnd(s.s_arr[i], min, max) != FS_IN_RANGE {
      return;
    }
    if Bnd(s.s_arr[j], min, max) != FS_IN_RANGE && j > 0 {
      j := j - 1;
    }
    InOneBounds(x, min, max);
    acc := f(acc, s.s_arr[i..j + 1]);
    assert s.s_arr[i..j + 1] == x[i..j + 1];
  }

  lemma InOneBounds(x: seq<int>, min: int, max: int)
    requires StrictlySorted(x) && x != [] && min <= max
    requires LowerBound(x, min) < |x| && x[LowerBound(x, min)] <= max
    ensures LowerBound(x, min) <= LowerBound(x, max)
    ensures LowerBound(x, max) < |x| && x[LowerBound(x, max)] > max ==> LowerBound(x, min) < LowerBound(x, max)
  {
  }

  /** The end of slablist_foldr_range_impl: the front of the last slab. */
  method FoldLast<A>(s: Slab, f: (A, seq<int>) -> A, min: int, max: int, zero: A, ghost x: seq<int>) returns (acc: A)
    requires s.Holds(x) && x != [] && StrictlySorted(x)
    ensures acc == FoldChunks(f, zero, ChunkOfLast(x, min, max))
  {
    hide StrictlySorted, LowerBound;
    acc := zero;
    var i := SlabBinSrch(max, s, false, x);
    assert forall k :: 0 <= k < |x| ==> s.s_arr[k] == s.s_arr[..|x|][k];
    if i == s.s_elems {
      i := i - 1;
    }
    if Bnd(s.s_arr[i], min, max) == FS_IN_RANGE {
      acc := f(acc, s.s_arr[..i + 1]);
      assert s.s_arr[..i + 1] == x[..i + 1];
    } else if i > 0 {
      i := i - 1;
      acc := f(acc, s.s_arr[..i + 1]);
      assert s.s_arr[..i + 1] == x[..i + 1];
    }
  }

  lemma FoldChunksConcat<A>(f: (A, seq<int>) -> A, acc: A, a: Blocks, b: Blocks)
    ensures FoldChunks(f, acc, a + b) == FoldChunks(f, FoldChunks(f, acc, a), b)
    decreases |a|
  {
    if a == [] {
      assert a + b == b;
    } else {
      assert (a + b)[1..] == a[1..] + b;
      FoldChunksConcat(f, f(acc, a[0]), a[1..], b);
    }
  }

  /** slablist_foldr_range_impl where the bounds lead to different slabs a and b. */
  method FoldAcross<A>(sl: List, smin: Slab, smax: Slab, f: (A, seq<int>) -> A, min: int, max: int, zero: A,
                       ghost a: nat, ghost b: nat) returns (acc: A)
    requires sl.Top() && sl.sl_sorted && SortedBlocks(sl.view) && a < b < |sl.slabs|
    requires smin == sl.slabs[a] && smax == sl.slabs[b] && a == ScanIndex(sl.view, min) && b == ScanIndex(sl.view, max)
    ensures acc == FoldChunks(f, zero, [sl.view[a][LowerBound(sl.view[a], min)..]] + sl.view[a + 1..b]
                                        + ChunkOfLast(sl.view[b], min, max))
  {
    hide Distinct, Linked, Data, Slab.Holds, StrictlySorted, LowerBound, ScanIndex, ChunkOfLast, Flatten;
    ghost var v := sl.view;
    SlabSorted(v, a);
    SlabSorted(v, b);
    Neighbours(sl, a);
    var i := SlabBinSrch(min, smin, false, v[a]);
    FirstInRange(v, min, max, a, b);
    if Bnd(smin.s_arr[i], min, max) != FS_IN_RANGE {
      assert false;
    }
    ghost var first := v[a][LowerBound(v[a], min)..];
    ElemsAre(smin, v[a]);
    acc := f(zero, smin.s_arr[i..smin.s_elems]);
    ghost var done := [first];
    var slab: Slab? := smin.s_next;
    ghost var k := a + 1;
    while slab != smax
      invariant a < k <= b && slab == sl.slabs[k]
      invariant done == [first] + v[a + 1..k] && acc == FoldChunks(f, zero, done)
      decreases b - k
    {
      SlabsDiffer(sl, k, b);
      Neighbours(sl, k);
      ElemsAre(slab, v[k]);
      FoldChunksSnoc(f, zero, done, v[k]);
      acc := f(acc, slab.s_arr[..slab.s_elems]);
      assert v[a + 1..k + 1] == v[a + 1..k] + [v[k]];
      done := done + [v[k]];
      slab := slab.s_next;
      k := k + 1;
    }
    SlabsDiffer(sl, k, b);
    Neighbours(sl, b);
    FoldChunksConcat(f, zero, done, ChunkOfLast(v[b], min, max));
    acc := FoldLast(slab, f, min, max, acc, v[b]);
  }

  lemma ElemsAre(s: Slab, x: seq<int>)
    requires s.Holds(x)
    ensures s.s_elems == |x| <= s.s_arr.Length
    ensures forall i :: 0 <= i <= |x| ==> s.s_arr[i..|x|] == x[i..]
    ensures s.s_arr[..|x|] == x
  {
    assert forall i :: 0 <= i <= |x| ==> s.s_arr[i..|x|] == s.s_arr[..|x|][i..];
  }

  lemma SlabsDiffer(sl: List, k: nat, b: nat)
    requires sl.Top() && k < |sl.slabs| && b < |sl.slabs|
    ensures sl.slabs[k] == sl.slabs[b] <==> k == b
  {
  }

  /** The first element a range fold looks at is in the range when the bounds are slabs apart. */
  lemma {:induction false} FirstInRange(v: Blocks, min: int, max: int, a: nat, b: nat)
    requires v != [] && SortedBlocks(v) && a == ScanIndex(v, min) && b == ScanIndex(v, max) && a < b
    ensures var i := LowerBound(v[a], min);
            i < |v[a]| && Bnd(v[a][i], min, max) == FS_IN_RANGE
  {
    hide Flatten;
    SlabSorted(v, a);
    assert Last(v[a]) < max;
  }

  /** The loop of foldr_range_impl that copies the elements of a small list. */
  method CopyElems(sl: List) returns (elems: array<int>)
    requires sl.Sml() && |sl.items| <= SMELEM_MAX
    ensures elems.Length == SMELEM_MAX && fresh(elems)
    ensures forall k :: 0 <= k < |sl.items| ==> elems[k] == sl.items[k]
  {
    hide SmlChain, SmlDistinct;
    ghost var ns, xs := sl.nodes, sl.items;
    var nodes := sl.sl_elems;
    elems := new int[SMELEM_MAX];
    var s, node := sl.sml_head, 0;
    while node < nodes
      modifies elems
      invariant node <= nodes && s == NodeAt(ns, node)
      invariant forall k :: 0 <= k < node ==> elems[k] == xs[k]
    {
      SmlStep(ns, xs, node);
      elems[node] := s.sml_data;
      s := s.sml_next;
      node := node + 1;
    }
  }

  /** slablist_fold_range_sml: the nodes are copied to an array first. */
  method FoldRangeSml<A>(sl: List, f: (A, seq<int>) -> A, min: int, max: int, zero: A) returns (acc: A)
    requires sl.Sml() && 0 < |sl.items| <= SMELEM_MAX && StrictlySorted(sl.items)
    ensures acc == FoldChunks(f, zero, StateChunks(Small(sl.items), min, max))
    requires min <= max
  {
    hide SmlChain, SmlDistinct;
    ghost var ns, xs := sl.nodes, sl.items;
    var nodes := sl.sl_elems;
    var elems := CopyElems(sl);
    acc := zero;
    var i, j, b: int := 0, nodes - 1, Bnd(elems[0], min, max);
    while i < nodes && b != FS_IN_RANGE
      invariant 0 <= i <= nodes
      invariant forall k :: 0 <= k < i ==> Bnd(xs[k], min, max) != FS_IN_RANGE
      invariant i < nodes ==> b == Bnd(xs[i], min, max)
      invariant i == nodes ==> b != FS_IN_RANGE
    {
      i := i + 1;
      if i < nodes {
        b := Bnd(elems[i], min, max);
      }
    }
    if b != FS_IN_RANGE {
      InRangeNone(xs, min, max);
      return;
    }
    b := Bnd(elems[j], min, max);
    while j >= 0 && b != FS_IN_RANGE
      invariant i <= j < nodes && b == Bnd(xs[j], min, max)
      invariant forall k :: j < k < nodes ==> Bnd(xs[k], min, max) != FS_IN_RANGE
      decreases j
    {
      j := j - 1;
      b := Bnd(elems[j], min, max);
    }
    InRangeSlice(xs, min, max, i, j + 1);
    assert elems[i..j + 1] == xs[i..j + 1];
    acc := f(acc, elems[i..j + 1]);
  }

  /** slablist_foldr_range_impl on slabs, once the slabs of the bounds are known. */
  method FoldBetween<A>(sl: List, smin: Slab, smax: Slab, f: (A, seq<int>) -> A, min: int, max: int, zero: A,
                        ghost a: nat, ghost b: nat) returns (acc: A)
    requires sl.Top() && sl.sl_sorted && SortedBlocks(sl.view) && min <= max
    requires a == ScanIndex(sl.view, min) && b == ScanIndex(sl.view, max) && smin == sl.slabs[a] && smax == sl.slabs[b]
    ensures acc == FoldChunks(f, zero, RangeChunks(sl.view, min, max))
  {
    hide Distinct, Linked, Data, Slab.Holds, StrictlySorted, ChunkInOne, ChunkOfLast, Flatten, LowerBound, ScanIndex;
    ghost var v := sl.view;
    ScanMonotone(v, min, max);
    SlabsDiffer(sl, a, b);
    if smin == smax {
      SlabSorted(v, a);
      Neighbours(sl, a);
      acc := FoldInOne(smin, f, min, max, zero, v[a]);
    } else {
      acc := FoldAcross(sl, smin, smax, f, min, max, zero, a, b);
    }
  }

  /** slablist_foldr_range on a sorted list. */
  method SlablistFoldrRange<A>(sl: List, f: (A, seq<int>) -> A, min: int, max: int, zero: A) returns (acc: A)
    requires Rep(sl) && sl.sl_sorted && SortedState(State(sl)) && min <= max
    ensures acc == FoldChunks(f, zero, StateChunks(State(sl), min, max))
  {
    hide Distinct, Linked, Data, Slab.Holds, StrictlySorted, ChunkInOne, ChunkOfLast, Flatten, LowerBound, ScanIndex;
    if sl.sl_elems == 0 {
      assert State(sl) == Small([]);
      return zero;
    }
    if sl.sl_slabs == 0 {
      acc := FoldRangeSml(sl, f, min, max, zero);
      return;
    }
    var _, smin, a := FindLinearScan(sl, min);
    var _, smax, b := FindLinearScan(sl, max);
    acc := FoldBetween(sl, smin, smax, f, min, max, zero, a, b);
  }
}
