/** What slablist_add.c does to the sequence of slab contents. The methods of SlabAdd are proved
    equal to these functions; the lemmas say what the functions mean. */
module AddModel {
  import opened Seqs
  import opened SlabModel

  /** Spills the last entry of the full block m into the front of block m + 1, then places e. */
  function SpillNext<T>(v: seq<seq<T>>, m: nat, i: nat, e: T, cap: nat): (w: seq<seq<T>>)
    requires m + 1 < |v| && |v[m]| == cap > 0
    ensures |w| == |v|
  {
    var q := if i > cap - 1 then i - 1 else i;
    if q > cap - 1 then v else
    v[m := InsertAt(v[m][..cap - 1], q, e)][m + 1 := [v[m][cap - 1]] + v[m + 1]]
  }

  /** Spills the first entry of the full block m to the end of block m - 1, then places e. */
  function SpillPrev<T>(v: seq<seq<T>>, m: nat, i: nat, e: T, cap: nat): (w: seq<seq<T>>)
    requires 0 < m < |v| && |v[m]| == cap > 0 && i <= cap
    ensures |w| == |v|
  {
    var q := if i > 0 then i - 1 else i;
    v[m - 1 := v[m - 1] + [v[m][0]]][m := InsertAt(v[m][1..], q, e)]
  }

  function LinkAfter<T>(v: seq<seq<T>>, m: nat): seq<seq<T>>
    requires m < |v|
  {
    InsertAt(v, m + 1, [])
  }

  function LinkBefore<T>(v: seq<seq<T>>, m: nat): seq<seq<T>>
    requires m < |v|
  {
    InsertAt(v, m, [])
  }

  /** gen_add_ira: e is in the range of slab m. */
  function AddInRange(v: Blocks, m: nat, e: int): Blocks
    requires m < |v| && SizesOk(v)
  {
    var i := LowerBound(v[m], e);
    if i < |v[m]| && v[m][i] == e then v
    else if |v[m]| < SELEM_MAX then v[m := InsertAt(v[m], i, e)]
    else if m + 1 < |v| && |v[m + 1]| < SELEM_MAX then SpillNext(v, m, i, e, SELEM_MAX)
    else if m > 0 && |v[m - 1]| < SELEM_MAX then SpillPrev(v, m, i, e, SELEM_MAX)
    else SpillNext(LinkAfter(v, m), m, i, e, SELEM_MAX)
  }

  /** gen_add_ura: e is below the range of slab m. */
  function AddUnder(v: Blocks, m: nat, e: int): Blocks
    requires m < |v| && SizesOk(v)
  {
    var i := LowerBound(v[m], e);
    if |v[m]| < SELEM_MAX then v[m := InsertAt(v[m], i, e)]
    else if m > 0 && |v[m - 1]| < SELEM_MAX then
      v[m - 1 := InsertAt(v[m - 1], LowerBound(v[m - 1], e), e)]
    else if m + 1 < |v| && |v[m + 1]| < SELEM_MAX then SpillNext(v, m, i, e, SELEM_MAX)
    else LinkBefore(v, m)[m := [e]]
  }

  /** gen_add_ora: e is above the range of slab m. */
  function AddOver(v: Blocks, m: nat, e: int): Blocks
    requires m < |v| && SizesOk(v)
  {
    var i := LowerBound(v[m], e);
    if |v[m]| < SELEM_MAX then v[m := InsertAt(v[m], i, e)]
    else if m + 1 < |v| && |v[m + 1]| < SELEM_MAX then
      v[m + 1 := InsertAt(v[m + 1], LowerBound(v[m + 1], e), e)]
    else if m > 0 && |v[m - 1]| < SELEM_MAX then SpillPrev(v, m, i, e, SELEM_MAX)
    else LinkAfter(v, m)[m + 1 := [e]]
  }

  /** slab_gen_add on the slab and status a scan delivers. */
  function GenAdd(v: Blocks, e: int): Blocks
    requires v != [] && SizesOk(v)
  {
    var m := ScanIndex(v, e);
    var fs := ScanStatus(v, e);
    if fs == FS_IN_RANGE then AddInRange(v, m, e)
    else if fs == FS_OVER_RANGE then AddOver(v, m, e)
    else AddUnder(v, m, e)
  }

  lemma {:induction false} SpillNextFlat<T>(v: seq<seq<T>>, m: nat, i: nat, e: T, cap: nat)
    requires m + 1 < |v| && |v[m]| == cap > 0 && i < cap
    ensures Flatten(SpillNext(v, m, i, e, cap)) == Flatten(v[..m]) + InsertAt(v[m], i, e) + Flatten(v[m + 1..])
  {
    hide Flatten;
    var x := v[m];
    var l := InsertAt(x[..cap - 1], i, e);
    var r := [x[cap - 1]] + v[m + 1];
    FlattenUpdate2(v, m, l, r);
    assert l + r == InsertAt(x, i, e) + v[m + 1];
    FlattenTail(v, m + 1);
  }

  lemma {:induction false} SpillPrevFlat<T>(v: seq<seq<T>>, m: nat, i: nat, e: T, cap: nat)
    requires 0 < m < |v| && |v[m]| == cap > 0 && 0 < i <= cap
    ensures Flatten(SpillPrev(v, m, i, e, cap)) == Flatten(v[..m]) + InsertAt(v[m], i, e) + Flatten(v[m + 1..])
  {
    var x := v[m];
    var l := v[m - 1] + [x[0]];
    var r := InsertAt(x[1..], i - 1, e);
    FlattenUpdate2(v, m - 1, l, r);
    assert l + r == v[m - 1] + InsertAt(x, i, e);
    FlattenAt(v[..m], m - 1);
    assert v[..m][..m - 1] == v[..m - 1];
  }

  lemma {:induction false} LinkAfterParts<T>(v: seq<seq<T>>, m: nat)
    requires m < |v|
    ensures |LinkAfter(v, m)| == |v| + 1 && LinkAfter(v, m)[m + 1] == []
    ensures LinkAfter(v, m)[..m] == v[..m] && LinkAfter(v, m)[m] == v[m]
    ensures LinkAfter(v, m)[m + 1..] == [[]] + v[m + 1..]
    ensures Flatten(LinkAfter(v, m)[m + 1..]) == Flatten(v[m + 1..])
  {
    var w := LinkAfter(v, m);
    assert w[m + 1..] == [[]] + v[m + 1..];
    FlattenConcat([[]], v[m + 1..]);
    FlattenOne<T>([]);
  }

  /** Every branch of gen_add_ira puts e at its sorted place or leaves the slabs alone. */
  lemma {:induction false} AddInRangeFlat(v: Blocks, m: nat, e: int)
    requires m < |v| && SizesOk(v)
    requires v[m][0] <= e <= Last(v[m])
    ensures var i := LowerBound(v[m], e);
            && i < |v[m]|
            && if v[m][i] == e then AddInRange(v, m, e) == v
               else Flatten(AddInRange(v, m, e)) == Flatten(v[..m]) + InsertAt(v[m], i, e) + Flatten(v[m + 1..])
  {
    var i := LowerBound(v[m], e);
    if v[m][i] == e {
    } else if |v[m]| < SELEM_MAX {
      FlattenUpdate(v, m, InsertAt(v[m], i, e));
    } else if m + 1 < |v| && |v[m + 1]| < SELEM_MAX {
      SpillNextFlat(v, m, i, e, SELEM_MAX);
    } else if m > 0 && |v[m - 1]| < SELEM_MAX {
      SpillPrevFlat(v, m, i, e, SELEM_MAX);
    } else {
      LinkAfterParts(v, m);
      SpillNextFlat(LinkAfter(v, m), m, i, e, SELEM_MAX);
    }
  }

  /** Appending to the slab before m is inserting at the front of slab m. */
  lemma {:induction false} AppendPrevFlat<T>(v: seq<seq<T>>, m: nat, e: T)
    requires 0 < m < |v|
    ensures Flatten(v[m - 1 := InsertAt(v[m - 1], |v[m - 1]|, e)])
         == Flatten(v[..m]) + InsertAt(v[m], 0, e) + Flatten(v[m + 1..])
  {
    var l := InsertAt(v[m - 1], |v[m - 1]|, e);
    FlattenUpdate(v, m - 1, l);
    FlattenInit(v, m);
    FlattenTail(v, m);
    assert l + v[m] == v[m - 1] + InsertAt(v[m], 0, e);
  }

  /** Prepending to the slab after m is inserting at the end of slab m. */
  lemma {:induction false} PrependNextFlat<T>(v: seq<seq<T>>, m: nat, e: T)
    requires m + 1 < |v|
    ensures Flatten(v[m + 1 := InsertAt(v[m + 1], 0, e)])
         == Flatten(v[..m]) + InsertAt(v[m], |v[m]|, e) + Flatten(v[m + 1..])
  {
    var r := InsertAt(v[m + 1], 0, e);
    FlattenUpdate(v, m + 1, r);
    FlattenInit(v, m + 1);
    FlattenTail(v, m + 1);
    assert v[m] + r == InsertAt(v[m], |v[m]|, e) + v[m + 1];
  }

  lemma {:induction false} NewBeforeFlat<T>(v: seq<seq<T>>, m: nat, e: T)
    requires m < |v|
    ensures Flatten(LinkBefore(v, m)[m := [e]]) == Flatten(v[..m]) + InsertAt(v[m], 0, e) + Flatten(v[m + 1..])
  {
    assert LinkBefore(v, m)[m := [e]] == v[..m] + [[e], v[m]] + v[m + 1..];
    FlattenFour(v[..m], [e], v[m], v[m + 1..]);
    assert [e] + v[m] == InsertAt(v[m], 0, e);
  }

  lemma {:induction false} NewAfterFlat<T>(v: seq<seq<T>>, m: nat, e: T)
    requires m < |v|
    ensures Flatten(LinkAfter(v, m)[m + 1 := [e]])
         == Flatten(v[..m]) + InsertAt(v[m], |v[m]|, e) + Flatten(v[m + 1..])
  {
    assert LinkAfter(v, m)[m + 1 := [e]] == v[..m] + [v[m], [e]] + v[m + 1..];
    FlattenFour(v[..m], v[m], [e], v[m + 1..]);
    assert v[m] + [e] == InsertAt(v[m], |v[m]|, e);
  }

  lemma {:induction false} AddUnderFlat(v: Blocks, m: nat, e: int)
    requires m < |v| && SizesOk(v)
    requires e < v[m][0]
    requires m > 0 ==> LowerBound(v[m - 1], e) == |v[m - 1]|
    ensures Flatten(AddUnder(v, m, e)) == Flatten(v[..m]) + InsertAt(v[m], 0, e) + Flatten(v[m + 1..])
  {
    assert LowerBound(v[m], e) == 0;
    if |v[m]| < SELEM_MAX {
      FlattenUpdate(v, m, InsertAt(v[m], 0, e));
    } else if m > 0 && |v[m - 1]| < SELEM_MAX {
      AppendPrevFlat(v, m, e);
    } else if m + 1 < |v| && |v[m + 1]| < SELEM_MAX {
      SpillNextFlat(v, m, 0, e, SELEM_MAX);
    } else {
      NewBeforeFlat(v, m, e);
    }
  }

  lemma {:induction false} AddOverFlat(v: Blocks, m: nat, e: int)
    requires m < |v| && SizesOk(v)
    requires LowerBound(v[m], e) == |v[m]|
    requires m + 1 < |v| ==> e < v[m + 1][0]
    ensures Flatten(AddOver(v, m, e)) == Flatten(v[..m]) + InsertAt(v[m], |v[m]|, e) + Flatten(v[m + 1..])
  {
    if |v[m]| < SELEM_MAX {
      FlattenUpdate(v, m, InsertAt(v[m], |v[m]|, e));
    } else if m + 1 < |v| && |v[m + 1]| < SELEM_MAX {
      assert LowerBound(v[m + 1], e) == 0;
      PrependNextFlat(v, m, e);
    } else if m > 0 && |v[m - 1]| < SELEM_MAX {
      SpillPrevFlat(v, m, |v[m]|, e, SELEM_MAX);
    } else {
      NewAfterFlat(v, m, e);
    }
  }

  lemma {:induction false} SpillNextSizes(v: Blocks, m: nat, i: nat, e: int)
    requires m + 1 < |v| && i < SELEM_MAX && SizesOk(v)
    requires |v[m]| == SELEM_MAX && |v[m + 1]| < SELEM_MAX
    ensures SizesOk(SpillNext(v, m, i, e, SELEM_MAX))
    ensures Packed(v) ==> Packed(SpillNext(v, m, i, e, SELEM_MAX))
  {
  }

  lemma {:induction false} SpillNewSizes(v: Blocks, m: nat, i: nat, e: int)
    requires m < |v| && i < SELEM_MAX && SizesOk(v)
    requires |v[m]| == SELEM_MAX && (m + 1 < |v| ==> |v[m + 1]| == SELEM_MAX)
    ensures SizesOk(SpillNext(LinkAfter(v, m), m, i, e, SELEM_MAX))
    ensures Packed(v) ==> Packed(SpillNext(LinkAfter(v, m), m, i, e, SELEM_MAX))
  {
    var w := SpillNext(LinkAfter(v, m), m, i, e, SELEM_MAX);
    assert forall k :: 0 <= k < |w| ==> |w[k]| == if k <= m then |v[k]| else if k == m + 1 then 1 else |v[k - 1]|;
  }

  lemma {:induction false} UpdateSizes(v: Blocks, m: nat, x: seq<int>)
    requires m < |v| && SizesOk(v) && |v[m]| <= |x| <= SELEM_MAX
    ensures SizesOk(v[m := x])
    ensures Packed(v) ==> Packed(v[m := x])
  {
  }

  lemma {:induction false} NewSizes(v: Blocks, k: nat, e: int)
    requires k <= |v| && SizesOk(v)
    requires k < |v| ==> |v[k]| == SELEM_MAX
    requires k > 0 ==> |v[k - 1]| == SELEM_MAX
    ensures SizesOk(InsertAt(v, k, [])[k := [e]])
    ensures Packed(v) ==> Packed(InsertAt(v, k, [])[k := [e]])
  {
    var w := InsertAt(v, k, [])[k := [e]];
    assert forall i :: 0 <= i < |w| ==> |w[i]| == if i < k then |v[i]| else if i == k then 1 else |v[i - 1]|;
  }

  lemma {:induction false} SpillPrevSizes(v: Blocks, m: nat, i: nat, e: int)
    requires 0 < m < |v| && i <= SELEM_MAX && SizesOk(v)
    requires |v[m]| == SELEM_MAX && |v[m - 1]| < SELEM_MAX
    ensures SizesOk(SpillPrev(v, m, i, e, SELEM_MAX))
    ensures Packed(v) ==> Packed(SpillPrev(v, m, i, e, SELEM_MAX))
  {
  }

  lemma {:induction false} AddInRangeSizes(v: Blocks, m: nat, e: int)
    requires m < |v| && SizesOk(v) && v[m][0] <= e <= Last(v[m])
    ensures SizesOk(AddInRange(v, m, e)) && AddInRange(v, m, e) != []
    ensures Packed(v) ==> Packed(AddInRange(v, m, e))
  {
    hide Packed;
    var i := LowerBound(v[m], e);
    if v[m][i] != e {
      if |v[m]| < SELEM_MAX {
        UpdateSizes(v, m, InsertAt(v[m], i, e));
      } else if m + 1 < |v| && |v[m + 1]| < SELEM_MAX {
        SpillNextSizes(v, m, i, e);
      } else if m > 0 && |v[m - 1]| < SELEM_MAX {
        SpillPrevSizes(v, m, i, e);
      } else {
        SpillNewSizes(v, m, i, e);
      }
    }
  }

  lemma {:induction false} AddUnderSizes(v: Blocks, m: nat, e: int)
    requires m < |v| && SizesOk(v) && e < v[m][0]
    ensures SizesOk(AddUnder(v, m, e)) && AddUnder(v, m, e) != []
    ensures Packed(v) ==> Packed(AddUnder(v, m, e))
  {
    hide Packed;
    if |v[m]| < SELEM_MAX {
      UpdateSizes(v, m, InsertAt(v[m], LowerBound(v[m], e), e));
    } else if m > 0 && |v[m - 1]| < SELEM_MAX {
      UpdateSizes(v, m - 1, InsertAt(v[m - 1], LowerBound(v[m - 1], e), e));
    } else if m + 1 < |v| && |v[m + 1]| < SELEM_MAX {
      SpillNextSizes(v, m, 0, e);
    } else {
      NewSizes(v, m, e);
    }
  }

  lemma {:induction false} AddOverSizes(v: Blocks, m: nat, e: int)
    requires m < |v| && SizesOk(v) && Last(v[m]) < e
    ensures SizesOk(AddOver(v, m, e)) && AddOver(v, m, e) != []
    ensures Packed(v) ==> Packed(AddOver(v, m, e))
  {
    hide Packed;
    var i := LowerBound(v[m], e);
    if |v[m]| < SELEM_MAX {
      UpdateSizes(v, m, InsertAt(v[m], i, e));
    } else if m + 1 < |v| && |v[m + 1]| < SELEM_MAX {
      UpdateSizes(v, m + 1, InsertAt(v[m + 1], LowerBound(v[m + 1], e), e));
    } else if m > 0 && |v[m - 1]| < SELEM_MAX {
      SpillPrevSizes(v, m, i, e);
    } else {
      NewSizes(v, m + 1, e);
    }
  }

  /** Adding keeps the slab discipline: sizes, and the packing of neighbours. */
  lemma {:induction false} GenAddSizes(v: Blocks, e: int)
    requires v != [] && SizesOk(v)
    ensures GenAdd(v, e) != [] && SizesOk(GenAdd(v, e))
    ensures Packed(v) ==> Packed(GenAdd(v, e))
  {
    var m := ScanIndex(v, e);
    var fs := ScanStatus(v, e);
    if fs == FS_IN_RANGE {
      AddInRangeSizes(v, m, e);
    } else if fs == FS_OVER_RANGE {
      AddOverSizes(v, m, e);
    } else {
      AddUnderSizes(v, m, e);
    }
  }

  /** Where the branches of slab_gen_add put e, relative to the slab the scan stopped at. */
  lemma {:induction false} GenAddFlat(v: Blocks, e: int)
    requires v != [] && SortedBlocks(v)
    ensures var m := ScanIndex(v, e); var i := LowerBound(v[m], e);
            if i < |v[m]| && v[m][i] == e then GenAdd(v, e) == v
            else Flatten(GenAdd(v, e)) == Flatten(v[..m]) + InsertAt(v[m], i, e) + Flatten(v[m + 1..])
  {
    ScanSplits(v, e);
    var m := ScanIndex(v, e);
    var fs := ScanStatus(v, e);
    if fs == FS_IN_RANGE {
      AddInRangeFlat(v, m, e);
    } else if fs == FS_OVER_RANGE {
      OverIsEnd(v[m], e);
      AddOverFlat(v, m, e);
    } else {
      if m > 0 {
        PrevIsBelow(v, m, e);
      }
      AddUnderFlat(v, m, e);
    }
  }

  lemma {:induction false} LowerBoundInParts(a: seq<int>, x: seq<int>, b: seq<int>, e: int)
    requires AllBelow(a, e) && AllAbove(b, e)
    ensures LowerBound(a + x + b, e) == |a| + LowerBound(x, e)
  {
    var f := a + x + b;
    var p := |a| + LowerBound(x, e);
    assert forall i :: 0 <= i < p ==> f[i] == if i < |a| then a[i] else x[i - |a|];
    LowerBoundIs(f, e, p);
  }

  lemma {:induction false} NotInParts(a: seq<int>, x: seq<int>, b: seq<int>, e: int)
    requires AllBelow(a, e) && AllAbove(b, e) && e !in x
    ensures e !in a + x + b
  {
  }

  lemma {:induction false} InsertInParts(a: seq<int>, x: seq<int>, b: seq<int>, e: int)
    requires StrictlySorted(a + x + b) && AllBelow(a, e) && AllAbove(b, e)
    ensures var i := LowerBound(x, e);
            if i < |x| && x[i] == e then e in a + x + b
            else e !in a + x + b && a + InsertAt(x, i, e) + b == InsertSorted(a + x + b, e)
  {
    hide StrictlySorted, AllBelow, AllAbove, LowerBound;
    var f := a + x + b;
    var i := LowerBound(x, e);
    SortedParts(a, x, b);
    LowerBoundInParts(a, x, b, e);
    if i < |x| && x[i] == e {
      assert f[|a| + i] == e;
    } else {
      NotIn(x, e);
      NotInParts(a, x, b, e);
      assert a + InsertAt(x, i, e) + b == InsertAt(f, |a| + i, e);
    }
  }

  /** Adding inserts e at its sorted place; a duplicate changes nothing. */
  lemma {:induction false} GenAddCorrect(v: Blocks, e: int)
    requires v != [] && SortedBlocks(v)
    ensures GenAdd(v, e) != [] && SortedBlocks(GenAdd(v, e))
    ensures Packed(v) ==> Packed(GenAdd(v, e))
    ensures e in Flatten(v) ==> GenAdd(v, e) == v
    ensures e !in Flatten(v) ==> Flatten(GenAdd(v, e)) == InsertSorted(Flatten(v), e)
  {
    GenAddSizes(v, e);
    ScanSplits(v, e);
    GenAddFlat(v, e);
    var m := ScanIndex(v, e);
    InsertInParts(Flatten(v[..m]), v[m], Flatten(v[m + 1..]), e);
    if e !in Flatten(v) {
      InsertSortedIsUnion(Flatten(v), e);
    }
  }

  lemma {:induction false} PrevIsBelow(v: Blocks, m: nat, e: int)
    requires SortedBlocks(v) && 0 < m < |v| && Last(v[m - 1]) < e
    ensures LowerBound(v[m - 1], e) == |v[m - 1]|
  {
    FlattenAt(v, m - 1);
    SortedParts(Flatten(v[..m - 1]), v[m - 1], Flatten(v[m..]));
    OverIsEnd(v[m - 1], e);
  }

  /* ---- which blocks an addition touches ---- */

  /** Block m is to hold x. One entry too many goes to a neighbour with room, the last one to the next block
      or the first one to the block before, and otherwise to a block of its own. What comes in front of the
      block prefers that side. */
  function Spread<T>(v: seq<seq<T>>, m: nat, x: seq<T>, cap: nat, front: bool): seq<seq<T>>
    requires m < |v| && x != []
  {
    var n := |x| - 1;
    var next, prev := m + 1 < |v| && |v[m + 1]| < cap, m > 0 && |v[m - 1]| < cap;
    if |x| <= cap then v[..m] + [x] + v[m + 1..]
    else if next && !(front && prev) then v[..m] + [x[..n], [x[n]] + v[m + 1]] + v[m + 2..]
    else if prev then v[..m - 1] + [v[m - 1] + [x[0]], x[1..]] + v[m + 1..]
    else if front then v[..m] + [[x[0]], x[1..]] + v[m + 1..]
    else v[..m] + [x[..n], [x[n]]] + v[m + 1..]
  }

  lemma {:induction false} SpillNextSpreads<T>(v: seq<seq<T>>, m: nat, i: nat, e: T, cap: nat)
    requires m + 1 < |v| && |v[m]| == cap > 0 && i < cap
    ensures var x := InsertAt(v[m], i, e);
      SpillNext(v, m, i, e, cap) == v[..m] + [x[..cap], [x[cap]] + v[m + 1]] + v[m + 2..]
  {
    var x := InsertAt(v[m], i, e);
    assert x[..cap] == InsertAt(v[m][..cap - 1], i, e);
  }

  lemma {:induction false} SpillPrevSpreads<T>(v: seq<seq<T>>, m: nat, i: nat, e: T, cap: nat)
    requires 0 < m < |v| && |v[m]| == cap > 0 && 0 < i <= cap
    ensures var x := InsertAt(v[m], i, e);
      SpillPrev(v, m, i, e, cap) == v[..m - 1] + [v[m - 1] + [x[0]], x[1..]] + v[m + 1..]
  {
    var x := InsertAt(v[m], i, e);
    assert x[1..] == InsertAt(v[m][1..], i - 1, e);
  }

  lemma {:induction false} FrontSpreads<T>(v: seq<seq<T>>, m: nat, e: T, cap: nat)
    requires m < |v| && |v[m]| == cap > 0
    ensures Spread(v, m, InsertAt(v[m], 0, e), cap, true)
         == if m > 0 && |v[m - 1]| < cap then v[m - 1 := InsertAt(v[m - 1], |v[m - 1]|, e)]
            else if m + 1 < |v| && |v[m + 1]| < cap then SpillNext(v, m, 0, e, cap)
            else LinkBefore(v, m)[m := [e]]
  {
    hide InsertAt, SpillNext;
    InsertAtFront(v[m], e);
    assert ([e] + v[m])[1..] == v[m];
    if m > 0 && |v[m - 1]| < cap {
      InsertAtBack(v[m - 1], e);
    } else if m + 1 < |v| && |v[m + 1]| < cap {
      SpillNextSpreads(v, m, 0, e, cap);
    } else {
      LinkIs(v, m);
    }
  }

  lemma {:induction false} BackSpreads<T>(v: seq<seq<T>>, m: nat, e: T, cap: nat)
    requires m < |v| && |v[m]| == cap > 0
    ensures Spread(v, m, InsertAt(v[m], cap, e), cap, false)
         == if m + 1 < |v| && |v[m + 1]| < cap then v[m + 1 := InsertAt(v[m + 1], 0, e)]
            else if m > 0 && |v[m - 1]| < cap then SpillPrev(v, m, cap, e, cap)
            else LinkAfter(v, m)[m + 1 := [e]]
  {
    hide InsertAt, SpillPrev;
    InsertAtBack(v[m], e);
    assert (v[m] + [e])[..cap] == v[m];
    if m + 1 < |v| && |v[m + 1]| < cap {
      InsertAtFront(v[m + 1], e);
    } else if m > 0 && |v[m - 1]| < cap {
      SpillPrevSpreads(v, m, cap, e, cap);
    } else {
      LinkIs(v, m);
    }
  }

  lemma {:induction false} MiddleSpreads<T>(v: seq<seq<T>>, m: nat, i: nat, e: T, cap: nat)
    requires m < |v| && |v[m]| == cap && 0 < i < cap
    ensures Spread(v, m, InsertAt(v[m], i, e), cap, false)
         == if m + 1 < |v| && |v[m + 1]| < cap then SpillNext(v, m, i, e, cap)
            else if m > 0 && |v[m - 1]| < cap then SpillPrev(v, m, i, e, cap)
            else SpillNext(LinkAfter(v, m), m, i, e, cap)
  {
    hide InsertAt, SpillNext, SpillPrev;
    if m + 1 < |v| && |v[m + 1]| < cap {
      SpillNextSpreads(v, m, i, e, cap);
    } else if m > 0 && |v[m - 1]| < cap {
      SpillPrevSpreads(v, m, i, e, cap);
    } else {
      var w := LinkAfter(v, m);
      LinkAfterParts(v, m);
      SpillNextSpreads(w, m, i, e, cap);
      assert w[m + 2..] == w[m + 1..][1..] == v[m + 1..];
      var x := InsertAt(v[m], i, e);
      assert [x[cap]] + w[m + 1] == [x[cap]];
    }
  }

  lemma LinkIs<T>(v: seq<seq<T>>, m: nat)
    requires m < |v|
    ensures LinkBefore(v, m) == v[..m] + [[], v[m]] + v[m + 1..]
    ensures LinkAfter(v, m) == v[..m] + [v[m], []] + v[m + 1..]
  {
  }

  lemma RoomSpreads<T>(v: seq<seq<T>>, m: nat, x: seq<T>, cap: nat, front: bool)
    requires m < |v| && 0 < |x| <= cap
    ensures Spread(v, m, x, cap, front) == v[m := x]
  {
  }

  lemma {:induction false} InRangeSpreads(v: Blocks, m: nat, e: int)
    requires m < |v| && SizesOk(v) && v[m][0] < e < Last(v[m]) && v[m][LowerBound(v[m], e)] != e
    ensures AddInRange(v, m, e) == Spread(v, m, InsertSorted(v[m], e), SELEM_MAX, false)
  {
    hide InsertAt, SpillNext, SpillPrev, LinkAfter, Spread;
    var i := LowerBound(v[m], e);
    if |v[m]| < SELEM_MAX {
      RoomSpreads(v, m, InsertAt(v[m], i, e), SELEM_MAX, false);
    } else {
      MiddleSpreads(v, m, i, e, SELEM_MAX);
    }
  }

  lemma {:induction false} UnderSpreads(v: Blocks, m: nat, e: int)
    requires m < |v| && SizesOk(v) && e < v[m][0] && (m > 0 ==> LowerBound(v[m - 1], e) == |v[m - 1]|)
    ensures AddUnder(v, m, e) == Spread(v, m, InsertSorted(v[m], e), SELEM_MAX, true)
  {
    hide InsertAt, SpillNext, LinkBefore, Spread;
    if |v[m]| < SELEM_MAX {
      RoomSpreads(v, m, InsertAt(v[m], 0, e), SELEM_MAX, true);
    } else {
      FrontSpreads(v, m, e, SELEM_MAX);
    }
  }

  lemma {:induction false} OverSpreads(v: Blocks, m: nat, e: int)
    requires m + 1 == |v| && SizesOk(v) && LowerBound(v[m], e) == |v[m]|
    ensures AddOver(v, m, e) == Spread(v, m, InsertSorted(v[m], e), SELEM_MAX, false)
  {
    hide InsertAt, SpillPrev, LinkAfter, Spread;
    if |v[m]| < SELEM_MAX {
      RoomSpreads(v, m, InsertAt(v[m], |v[m]|, e), SELEM_MAX, false);
    } else {
      BackSpreads(v, m, e, SELEM_MAX);
    }
  }

  /** The three ways of slab_gen_add are one: e goes to its place in the slab the scan stopped at, and what
      then is too much to a neighbour. No other slab changes. */
  lemma {:induction false} GenAddSpreads(v: Blocks, e: int)
    requires v != [] && SortedBlocks(v) && e !in Flatten(v)
    ensures var m := ScanIndex(v, e); GenAdd(v, e) == Spread(v, m, InsertSorted(v[m], e), SELEM_MAX, e < v[m][0])
  {
    hide Flatten, StrictlySorted, InsertSorted, AddInRange, AddUnder, AddOver, AllBelow, AllAbove, Spread;
    var m := ScanIndex(v, e);
    ScanSplits(v, e);
    InsertInParts(Flatten(v[..m]), v[m], Flatten(v[m + 1..]), e);
    if e < v[m][0] {
      if m > 0 {
        PrevIsBelow(v, m, e);
      }
      UnderSpreads(v, m, e);
    } else if Last(v[m]) < e {
      OverIsEnd(v[m], e);
      OverSpreads(v, m, e);
    } else {
      Between(v[m], e);
      InRangeSpreads(v, m, e);
    }
  }

  lemma Between(x: seq<int>, e: int)
    requires x != [] && x[0] <= e <= Last(x) && StrictlySorted(x)
    requires LowerBound(x, e) < |x| ==> x[LowerBound(x, e)] != e
    ensures x[0] < e < Last(x)
  {
  }
}
