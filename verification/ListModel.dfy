/** The whole unlayered slab list as a state machine over its two representations, and what every
    run of it means: a set of elements when sorted, a sequence when ordered. */
module ListModel {
  import opened Seqs
  import opened SlabModel
  import opened Division
  import opened AddModel
  import opened RemModel

  /** Small: the singly linked list. Slabs: the doubly linked list of slabs. */
  datatype ListState = Small(s: seq<int>) | Slabs(v: Blocks)

  datatype Ret = SL_SUCCESS | SL_EDUP | SL_ENFOUND | SL_EMPTY | SL_ENCIRC

  function Contents(st: ListState): seq<int> {
    match st
    case Small(s) => s
    case Slabs(v) => Flatten(v)
  }

  ghost predicate Valid(st: ListState) {
    match st
    case Small(s) => |s| <= SMELEM_MAX
    case Slabs(v) => v != [] && SizesOk(v) && Packed(v) && |Flatten(v)| >= SMELEM_MAX
  }

  ghost predicate SortedState(st: ListState) {
    Valid(st) && StrictlySorted(Contents(st))
  }

  /* ---- packing ---- */

  lemma {:induction false} PackedIsDense(v: Blocks)
    requires SizesOk(v) && Packed(v)
    ensures (SELEM_MAX + 1) * (|v| / 2) <= |Flatten(v)|
    ensures |v| % 2 == 1 ==> (SELEM_MAX + 1) * (|v| / 2) < |Flatten(v)|
    decreases |v|
  {
    hide Flatten;
    if |v| == 1 {
      assert v == [v[0]];
      FlattenOne(v[0]);
    } else if |v| > 1 {
      var w := v[2..];
      PackedIsDense(w);
      assert v == [v[0], v[1]] + w;
      FlattenConcat([v[0], v[1]], w);
      FlattenPair(v[0], v[1]);
      assert |v| / 2 == |w| / 2 + 1;
      Times(SELEM_MAX + 1, |w| / 2, |w| / 2);
    }
  }

  lemma FlattenPair(x: seq<int>, y: seq<int>)
    ensures Flatten([x, y]) == x + y
  {
    assert [x, y] == [x] + [y];
    FlattenConcat([x], [y]);
    FlattenOne(x);
    FlattenOne(y);
  }

  /** The number of slabs is at most about twice what the elements need. */
  lemma SlabCountBound(st: ListState)
    requires Valid(st) && st.Slabs?
    ensures |st.v| <= 1 + 2 * (|Contents(st)| / (SELEM_MAX + 1))
  {
    PackedIsDense(st.v);
    QuotientAtLeast(|st.v| / 2, |Contents(st)|, SELEM_MAX + 1);
    var c, q := SELEM_MAX + 1, |Contents(st)| / (SELEM_MAX + 1);
    if |st.v| % 2 == 1 || |st.v| / 2 <= q {
    }
  }

  /** A list that has shrunk to SMELEM_MAX elements holds them all in its head slab. */
  lemma HeadHoldsAll(st: ListState)
    requires Valid(st) && st.Slabs? && |Contents(st)| == SMELEM_MAX
    ensures |st.v| == 1 && st.v[0] == Contents(st)
  {
    SlabCountBound(st);
    assert st.v == [st.v[0]];
    FlattenOne(st.v[0]);
  }

  /* ---- sorted lists ---- */

  /** What try_reap_all does, given the answer of its percentage test. */
  function TryReap(v: Blocks, reap: bool): Blocks
    requires Fits(v)
  {
    if reap then Reap(v) else v
  }

  lemma TryReapCorrect(v: Blocks, reap: bool)
    requires v != [] && SizesOk(v) && Packed(v)
    ensures Flatten(TryReap(v, reap)) == Flatten(v)
    ensures TryReap(v, reap) != [] && SizesOk(TryReap(v, reap)) && Packed(TryReap(v, reap))
  {
    ReapCorrect(v);
  }

  /** What becomes of the slabs v that an operation has left, by whether a reap is due. */
  ghost predicate ReapedIf(v: Blocks, reap: bool, w: Blocks) {
    if reap then Reaped(v, w) else w == v
  }

  lemma TryReapReaps(v: Blocks, reap: bool)
    requires v != [] && SizesOk(v) && Packed(v)
    ensures ReapedIf(v, reap, TryReap(v, reap))
  {
    ReapReaps(v);
  }

  /** small_list_to_slab: all nodes go into one slab. */
  function AsSlabs(st: ListState): Blocks {
    if st.Small? then [st.s] else st.v
  }

  lemma AsSlabsValid(st: ListState)
    requires Valid(st) && (st.Small? ==> |st.s| == SMELEM_MAX)
    ensures AsSlabs(st) != [] && SizesOk(AsSlabs(st)) && Packed(AsSlabs(st))
    ensures Flatten(AsSlabs(st)) == Contents(st)
  {
    if st.Small? {
      FlattenOne(st.s);
    }
  }

  /** slablist_add_impl on a sorted list without sublayers, rep = 0. */
  function AddSorted(st: ListState, e: int, reap: bool): (ListState, Ret)
    requires Valid(st)
  {
    if st.Small? && |st.s| <= SMELEM_MAX - 1 then
      if e in st.s then (st, SL_EDUP) else (Small(InsertSorted(st.s, e)), SL_SUCCESS)
    else
      AsSlabsValid(st);
      var v := AsSlabs(st);
      GenAddSizes(v, e);
      (Slabs(TryReap(GenAdd(v, e), reap)), if e in Flatten(v) then SL_EDUP else SL_SUCCESS)
  }

  lemma {:induction false} AddSortedCorrect(st: ListState, e: int, reap: bool)
    requires SortedState(st)
    ensures var (st', ret) := AddSorted(st, e, reap);
            && SortedState(st')
            && Contents(st') == (if e in Contents(st) then Contents(st) else InsertSorted(Contents(st), e))
            && ret == (if e in Contents(st) then SL_EDUP else SL_SUCCESS)
  {
    hide Flatten, GenAdd, StrictlySorted, TryReap, Packed;
    if e !in Contents(st) {
      InsertSortedIsUnion(Contents(st), e);
    }
    if !(st.Small? && |st.s| <= SMELEM_MAX - 1) {
      AsSlabsValid(st);
      GenAddCorrect(AsSlabs(st), e);
      TryReapCorrect(GenAdd(AsSlabs(st), e), reap);
    }
  }

  /** In which representation an addition leaves the list, and in which slabs: those of the addition alone,
      or what a reap leaves of these. */
  lemma {:induction false} AddSortedSlabs(st: ListState, e: int, reap: bool)
    requires SortedState(st)
    ensures AddSorted(st, e, reap).0.Small? <==> st.Small? && |st.s| < SMELEM_MAX
    ensures AddSorted(st, e, reap).0.Slabs? ==>
      && AsSlabs(st) != [] && SizesOk(AsSlabs(st))
      && ReapedIf(GenAdd(AsSlabs(st), e), reap, AddSorted(st, e, reap).0.v)
  {
    hide Flatten, GenAdd, StrictlySorted, TryReap, Packed, ReapedIf;
    if !(st.Small? && |st.s| <= SMELEM_MAX - 1) {
      AsSlabsValid(st);
      GenAddCorrect(AsSlabs(st), e);
      TryReapReaps(GenAdd(AsSlabs(st), e), reap);
    }
  }

  lemma AddSortedHead(st: ListState, e: int, reap: bool)
    requires SortedState(st)
    ensures var st' := AddSorted(st, e, reap).0; reap && st'.Slabs? && |st'.v| > 1 ==> |st'.v[0]| == SELEM_MAX
  {
    hide AddSorted, GenAdd, Flatten;
    AddSortedSlabs(st, e, reap);
  }

  /** slab_to_small_list when the list has shrunk to SMELEM_MAX elements: copies the head slab only. */
  function Shrunk(st: ListState): ListState
    requires Valid(st)
  {
    if st.Slabs? && |Contents(st)| == SMELEM_MAX then Small(st.v[0]) else st
  }

  /** The conversion loses nothing. */
  lemma ShrunkLossless(st: ListState)
    requires Valid(st)
    ensures Valid(Shrunk(st)) && Contents(Shrunk(st)) == Contents(st)
    ensures Shrunk(st).Slabs? ==> |Contents(st)| > SMELEM_MAX
  {
    if st.Slabs? && |Contents(st)| == SMELEM_MAX {
      HeadHoldsAll(st);
    }
  }

  /** Removal by key looks at a slot inside the slab: the key is not above the maximum of a slab list. */
  predicate RemDefined(st: ListState, e: int)
    requires Valid(st)
  {
    var t := Shrunk(st);
    t.Slabs? ==> e <= Last(Last'(t.v))
  }

  /** The slot slablist_rem_impl compares with the key holds an element exactly when the key is not
      above the maximum of the list. */
  lemma {:induction false} RemSlotIsLive(v: Blocks, e: int)
    requires v != [] && SortedBlocks(v)
    ensures LowerBound(v[ScanIndex(v, e)], e) < |v[ScanIndex(v, e)]| <==> e <= Last(Last'(v))
  {
    var m := ScanIndex(v, e);
    ScanSplits(v, e);
    if m + 1 < |v| {
      FlattenLast(v[m + 1..]);
      assert Last'(v[m + 1..]) == Last'(v);
    }
    if Last(v[m]) < e {
      OverIsEnd(v[m], e);
    }
  }

  function RemAtBlocks(v: Blocks, m: nat, i: nat): Blocks
    requires m < |v| && i < |v[m]| && SizesOk(v)
  {
    GenericRem(v[m := DeleteAt(v[m], i)], m)
  }

  lemma {:induction false} DeleteFlat(v: Blocks, m: nat, i: nat)
    requires m < |v| && i < |v[m]|
    ensures |Flatten(v[..m])| + i < |Flatten(v)|
    ensures Flatten(v[m := DeleteAt(v[m], i)]) == DeleteAt(Flatten(v), |Flatten(v[..m])| + i)
    ensures Flatten(v)[|Flatten(v[..m])| + i] == v[m][i]
  {
    FlattenUpdate(v, m, DeleteAt(v[m], i));
    FlattenAt(v, m);
  }

  lemma {:induction false} DeleteLeavesOneShort(v: Blocks, m: nat, i: nat)
    requires m < |v| && i < |v[m]| && SizesOk(v) && Packed(v) && (|v| == 1 ==> |v[0]| > 1)
    ensures OneShort(v[m := DeleteAt(v[m], i)], m)
  {
  }

  lemma {:induction false} RemAtBlocksCorrect(v: Blocks, m: nat, i: nat)
    requires m < |v| && i < |v[m]| && SizesOk(v) && Packed(v) && |Flatten(v)| > 1
    ensures RemAtBlocks(v, m, i) != [] && SizesOk(RemAtBlocks(v, m, i)) && Packed(RemAtBlocks(v, m, i))
    ensures |Flatten(v[..m])| + i < |Flatten(v)|
    ensures Flatten(RemAtBlocks(v, m, i)) == DeleteAt(Flatten(v), |Flatten(v[..m])| + i)
    ensures Flatten(v)[|Flatten(v[..m])| + i] == v[m][i]
  {
    if |v| == 1 {
      assert v == [v[0]];
      FlattenOne(v[0]);
    }
    DeleteFlat(v, m, i);
    DeleteLeavesOneShort(v, m, i);
    GenericRemPacks(v[m := DeleteAt(v[m], i)], m);
    GenericRemConserves(v[m := DeleteAt(v[m], i)], m);
  }

  /** slablist_rem_impl on a sorted list without sublayers. */
  function RemSorted(st: ListState, e: int, reap: bool): (ListState, Ret)
    requires SortedState(st) && RemDefined(st, e)
  {
    ShrunkLossless(st);
    var t := Shrunk(st);
    if t.Small? then
      if t.s == [] then (t, SL_EMPTY)
      else if e in t.s then (Small(DeleteAt(t.s, LowerBound(t.s, e))), SL_SUCCESS)
      else (t, SL_ENFOUND)
    else
      RemSlotIsLive(t.v, e);
      var m := ScanIndex(t.v, e);
      var i := LowerBound(t.v[m], e);
      if t.v[m][i] != e then (t, SL_ENFOUND)
      else
        RemAtBlocksCorrect(t.v, m, i);
        (Slabs(TryReap(RemAtBlocks(t.v, m, i), reap)), SL_SUCCESS)
  }

  lemma {:induction false} DeleteKeeps(s: seq<int>, p: nat)
    requires StrictlySorted(s) && p < |s|
    ensures StrictlySorted(DeleteAt(s, p)) && LowerBound(s, s[p]) == p
  {
    LowerBoundIs(s, s[p], p);
    DeleteAtIsDifference(s, p);
  }

  /** What a removal of e from f promises of the contents g and the answer. */
  ghost predicate RemPromise(f: seq<int>, e: int, g: seq<int>, ret: Ret) {
    && ret == (if f == [] then SL_EMPTY else if e in f then SL_SUCCESS else SL_ENFOUND)
    && LowerBound(f, e) <= |f|
    && if e in f then LowerBound(f, e) < |f| && g == DeleteAt(f, LowerBound(f, e)) else g == f
  }

  lemma {:induction false} RemSmallCorrect(s: seq<int>, e: int)
    requires StrictlySorted(s) && e in s
    ensures LowerBound(s, e) < |s| && StrictlySorted(DeleteAt(s, LowerBound(s, e)))
  {
    var p :| 0 <= p < |s| && s[p] == e;
    DeleteKeeps(s, p);
  }

  /** Where the search for a key ends, inside the scanned slab and in the whole list. */
  lemma {:induction false} SearchInParts(v: Blocks, e: int)
    requires v != [] && SortedBlocks(v)
    ensures var m := ScanIndex(v, e); var i := LowerBound(v[m], e);
            (i < |v[m]| && v[m][i] == e) <==> e in Flatten(v)
  {
    hide Flatten, StrictlySorted, InsertAt, InsertSorted;
    ScanSplits(v, e);
    var m := ScanIndex(v, e);
    InsertInParts(Flatten(v[..m]), v[m], Flatten(v[m + 1..]), e);
  }

  lemma {:induction false} RemAtBlocksSorted(v: Blocks, m: nat, i: nat, e: int, reap: bool)
    requires SortedState(Slabs(v)) && |Flatten(v)| > SMELEM_MAX
    requires m < |v| && i < |v[m]| && v[m][i] == e
    ensures RemAtBlocks(v, m, i) != [] && SizesOk(RemAtBlocks(v, m, i))
    ensures SortedState(Slabs(TryReap(RemAtBlocks(v, m, i), reap)))
    ensures RemPromise(Flatten(v), e, Flatten(TryReap(RemAtBlocks(v, m, i), reap)), SL_SUCCESS)
  {
    hide Flatten, RemAtBlocks, TryReap;
    RemAtBlocksCorrect(v, m, i);
    DeleteKeeps(Flatten(v), |Flatten(v[..m])| + i);
    TryReapCorrect(RemAtBlocks(v, m, i), reap);
  }

  /** Removing deletes exactly the key, or reports that it is absent and changes nothing. */
  lemma {:induction false} RemSortedCorrect(st: ListState, e: int, reap: bool)
    requires SortedState(st) && RemDefined(st, e)
    ensures SortedState(RemSorted(st, e, reap).0)
    ensures RemPromise(Contents(st), e, Contents(RemSorted(st, e, reap).0), RemSorted(st, e, reap).1)
  {
    ShrunkLossless(st);
    var t := Shrunk(st);
    if t.Small? {
      if e in t.s {
        RemSmallCorrect(t.s, e);
      }
    } else {
      RemSlotIsLive(t.v, e);
      SearchInParts(t.v, e);
      var m := ScanIndex(t.v, e);
      var i := LowerBound(t.v[m], e);
      if t.v[m][i] == e {
        RemAtBlocksSorted(t.v, m, i, e, reap);
      }
    }
  }

  /** In which representation and in which slabs a removal leaves the list; without a reap they are those
      of the shuffle alone. */
  lemma {:induction false} RemSortedSlabs(st: ListState, e: int, reap: bool)
    requires SortedState(st) && RemDefined(st, e)
    ensures RemSorted(st, e, reap).0.Small? <==> st.Small? || |Contents(st)| == SMELEM_MAX
    ensures RemSorted(st, e, reap).1 != SL_SUCCESS && st.Slabs? && |Contents(st)| > SMELEM_MAX ==> RemSorted(st, e, reap).0 == st
    ensures RemSorted(st, e, reap).0.Slabs? && e in Contents(st) ==>
      && st.Slabs? && (var m := ScanIndex(st.v, e); var i := LowerBound(st.v[m], e);
                       && i < |st.v[m]| && ReapedIf(RemAtBlocks(st.v, m, i), reap, RemSorted(st, e, reap).0.v))
  {
    hide Flatten, RemAtBlocks, TryReap, ReapedIf, Packed, StrictlySorted;
    ShrunkLossless(st);
    var t := Shrunk(st);
    if t.Slabs? {
      RemSlotIsLive(t.v, e);
      SearchInParts(t.v, e);
      var m := ScanIndex(t.v, e);
      var i := LowerBound(t.v[m], e);
      RemAtBlocksCorrect(t.v, m, i);
      TryReapReaps(RemAtBlocks(t.v, m, i), reap);
    }
  }

  lemma RemSortedHead(st: ListState, e: int, reap: bool)
    requires SortedState(st) && RemDefined(st, e)
    ensures var (st', ret) := RemSorted(st, e, reap);
      ret == SL_SUCCESS && reap && st'.Slabs? && |st'.v| > 1 ==> |st'.v[0]| == SELEM_MAX
  {
    hide RemSorted, RemAtBlocks, Flatten, RemDefined;
    RemSortedCorrect(st, e, reap);
    RemSortedSlabs(st, e, reap);
  }

  /** slablist_reap */
  function ReapList(st: ListState): ListState
    requires Valid(st)
  {
    if st.Slabs? then Slabs(Reap(st.v)) else st
  }

  lemma ReapListCorrect(st: ListState)
    requires Valid(st)
    ensures Valid(ReapList(st)) && Contents(ReapList(st)) == Contents(st)
    ensures if st.Small? then ReapList(st) == st else ReapList(st).Slabs? && Reaped(st.v, ReapList(st).v)
  {
    if st.Slabs? {
      ReapReaps(st.v);
    }
  }

  /** slablist_find on a sorted list without sublayers: the element found, if any. */
  function FindSorted(st: ListState, key: int): bool
    requires SortedState(st)
  {
    match st
    case Small(s) => key in s
    case Slabs(v) =>
      var m := ScanIndex(v, key);
      var i := LowerBound(v[m], key);
      i < |v[m]| && v[m][i] == key
  }

  /** A find succeeds exactly on members. */
  lemma {:induction false} FindSortedCorrect(st: ListState, key: int)
    requires SortedState(st)
    ensures FindSorted(st, key) <==> key in Contents(st)
  {
    if st.Slabs? {
      SearchInParts(st.v, key);
    }
  }

  /* ---- runs of a sorted list ---- */

  datatype SortedOp = Add(e: int, reap: bool) | Rem(e: int, reap: bool) | ReapNow

  function StepSorted(st: ListState, op: SortedOp): ListState
    requires SortedState(st)
    requires op.Rem? ==> RemDefined(st, op.e)
  {
    match op
    case Add(e, reap) => AddSorted(st, e, reap).0
    case Rem(e, reap) => RemSorted(st, e, reap).0
    case ReapNow => ReapList(st)
  }

  function StepSet(s: set<int>, op: SortedOp): set<int> {
    match op
    case Add(e, _) => s + {e}
    case Rem(e, _) => s - {e}
    case ReapNow => s
  }

  lemma {:induction false} RemPromiseElements(f: seq<int>, e: int, g: seq<int>, ret: Ret)
    requires StrictlySorted(f) && RemPromise(f, e, g, ret)
    ensures Elements(g) == Elements(f) - {e}
  {
    if e in f {
      var p :| 0 <= p < |f| && f[p] == e;
      DeleteKeeps(f, p);
      DeleteAtIsDifference(f, p);
    }
  }

  lemma {:induction false} StepSortedCorrect(st: ListState, op: SortedOp)
    requires SortedState(st)
    requires op.Rem? ==> RemDefined(st, op.e)
    ensures SortedState(StepSorted(st, op))
    ensures Elements(Contents(StepSorted(st, op))) == StepSet(Elements(Contents(st)), op)
  {
    hide StrictlySorted, RemPromise, AddSorted, RemSorted, RemDefined, InsertSorted, Valid, ReapList, Contents;
    var f := Contents(st);
    match op {
      case Add(e, reap) =>
        AddSortedCorrect(st, e, reap);
        if e in f {
          assert Elements(f) + {e} == Elements(f);
        } else {
          InsertSortedIsUnion(f, e);
        }
      case Rem(e, reap) =>
        RemSortedCorrect(st, e, reap);
        RemPromiseElements(f, e, Contents(RemSorted(st, e, reap).0), RemSorted(st, e, reap).1);
      case ReapNow => ReapListCorrect(st);
    }
  }

  /** Every removal of the run is of a key the code can look up. */
  ghost predicate RunDefined(st: ListState, ops: seq<SortedOp>)
    requires SortedState(st)
    decreases |ops|
  {
    ops != [] ==>
      && (ops[0].Rem? ==> RemDefined(st, ops[0].e))
      && (StepSortedCorrect(st, ops[0]); RunDefined(StepSorted(st, ops[0]), ops[1..]))
  }

  ghost function RunSorted(st: ListState, ops: seq<SortedOp>): ListState
    requires SortedState(st) && RunDefined(st, ops)
    decreases |ops|
  {
    if ops == [] then st
    else StepSortedCorrect(st, ops[0]); RunSorted(StepSorted(st, ops[0]), ops[1..])
  }

  ghost function RunSet(s: set<int>, ops: seq<SortedOp>): set<int>
    decreases |ops|
  {
    if ops == [] then s else RunSet(StepSet(s, ops[0]), ops[1..])
  }

  /** Over every run, across both representations and all reaps, the list is the mathematical set:
      sorted, without duplicates, with sl_elems its cardinality, and densely packed. */
  lemma {:induction false} RunRefinesSet(st: ListState, ops: seq<SortedOp>)
    requires SortedState(st) && RunDefined(st, ops)
    ensures var st' := RunSorted(st, ops);
            && SortedState(st')
            && Elements(Contents(st')) == RunSet(Elements(Contents(st)), ops)
            && |Contents(st')| == |RunSet(Elements(Contents(st)), ops)|
            && (st'.Slabs? ==> |st'.v| <= 1 + 2 * (|Contents(st')| / (SELEM_MAX + 1)))
            && (st'.Slabs? && |Contents(st')| == SMELEM_MAX ==> |st'.v| == 1 && st'.v[0] == Contents(st'))
    decreases |ops|
  {
    if ops == [] {
      StrictlySortedCardinality(Contents(st));
      if st.Slabs? {
        SlabCountBound(st);
        ShrunkLossless(st);
        if |Contents(st)| == SMELEM_MAX {
          HeadHoldsAll(st);
        }
      }
    } else {
      StepSortedCorrect(st, ops[0]);
      RunRefinesSet(StepSorted(st, ops[0]), ops[1..]);
    }
  }
}
