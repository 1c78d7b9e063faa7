/** A run of a sorted list that ends in slabs which a reap does not compact. */
module ReapGap {
  import opened Seqs
  import opened SlabModel
  import opened Division
  import opened AddModel
  import opened RemModel
  import opened ListModel

  /** Some run leads from a to b. */
  ghost predicate Reaches(a: ListState, b: ListState) {
    SortedState(a) && exists ops :: RunDefined(a, ops) && RunSorted(a, ops) == b
  }

  lemma ReachesSelf(a: ListState)
    requires SortedState(a)
    ensures Reaches(a, a)
  {
    assert RunDefined(a, []) && RunSorted(a, []) == a;
  }

  lemma {:induction false} RunSnoc(a: ListState, ops: seq<SortedOp>, op: SortedOp)
    requires SortedState(a) && RunDefined(a, ops) && SortedState(RunSorted(a, ops))
    requires op.Rem? ==> RemDefined(RunSorted(a, ops), op.e)
    ensures RunDefined(a, ops + [op]) && RunSorted(a, ops + [op]) == StepSorted(RunSorted(a, ops), op)
    decreases |ops|
  {
    hide StepSorted, RemDefined, SortedState;
    if ops == [] {
      StepSortedCorrect(a, op);
      assert ops + [op] == [op] && [op][1..] == [];
    } else {
      StepSortedCorrect(a, ops[0]);
      assert (ops + [op])[1..] == ops[1..] + [op];
      RunSnoc(StepSorted(a, ops[0]), ops[1..], op);
    }
  }

  lemma {:induction false} ReachesStep(a: ListState, b: ListState, op: SortedOp)
    requires Reaches(a, b)
    ensures SortedState(b)
    ensures (op.Rem? ==> RemDefined(b, op.e)) ==> Reaches(a, StepSorted(b, op))
  {
    hide StepSorted, RemDefined, SortedState, RunDefined, RunSorted;
    var ops :| RunDefined(a, ops) && RunSorted(a, ops) == b;
    RunRefinesSet(a, ops);
    if op.Rem? ==> RemDefined(b, op.e) {
      RunSnoc(a, ops, op);
    }
  }

  /* ---- filling a list ---- */

  /** The slabs when 0 to n - 1 have been added to the end one by one. */
  function Chunks(n: nat): (v: Blocks)
    requires n >= SMELEM_MAX
    ensures v != []
  {
    if n == SMELEM_MAX then [seq(n, i => i)] else
    var v := Chunks(n - 1);
    if |Last'(v)| < SELEM_MAX then v[|v| - 1 := Last'(v) + [n - 1]] else v + [[n - 1]]
  }

  function Filled(n: nat): ListState {
    if n <= SMELEM_MAX then Small(seq(n, i => i)) else Slabs(Chunks(n))
  }

  /** All slabs but the last are full, and all elements are below n. */
  ghost predicate FullTo(v: Blocks, n: nat) {
    && v != [] && SizesOk(v) && (forall k :: 0 <= k < |v| - 1 ==> |v[k]| == SELEM_MAX)
    && forall k, i {:trigger v[k][i]} :: 0 <= k < |v| && 0 <= i < |v[k]| ==> v[k][i] < n
  }

  lemma {:induction false} ChunksFull(n: nat)
    requires n >= SMELEM_MAX
    ensures FullTo(Chunks(n), n) && |Flatten(Chunks(n))| == n
  {
    hide Flatten;
    if n == SMELEM_MAX {
      FlattenOne(seq(n, i => i));
    } else {
      ChunksFull(n - 1);
      var v := Chunks(n - 1);
      EndFlat(v, n - 1);
    }
  }

  lemma EndFlat(v: Blocks, e: int)
    requires v != []
    ensures |Flatten(v[|v| - 1 := Last'(v) + [e]])| == |Flatten(v)| + 1 && |Flatten(v + [[e]])| == |Flatten(v)| + 1
  {
    hide Flatten;
    FlattenUpdate(v, |v| - 1, Last'(v) + [e]);
    FlattenAt(v, |v| - 1);
    FlattenConcat(v, [[e]]);
    FlattenOne([e]);
  }

  /** Adding one more to the end. */
  lemma {:induction false} GenAddEnd(v: Blocks, e: nat)
    requires FullTo(v, e)
    ensures GenAdd(v, e) == if |Last'(v)| < SELEM_MAX then v[|v| - 1 := Last'(v) + [e]] else v + [[e]]
  {
    hide LowerBound;
    var x := Last'(v);
    LowerBoundIs(x, e, |x|);
    ScanIndexIs(v, e, |v| - 1);
    InsertAtBack(x, e);
    InsertAtBack(v, []);
  }

  lemma {:induction false} FilledStep(n: nat)
    requires SortedState(Filled(n))
    ensures StepSorted(Filled(n), Add(n, false)) == Filled(n + 1)
  {
    hide GenAdd, Packed, LowerBound, FullTo;
    var s := seq(n, i => i);
    LowerBoundIs(s, n, n);
    if n < SMELEM_MAX {
      InsertAtBack(s, n);
      assert s + [n] == seq(n + 1, i => i);
    } else {
      ChunksFull(n);
      GenAddEnd(Chunks(n), n);
    }
  }

  lemma {:induction false} FilledReached(n: nat)
    ensures Reaches(Small([]), Filled(n))
  {
    hide StepSorted, Filled, Reaches;
    if n == 0 {
      FilledNone();
      ReachesSelf(Small([]));
    } else {
      FilledReached(n - 1);
      ReachesStep(Small([]), Filled(n - 1), Add(n - 1, false));
      FilledStep(n - 1);
    }
  }

  lemma FilledNone()
    ensures Filled(0) == Small([]) && SortedState(Small([]))
  {
  }

  /* ---- emptying a slab from its front ---- */

  /** The shuffle finds no way to free slab m once it holds n elements. */
  predicate Stays(v: Blocks, m: nat, n: nat)
    requires m < |v| && Fits(v)
  {
    && n > 0
    && (m + 1 < |v| ==> n > FreeSpace(v[m + 1]))
    && (m > 0 ==> n > FreeSpace(v[m - 1]))
    && (0 < m < |v| - 1 ==> n > FreeSpace(v[m - 1]) + FreeSpace(v[m + 1]))
  }

  /** Removing the first element of slab m changes that slab only. */
  lemma {:induction false} RemFront(v: Blocks, m: nat)
    requires SortedState(Slabs(v)) && |Flatten(v)| > SMELEM_MAX && m < |v| && |v[m]| > 1 && Stays(v, m, |v[m]| - 1)
    ensures RemDefined(Slabs(v), v[m][0])
    ensures StepSorted(Slabs(v), Rem(v[m][0], false)) == Slabs(v[m := v[m][1..]])
  {
    hide Flatten, Packed;
    var e := v[m][0];
    FrontFound(v, m);
    RemSlotIsLive(v, e);
    assert DeleteAt(v[m], 0) == v[m][1..];
    assert GenericRem(v[m := v[m][1..]], m) == v[m := v[m][1..]];
  }

  lemma {:induction false} FrontFound(v: Blocks, m: nat)
    requires SortedBlocks(v) && m < |v|
    ensures ScanIndex(v, v[m][0]) == m && LowerBound(v[m], v[m][0]) == 0
  {
    hide Flatten;
    FlattenAt(v, m);
    SortedParts(Flatten(v[..m]), v[m], Flatten(v[m + 1..]));
    forall k | 0 <= k < m ensures Last(v[k]) < v[m][0] {
      FlattenAt(v[..m], k);
      assert Last(v[k]) in Flatten(v[..m]);
    }
    ScanIndexIs(v, v[m][0], m);
    LowerBoundIs(v[m], v[m][0], 0);
  }

  /** Removing the first k elements of slab m one by one. */
  lemma {:induction false} FrontReached(a: ListState, v: Blocks, m: nat, k: nat)
    requires Reaches(a, Slabs(v)) && m < |v| && Fits(v) && k < |v[m]| && Stays(v, m, |v[m]| - k)
    requires |Flatten(v)| > SMELEM_MAX + k
    ensures Reaches(a, Slabs(v[m := v[m][k..]]))
    ensures Fits(v[m := v[m][k..]]) && |Flatten(v[m := v[m][k..]])| == |Flatten(v)| - k
    decreases k
  {
    hide Flatten, StepSorted, Reaches, RemDefined;
    FlattenUpdate(v, m, v[m][k..]);
    FlattenAt(v, m);
    if k == 0 {
      assert v[m := v[m][0..]] == v;
    } else {
      var w := v[m := v[m][1..]];
      ReachesStep(a, Slabs(v), Rem(v[m][0], false));
      RemFront(v, m);
      FlattenUpdate(v, m, v[m][1..]);
      assert v[m][1..][k - 1..] == v[m][k..];
      assert w[m := w[m][k - 1..]] == v[m := v[m][k..]];
      FrontReached(a, w, m, k - 1);
    }
  }

  /** From the empty list a run of additions and removals leads to slabs on which a reap leaves one that
      is not full before the last. */
  lemma {:induction false} GapReached() returns (v: Blocks)
    requires SELEM_MAX > 2
    ensures Reaches(Small([]), Slabs(v)) && SizesOk(v) && !Compact(Reap(v))
  {
    hide Flatten, Reaches, Compact, Reap;
    FilledReached(4 * SELEM_MAX);
    v := FourFull();
    FrontReached(Small([]), v, 2, SELEM_MAX - 1);
    v := v[2 := v[2][SELEM_MAX - 1..]];
    FrontReached(Small([]), v, 0, SELEM_MAX - 1);
    v := v[0 := v[0][SELEM_MAX - 1..]];
    ReapLeavesGap(v);
  }

  lemma {:induction false} FullCount(v: Blocks, n: nat)
    requires FullTo(v, n)
    ensures |Flatten(v)| == SELEM_MAX * (|v| - 1) + |Last'(v)|
  {
    if |v| == 1 {
      FlattenOne(v[0]);
      assert v == [v[0]];
    } else {
      FullCount(v[1..], n);
      assert Last'(v[1..]) == Last'(v);
      var m, k := SELEM_MAX, |v| - 2;
      assert m * (k + 1) == m * k + m;
    }
  }

  lemma {:induction false} FourFull() returns (v: Blocks)
    ensures Filled(4 * SELEM_MAX) == Slabs(v) && |v| == 4 && Fits(v)
    ensures (forall k :: 0 <= k < 4 ==> |v[k]| == SELEM_MAX) && |Flatten(v)| == 4 * SELEM_MAX
  {
    hide Flatten, Chunks;
    var m := SELEM_MAX;
    v := Chunks(4 * m);
    ChunksFull(4 * m);
    FullCount(v, 4 * m);
    var k := |v| - 1;
    Times(m, k, if k < 3 then 3 else k);
    Times(m, k + 1, if k < 3 then 3 else k + 1);
    Times(m, 4, if k > 3 then k else 4);
  }
}
