/** What slablist_rem.c does to the sequence of slab contents: the shuffle that frees a slab, and
    the reap pass. */
module RemModel {
  import opened Seqs
  import opened SlabModel
  import opened Division

  ghost predicate Fits(v: Blocks) {
    forall k :: 0 <= k < |v| ==> |v[k]| <= SELEM_MAX
  }

  function Min(a: nat, b: nat): nat {
    if a < b then a else b
  }

  /** move_to_next: the last elements of slab m go to the front of slab m + 1, as many as fit. */
  function MoveNext(v: Blocks, m: nat): (w: Blocks)
    requires m + 1 < |v| && |v[m + 1]| <= SELEM_MAX
    ensures |w| == |v|
  {
    var from := |v[m]| - Min(|v[m]|, FreeSpace(v[m + 1]));
    v[m := v[m][..from]][m + 1 := v[m][from..] + v[m + 1]]
  }

  /** move_to_prev: the first elements of slab m go to the end of slab m - 1, as many as fit. */
  function MovePrev(v: Blocks, m: nat): (w: Blocks)
    requires 0 < m < |v| && |v[m - 1]| <= SELEM_MAX
    ensures |w| == |v|
  {
    var cp := Min(|v[m]|, FreeSpace(v[m - 1]));
    v[m - 1 := v[m - 1] + v[m][..cp]][m := v[m][cp..]]
  }

  function Unlink(v: Blocks, m: nat): Blocks
    requires m < |v|
  {
    DeleteAt(v, m)
  }

  /** slab_generic_rem on slab m, which has just lost an element. */
  function GenericRem(v: Blocks, m: nat): Blocks
    requires m < |v| && Fits(v)
  {
    if v[m] == [] then Unlink(v, m)
    else if |v| == 1 then v
    else if m + 1 < |v| && |v[m]| <= FreeSpace(v[m + 1]) then Unlink(MoveNext(v, m), m)
    else if m > 0 && |v[m]| <= FreeSpace(v[m - 1]) then Unlink(MovePrev(v, m), m)
    else if m > 0 && m + 1 < |v| && |v[m]| <= FreeSpace(v[m - 1]) + FreeSpace(v[m + 1]) then
      Unlink(MovePrev(MoveNext(v, m), m), m)
    else v
  }

  /** slab_generic_rem goes on to try the same shuffle with the next and with the previous slab as
      the one to empty. Those two branches never run: all three guards say that three slabs fit
      into two, and the middle slab has been tried first. */
  lemma ShuffleGuardsCoincide(p: seq<int>, m: seq<int>, n: seq<int>)
    requires |p| <= SELEM_MAX && |m| <= SELEM_MAX && |n| <= SELEM_MAX
    ensures |m| <= FreeSpace(p) + FreeSpace(n) <==> |n| <= FreeSpace(m) + FreeSpace(p)
    ensures |m| <= FreeSpace(p) + FreeSpace(n) <==> |p| <= FreeSpace(m) + FreeSpace(n)
  {
  }

  lemma {:induction false} MoveNextFlat(v: Blocks, m: nat)
    requires m + 1 < |v| && |v[m + 1]| <= SELEM_MAX
    ensures Flatten(MoveNext(v, m)) == Flatten(v)
  {
    hide Flatten;
    var from := |v[m]| - Min(|v[m]|, FreeSpace(v[m + 1]));
    FlattenUpdate2(v, m, v[m][..from], v[m][from..] + v[m + 1]);
    FlattenAt2(v, m);
    assert v[m][..from] + (v[m][from..] + v[m + 1]) == v[m] + v[m + 1];
  }

  lemma {:induction false} MovePrevFlat(v: Blocks, m: nat)
    requires 0 < m < |v| && |v[m - 1]| <= SELEM_MAX
    ensures Flatten(MovePrev(v, m)) == Flatten(v)
  {
    hide Flatten;
    var cp := Min(|v[m]|, FreeSpace(v[m - 1]));
    FlattenUpdate2(v, m - 1, v[m - 1] + v[m][..cp], v[m][cp..]);
    FlattenAt2(v, m - 1);
    assert v[m - 1] + v[m][..cp] + v[m][cp..] == v[m - 1] + v[m];
  }

  lemma {:induction false} UnlinkFlat(v: Blocks, m: nat)
    requires m < |v| && v[m] == []
    ensures Flatten(Unlink(v, m)) == Flatten(v)
  {
    FlattenAt(v, m);
    FlattenConcat(v[..m], v[m + 1..]);
  }

  /** The shuffle loses, duplicates and reorders nothing: a slab is unlinked only once it is empty. */
  lemma {:induction false} GenericRemConserves(v: Blocks, m: nat)
    requires m < |v| && Fits(v)
    ensures Flatten(GenericRem(v, m)) == Flatten(v)
    ensures |v| - 1 <= |GenericRem(v, m)| <= |v|
  {
    if v[m] == [] {
      UnlinkFlat(v, m);
    } else if |v| == 1 {
    } else if m + 1 < |v| && |v[m]| <= FreeSpace(v[m + 1]) {
      MoveNextFlat(v, m);
      UnlinkFlat(MoveNext(v, m), m);
    } else if m > 0 && |v[m]| <= FreeSpace(v[m - 1]) {
      MovePrevFlat(v, m);
      UnlinkFlat(MovePrev(v, m), m);
    } else if m > 0 && m + 1 < |v| && |v[m]| <= FreeSpace(v[m - 1]) + FreeSpace(v[m + 1]) {
      MoveNextFlat(v, m);
      MovePrevFlat(MoveNext(v, m), m);
      UnlinkFlat(MovePrev(MoveNext(v, m), m), m);
    }
  }

  /** Which slabs the shuffle touches: the next one is tried first and takes all of slab m behind a slab
      before it that stays as it was; then the one before; then the two share slab m, the next one taking
      as much as it can. */
  lemma {:induction false} GenericRemPlaces(v: Blocks, m: nat)
    requires m < |v| && Fits(v) && v[m] != []
    ensures var w, nx, pv := GenericRem(v, m), m + 1 < |v|, m > 0;
      if nx && |v[m] + v[m + 1]| <= SELEM_MAX then w == v[..m] + [v[m] + v[m + 1]] + v[m + 2..]
      else if pv && |v[m - 1] + v[m]| <= SELEM_MAX then w == v[..m - 1] + [v[m - 1] + v[m]] + v[m + 1..]
      else if nx && pv && |v[m - 1] + v[m] + v[m + 1]| <= 2 * SELEM_MAX then
        && |w| == |v| - 1 && w[..m - 1] == v[..m - 1] && w[m + 1..] == v[m + 2..]
        && w[m - 1] + w[m] == v[m - 1] + v[m] + v[m + 1] && |w[m]| == SELEM_MAX
      else w == v
  {
    hide Fits;
    if |v| > 1 {
      if m + 1 < |v| && |v[m] + v[m + 1]| <= SELEM_MAX {
        JoinNext(v, m);
      } else if m > 0 && |v[m - 1] + v[m]| <= SELEM_MAX {
        JoinPrev(v, m);
      } else if m > 0 && m + 1 < |v| && |v[m - 1] + v[m] + v[m + 1]| <= 2 * SELEM_MAX {
        ShareOut(v, m);
      }
    }
  }

  lemma {:induction false} JoinNext(v: Blocks, m: nat)
    requires m + 1 < |v| && |v[m + 1]| <= SELEM_MAX && |v[m]| <= FreeSpace(v[m + 1])
    ensures Unlink(MoveNext(v, m), m) == v[..m] + [v[m] + v[m + 1]] + v[m + 2..]
  {
  }

  lemma {:induction false} JoinPrev(v: Blocks, m: nat)
    requires 0 < m < |v| && |v[m - 1]| <= SELEM_MAX && |v[m]| <= FreeSpace(v[m - 1])
    ensures Unlink(MovePrev(v, m), m) == v[..m - 1] + [v[m - 1] + v[m]] + v[m + 1..]
  {
    assert v[m][..|v[m]|] == v[m];
  }

  lemma {:induction false} ShareOut(v: Blocks, m: nat)
    requires 0 < m < |v| - 1 && |v[m - 1]| <= SELEM_MAX && |v[m + 1]| <= SELEM_MAX
    requires FreeSpace(v[m + 1]) < |v[m]| <= FreeSpace(v[m - 1]) + FreeSpace(v[m + 1])
    ensures var w := Unlink(MovePrev(MoveNext(v, m), m), m);
      && |w| == |v| - 1 && w[..m - 1] == v[..m - 1] && w[m + 1..] == v[m + 2..]
      && w[m - 1] + w[m] == v[m - 1] + v[m] + v[m + 1] && |w[m]| == SELEM_MAX
  {
    var w, c := Unlink(MovePrev(MoveNext(v, m), m), m), |v[m]| - FreeSpace(v[m + 1]);
    assert w[m - 1] == v[m - 1] + v[m][..c] && w[m] == v[m][c..] + v[m + 1];
    assert v[m][..c] + v[m][c..] == v[m];
  }

  /** Packed, except that slab m may be one short with either neighbour: what a removal leaves. */
  ghost predicate OneShort(v: Blocks, m: nat) {
    && m < |v|
    && (forall k :: 0 <= k < |v| ==> |v[k]| <= SELEM_MAX && (k != m ==> v[k] != []))
    && (forall k :: 0 <= k < |v| - 1 ==>
          |v[k]| + |v[k + 1]| > if k == m || k + 1 == m then SELEM_MAX - 1 else SELEM_MAX)
    && (|v| == 1 ==> v[m] != [])
  }

  /** In every branch the result is packed again, with no slab empty or overfull. */
  lemma {:induction false} GenericRemPacks(v: Blocks, m: nat)
    requires OneShort(v, m)
    ensures SizesOk(GenericRem(v, m)) && Packed(GenericRem(v, m)) && GenericRem(v, m) != []
  {
    if v[m] != [] && |v| > 1 {
      if m + 1 < |v| && |v[m]| <= FreeSpace(v[m + 1]) {
        MergeNextPacks(v, m);
      } else if m > 0 && |v[m]| <= FreeSpace(v[m - 1]) {
        MergePrevPacks(v, m);
      } else if m > 0 && m + 1 < |v| && |v[m]| <= FreeSpace(v[m - 1]) + FreeSpace(v[m + 1]) {
        SplitPacks(v, m);
      }
    }
  }

  lemma {:induction false} MergeNextPacks(v: Blocks, m: nat)
    requires OneShort(v, m) && m + 1 < |v| && v[m] != [] && |v[m]| <= FreeSpace(v[m + 1])
    ensures var w := Unlink(MoveNext(v, m), m); SizesOk(w) && Packed(w) && w != []
  {
  }

  lemma {:induction false} MergePrevPacks(v: Blocks, m: nat)
    requires OneShort(v, m) && 0 < m && v[m] != [] && |v[m]| <= FreeSpace(v[m - 1])
    ensures var w := Unlink(MovePrev(v, m), m); SizesOk(w) && Packed(w) && w != []
  {
  }

  lemma {:induction false} SplitPacks(v: Blocks, m: nat)
    requires OneShort(v, m) && 0 < m < |v| - 1
    requires |v[m]| > FreeSpace(v[m - 1]) && |v[m]| > FreeSpace(v[m + 1])
    requires |v[m]| <= FreeSpace(v[m - 1]) + FreeSpace(v[m + 1])
    ensures var w := Unlink(MovePrev(MoveNext(v, m), m), m); SizesOk(w) && Packed(w) && w != []
  {
  }

  /* ---- reaping ---- */

  /** One round of the reap loop: fill slab i from slab i + 1, and unlink that one if it ran empty. */
  function ReapStep(v: Blocks, i: nat): (w: Blocks)
    requires i + 1 < |v| && Fits(v)
    ensures |v| - 1 <= |w| <= |v|
  {
    if |v[i]| < SELEM_MAX then
      var w := MovePrev(v, i + 1);
      if w[i + 1] == [] then Unlink(w, i + 1) else w
    else v
  }

  lemma {:induction false} ReapStepFits(v: Blocks, i: nat)
    requires i + 1 < |v| && Fits(v)
    ensures Fits(ReapStep(v, i))
  {
  }

  /** slablist_reap with the loop at slab i. */
  function ReapFrom(v: Blocks, i: nat): Blocks
    requires Fits(v)
    decreases |v| - i
  {
    if i + 1 < |v| then
      ReapStepFits(v, i);
      ReapFrom(ReapStep(v, i), i + 1)
    else v
  }

  function Reap(v: Blocks): Blocks
    requires Fits(v)
  {
    ReapFrom(v, 0)
  }

  /** Packed but for the pair that starts at i. */
  ghost predicate PackedBut(v: Blocks, i: nat) {
    forall k :: 0 <= k < |v| - 1 && k != i ==> |v[k]| + |v[k + 1]| > SELEM_MAX
  }

  lemma {:induction false} ReapStepFlat(v: Blocks, i: nat)
    requires i + 1 < |v| && Fits(v)
    ensures Flatten(ReapStep(v, i)) == Flatten(v)
  {
    if |v[i]| < SELEM_MAX {
      MovePrevFlat(v, i + 1);
      var w := MovePrev(v, i + 1);
      if w[i + 1] == [] {
        UnlinkFlat(w, i + 1);
      }
    }
  }

  lemma {:induction false} ReapStepSizes(v: Blocks, i: nat)
    requires i + 1 < |v| && SizesOk(v)
    ensures SizesOk(ReapStep(v, i))
    ensures PackedBut(v, i) ==> PackedBut(ReapStep(v, i), i + 1)
  {
  }

  /** A reap keeps the elements, leaves no slab empty, and keeps the packing. */
  lemma {:induction false} ReapFromCorrect(v: Blocks, i: nat)
    requires i < |v| && SizesOk(v)
    ensures Flatten(ReapFrom(v, i)) == Flatten(v)
    ensures SizesOk(ReapFrom(v, i)) && 0 < |ReapFrom(v, i)| <= |v|
    ensures PackedBut(v, i) ==> Packed(ReapFrom(v, i))
    decreases |v| - i
  {
    if i + 1 < |v| {
      var w := ReapStep(v, i);
      ReapStepFlat(v, i);
      ReapStepSizes(v, i);
      if i + 1 < |w| {
        ReapFromCorrect(w, i + 1);
      }
    }
  }

  lemma {:induction false} ReapCorrect(v: Blocks)
    requires v != [] && SizesOk(v)
    ensures Flatten(Reap(v)) == Flatten(v)
    ensures SizesOk(Reap(v)) && 0 < |Reap(v)| <= |v|
    ensures Packed(v) ==> Packed(Reap(v))
  {
    ReapFromCorrect(v, 0);
  }

  /* ---- how well a reap compacts ---- */

  /** Number of elements in the first n slabs. */
  function Total(v: Blocks, n: nat): nat
    requires n <= |v|
  {
    if n == 0 then 0 else Total(v, n - 1) + |v[n - 1]|
  }

  /** What the comments promise of a reap: every slab but the last is full. */
  ghost predicate Compact(v: Blocks) {
    forall k :: 0 <= k < |v| - 1 ==> |v[k]| == SELEM_MAX
  }

  /** Going from a to b elements needs another slab, or fills the current one exactly. */
  predicate Carries(a: nat, b: nat)
    requires a > 0 && b > 0
  {
    b % SELEM_MAX == 0 || (b - 1) / SELEM_MAX > (a - 1) / SELEM_MAX
  }

  ghost predicate CarriesAll(t: nat, rest: Blocks)
    requires t > 0
    decreases |rest|
  {
    |rest| > 1 ==> Carries(t, t + |rest[0]|) && CarriesAll(t + |rest[0]|, rest[1..])
  }

  lemma {:induction false} ReapFromKeepsPrefix(v: Blocks, i: nat)
    requires i <= |v| && Fits(v)
    ensures |ReapFrom(v, i)| >= i && ReapFrom(v, i)[..i] == v[..i]
    ensures i < |v| ==> |ReapFrom(v, i)| > i
    decreases |v| - i
  {
    if i + 1 < |v| {
      ReapStepFits(v, i);
      var w := ReapStep(v, i);
      assert w[..i] == v[..i];
      ReapFromKeepsPrefix(w, i + 1);
      assert ReapFrom(w, i + 1)[..i] == ReapFrom(w, i + 1)[..i + 1][..i];
      assert w[..i + 1][..i] == w[..i];
    }
  }

  lemma CarryFacts(i: nat, c: nat, n: nat)
    requires 0 < c <= SELEM_MAX && 0 < n <= SELEM_MAX
    ensures Carries(SELEM_MAX * i + c, SELEM_MAX * i + c + n) <==> c + n >= SELEM_MAX
  {
    var m := SELEM_MAX;
    QuotientIs(i, c - 1, m);
    if c + n < m {
      QuotientIs(i, c + n, m);
      QuotientIs(i, c + n - 1, m);
    } else if c + n == m {
      assert m * i + c + n == m * (i + 1) + 0;
      QuotientIs(i + 1, 0, m);
    } else {
      assert m * (i + 1) <= m * i + c + n - 1;
      QuotientAtLeast(i + 1, m * i + c + n - 1, m);
    }
  }

  ghost predicate FullBefore(v: Blocks, i: nat)
    requires i <= |v|
  {
    forall k :: 0 <= k < i ==> |v[k]| == SELEM_MAX
  }

  /** The shapes a round of the loop can leave behind. */
  lemma {:induction false} ReapStepShape(v: Blocks, i: nat)
    requires i + 1 < |v| && SizesOk(v) && FullBefore(v, i)
    ensures var w, n := ReapStep(v, i), |v[i]| + |v[i + 1]|;
            && SizesOk(w)
            && if n > SELEM_MAX then |w| == |v| && FullBefore(w, i + 1) && w[i + 2..] == v[i + 2..]
                                     && |w[i + 1]| == n - SELEM_MAX
               else |w| == |v| - 1 && FullBefore(w, i) && |w[i]| == n && w[i + 1..] == v[i + 2..]
  {
    ReapStepSizes(v, i);
  }

  lemma {:induction false} StuckShort(w: Blocks, i: nat)
    requires i + 1 < |w| && SizesOk(w) && |w[i]| < SELEM_MAX
    ensures !Compact(ReapFrom(w, i + 1))
  {
    ReapFromKeepsPrefix(w, i + 1);
    var u := ReapFrom(w, i + 1);
    assert u[i] == u[..i + 1][i] == w[..i + 1][i] == w[i];
  }

  lemma {:induction false} ReapFromCompacts(v: Blocks, i: nat)
    requires i < |v| && SizesOk(v) && FullBefore(v, i)
    ensures Compact(ReapFrom(v, i)) <==> CarriesAll(SELEM_MAX * i + |v[i]|, v[i + 1..])
    decreases |v| - i
  {
    hide ReapStep, Carries;
    if i + 1 < |v| {
      var w := ReapStep(v, i);
      ReapStepShape(v, i);
      CarryFacts(i, |v[i]|, |v[i + 1]|);
      if |v[i]| + |v[i + 1]| > SELEM_MAX {
        ReapFromCompacts(w, i + 1);
        assert v[i + 1..][1..] == v[i + 2..];
      } else if i + 2 == |v| {
        assert ReapFrom(w, i + 1) == w;
      } else if |w[i]| < SELEM_MAX {
        StuckShort(w, i);
      } else {
        ExactFill(v, i);
        ReapFromCompacts(w, i + 1);
      }
    }
  }

  lemma {:induction false} ExactFill(v: Blocks, i: nat)
    requires i + 2 < |v| && SizesOk(v) && |v[i]| + |v[i + 1]| == SELEM_MAX && FullBefore(v, i)
    ensures var w := ReapStep(v, i);
            && (CarriesAll(SELEM_MAX * i + |v[i]|, v[i + 1..])
                <==> CarriesAll(SELEM_MAX * (i + 1) + |w[i + 1]|, w[i + 2..]))
  {
    var w := ReapStep(v, i);
    ReapStepShape(v, i);
    CarryFacts(i, |v[i]|, |v[i + 1]|);
    CarryFacts(i, SELEM_MAX, |v[i + 2]|);
    assert w[i + 1..][0] == w[i + 1] && v[i + 2..][0] == v[i + 2];
    assert v[i + 1..][1..] == v[i + 2..];
    assert v[i + 2..][1..] == v[i + 3..] == w[i + 1..][1..] == w[i + 2..];
  }

  /** From slab k on every slab but the last carries the running element count into, or exactly to the
      end of, the next slab's worth of elements. */
  ghost predicate CarriesFrom(v: Blocks, k: nat) {
    forall j :: k <= j < |v| - 1 ==> Total(v, j) > 0 && Carries(Total(v, j), Total(v, j + 1))
  }

  lemma {:induction false} CarriesAllIs(v: Blocks, k: nat)
    requires SizesOk(v) && 0 < k < |v|
    ensures Total(v, k) > 0
    ensures CarriesAll(Total(v, k), v[k..]) <==> CarriesFrom(v, k)
    decreases |v| - k
  {
    assert Total(v, k) >= |v[k - 1]|;
    if k + 1 < |v| {
      CarriesAllIs(v, k + 1);
      assert v[k..][1..] == v[k + 1..];
    }
  }

  /** A reap does not always compact the list as its comments say. It does exactly
      when every slab but the first and the last carries. */
  lemma {:induction false} ReapCompactsIff(v: Blocks)
    requires |v| > 1 && SizesOk(v)
    ensures Compact(Reap(v)) <==> CarriesFrom(v, 1)
  {
    hide Compact, CarriesFrom, CarriesAll, Total, ReapFrom;
    ReapFromCompacts(v, 0);
    CarriesAllIs(v, 1);
    TotalOne(v);
    assert SELEM_MAX * 0 + |v[0]| == Total(v, 1);
  }

  lemma TotalOne(v: Blocks)
    requires v != []
    ensures Total(v, 1) == |v[0]|
  {
    assert Total(v, 1) == Total(v, 0) + |v[0]|;
  }

  /** What a reap leaves of slabs that are packed: the same elements, packed, in a head slab that is full
      if there is another one, and compacted exactly if the running count carries. */
  ghost predicate Reaped(v: Blocks, w: Blocks) {
    && Flatten(w) == Flatten(v) && SizesOk(w) && Packed(w) && 0 < |w| <= |v|
    && (|w| > 1 ==> |w[0]| == SELEM_MAX)
    && (|v| > 1 ==> (Compact(w) <==> CarriesFrom(v, 1)))
  }

  lemma {:induction false} ReapReaps(v: Blocks)
    requires v != [] && SizesOk(v) && Packed(v)
    ensures Reaped(v, Reap(v))
  {
    hide Flatten, CarriesFrom, Compact;
    ReapCorrect(v);
    if |v| > 1 {
      ReapCompactsIff(v);
      ReapStepShape(v, 0);
      var w := ReapStep(v, 0);
      ReapFromKeepsPrefix(w, 1);
      assert Reap(v)[0] == Reap(v)[..1][0] == w[..1][0];
    }
  }

  /** A packed list on which the promise fails, whatever the capacity: of slabs with 1, SELEM_MAX, 1 and
      SELEM_MAX elements the reap leaves SELEM_MAX, 2 and SELEM_MAX. */
  lemma {:induction false} ReapLeavesGap(v: Blocks)
    requires SELEM_MAX > 2 && |v| == 4 && |v[0]| == |v[2]| == 1 && |v[1]| == |v[3]| == SELEM_MAX
    ensures SizesOk(v) && Packed(v) && !Compact(Reap(v))
  {
    ReapCompactsIff(v);
    var m := SELEM_MAX;
    assert Total(v, 1) == 1 && Total(v, 2) == m + 1 && Total(v, 3) == m + 2;
    assert m * 1 == m;
    QuotientIs(1, 0, m);
    QuotientIs(1, 1, m);
    QuotientIs(1, 2, m);
    assert !Carries(Total(v, 2), Total(v, 3));
  }
}
