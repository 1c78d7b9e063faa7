/** The sequence of slab contents, without pointers: sizes, packing, order, and the linear scan. */
module SlabModel {
  import opened Seqs

  /** Entries that a slab, a small list and a subslab hold at most. Everything is proved for all
      capacities with 0 < small <= slab, slab > 1 and index > 1; the original has 121, 60 and 512. */
  datatype Capacities = Capacities(slab: nat, small: nat, index: nat)

  type Fitting = c: Capacities | 1 < c.slab && 0 < c.small <= c.slab && 1 < c.index witness Capacities(121, 60, 512)

  const CAPACITIES: Fitting

  const SELEM_MAX: nat := CAPACITIES.slab
  const SMELEM_MAX: nat := CAPACITIES.small
  const SUBELEM_MAX: nat := CAPACITIES.index

  const FS_IN_RANGE := 0
  const FS_UNDER_RANGE := -1
  const FS_OVER_RANGE := 1

  type Blocks = seq<seq<int>>

  /** The bounds callback: where e lies relative to [min, max]. */
  function Bnd(e: int, min: int, max: int): int {
    if e > max then FS_OVER_RANGE else if e < min then FS_UNDER_RANGE else FS_IN_RANGE
  }

  function Last(x: seq<int>): int
    requires x != []
  {
    x[|x| - 1]
  }

  function FreeSpace(x: seq<int>): nat
    requires |x| <= SELEM_MAX
  {
    SELEM_MAX - |x|
  }

  ghost predicate SizesOk(v: Blocks) {
    forall k :: 0 <= k < |v| ==> 0 < |v[k]| <= SELEM_MAX
  }

  /** The packing discipline: two neighbours never fit into one slab. */
  ghost predicate Packed(v: Blocks) {
    forall k :: 0 <= k < |v| - 1 ==> |v[k]| + |v[k + 1]| > SELEM_MAX
  }

  ghost predicate SortedBlocks(v: Blocks) {
    SizesOk(v) && StrictlySorted(Flatten(v))
  }

  /* ---- searching ---- */

  /** The slab a linear scan stops at: the first one whose maximum is not below e, or the last. */
  function ScanIndex(v: Blocks, e: int): (m: nat)
    requires v != [] && SizesOk(v)
    ensures m < |v|
    ensures forall k :: 0 <= k < m ==> Last(v[k]) < e
    ensures m < |v| - 1 ==> e <= Last(v[m])
  {
    if |v| == 1 || e <= Last(v[0]) then 0 else 1 + ScanIndex(v[1..], e)
  }

  lemma {:induction false} ScanIndexIs(v: Blocks, e: int, m: nat)
    requires v != [] && SizesOk(v) && m < |v|
    requires forall k :: 0 <= k < m ==> Last(v[k]) < e
    requires m < |v| - 1 ==> e <= Last(v[m])
    ensures ScanIndex(v, e) == m
  {
  }

  function ScanStatus(v: Blocks, e: int): int
    requires v != [] && SizesOk(v)
  {
    var m := ScanIndex(v, e);
    Bnd(e, v[m][0], Last(v[m]))
  }

  ghost predicate AllBelow(a: seq<int>, e: int) {
    forall i :: 0 <= i < |a| ==> a[i] < e
  }

  ghost predicate AllAbove(b: seq<int>, e: int) {
    forall i :: 0 <= i < |b| ==> e < b[i]
  }

  lemma {:induction false} SortedParts(a: seq<int>, x: seq<int>, b: seq<int>)
    requires StrictlySorted(a + x + b)
    ensures StrictlySorted(a) && StrictlySorted(x) && StrictlySorted(b)
    ensures x != [] ==> AllBelow(a, x[0]) && AllAbove(b, Last(x))
  {
    var f := a + x + b;
    assert forall i :: 0 <= i < |a| ==> a[i] == f[i];
    assert forall i :: 0 <= i < |x| ==> x[i] == f[|a| + i];
    assert forall i :: 0 <= i < |b| ==> b[i] == f[|a| + |x| + i];
  }

  /** Everything before the scanned slab is below e, everything after it above. */
  lemma {:induction false} ScanSplits(v: Blocks, e: int)
    requires v != [] && SortedBlocks(v)
    ensures var m := ScanIndex(v, e);
            && Flatten(v) == Flatten(v[..m]) + v[m] + Flatten(v[m + 1..])
            && AllBelow(Flatten(v[..m]), e) && AllAbove(Flatten(v[m + 1..]), e)
            && StrictlySorted(v[m])
  {
    var m := ScanIndex(v, e);
    FlattenAt(v, m);
    SortedParts(Flatten(v[..m]), v[m], Flatten(v[m + 1..]));
    if m > 0 {
      BelowAll(v[..m], e);
    }
    if m + 1 == |v| {
      assert v[m + 1..] == [];
    }
  }

  lemma {:induction false} BelowAll(a: Blocks, e: int)
    requires a != [] && Last'(a) != [] && Last(Last'(a)) < e
    requires StrictlySorted(Flatten(a))
    ensures AllBelow(Flatten(a), e)
  {
    FlattenLast(a);
  }

  function Last'(v: Blocks): seq<int>
    requires v != []
  {
    v[|v| - 1]
  }

  lemma {:induction false} NotIn(x: seq<int>, e: int)
    requires StrictlySorted(x)
    requires LowerBound(x, e) == |x| || x[LowerBound(x, e)] != e
    ensures e !in x
  {
  }

  lemma {:induction false} OverIsEnd(x: seq<int>, e: int)
    requires StrictlySorted(x) && x != [] && Last(x) < e
    ensures LowerBound(x, e) == |x|
  {
  }

  lemma {:induction false} FlattenTail<T>(v: seq<seq<T>>, m: nat)
    requires m < |v|
    ensures Flatten(v[m..]) == v[m] + Flatten(v[m + 1..])
  {
    assert v[m..][1..] == v[m + 1..];
  }

  lemma {:induction false} FlattenInit<T>(v: seq<seq<T>>, m: nat)
    requires 0 < m <= |v|
    ensures Flatten(v[..m]) == Flatten(v[..m - 1]) + v[m - 1]
  {
    FlattenAt(v[..m], m - 1);
    assert v[..m][..m - 1] == v[..m - 1];
  }
}
