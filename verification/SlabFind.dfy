/** slablist_find.c: searching a slab, and scanning a chain of slabs. */
module SlabFind {
  import opened Seqs
  import opened SlabModel
  import opened SlabCore
  import opened SlabList

  /** What a search of a slab delivers: the place of e in a list without duplicates, the place
      behind all of its duplicates in a list that is used for sorting. */
  ghost function SearchIndex(x: seq<int>, e: int, sorting: bool): nat {
    if sorting then UpperBound(x, e) else LowerBound(x, e)
  }

  ghost predicate Searchable(x: seq<int>, sorting: bool) {
    if sorting then NonDecreasing(x) else StrictlySorted(x)
  }

  /** slab_get_last_elem: skips the run of duplicates from index i on. */
  method SlabGetLastElem(elem: int, s: Slab, i: nat, ghost x: seq<int>) returns (j: nat)
    requires s.Holds(x) && NonDecreasing(x) && i <= |x|
    requires forall k :: 0 <= k < i ==> x[k] <= elem
    ensures j == UpperBound(x, elem)
  {
    j := i;
    while j < s.s_elems && elem >= s.s_arr[j]
      invariant i <= j <= |x|
      invariant forall k :: 0 <= k < j ==> x[k] <= elem
    {
      assert s.s_arr[j] == x[j];
      j := j + 1;
    }
    assert j < |x| ==> s.s_arr[j] == x[j];
    UpperBoundIs(x, elem, j);
  }

  /** slab_bin_srch */
  method SlabBinSrch(elem: int, s: Slab, sorting: bool, ghost x: seq<int>) returns (i: nat)
    requires s.Holds(x) && x != [] && Searchable(x, sorting)
    ensures i == SearchIndex(x, elem, sorting)
  {
    var min, max: int := 0, s.s_elems - 1;
    while max >= min
      invariant 0 <= min <= max + 1 <= |x|
      invariant forall k :: 0 <= k < min ==> x[k] < elem
      invariant forall k :: max < k < |x| ==> x[k] > elem
    {
      var mid := (min + max) / 2;
      var midElem := s.s_arr[mid];
      assert midElem == x[mid];
      if elem > midElem {
        min := mid + 1;
      } else if elem < midElem {
        max := mid - 1;
      } else {
        if sorting {
          i := SlabGetLastElem(elem, s, mid, x);
        } else {
          LowerBoundIs(x, elem, mid);
          i := mid;
        }
        return;
      }
    }
    LowerBoundIs(x, elem, min);
    UpperBoundIs(x, elem, min);
    if min >= s.s_elems {
      min := s.s_elems - 1;
    }
    assert s.s_arr[min] == x[min];
    if elem > s.s_arr[min] {
      min := min + 1;
    }
    i := min;
    if sorting {
      i := SlabGetLastElem(elem, s, min, x);
    }
  }

  /** slab_lin_srch: the simple form that slab_bin_srch is to agree with. */
  method SlabLinSrch(elem: int, s: Slab, sorting: bool, ghost x: seq<int>) returns (i: nat)
    requires s.Holds(x) && Searchable(x, sorting)
    ensures i == SearchIndex(x, elem, sorting)
  {
    i := 0;
    while i < s.s_elems && elem > s.s_arr[i]
      invariant 0 <= i <= |x|
      invariant forall k :: 0 <= k < i ==> x[k] < elem
    {
      assert s.s_arr[i] == x[i];
      i := i + 1;
    }
    assert i < |x| ==> s.s_arr[i] == x[i];
    LowerBoundIs(x, elem, i);
    if sorting {
      i := SlabGetLastElem(elem, s, i, x);
    }
  }

  /** find_linear_scan on a list that is not used for sorting. */
  method FindLinearScan(sl: List, elem: int) returns (r: int, s: Slab, ghost m: nat)
    requires sl.Top() && sl.sl_sorted && SizesOk(sl.view)
    ensures m == ScanIndex(sl.view, elem) && s == sl.slabs[m] && r == ScanStatus(sl.view, elem)
  {
    m := 0;
    s := sl.sl_head;
    assert sl.slabs[0].Holds(sl.view[0]) && sl.slabs[0].Exact(sl.view[0]);
    r := Bnd(elem, s.s_min, s.s_max);
    if r != FS_OVER_RANGE {
      ScanIndexIs(sl.view, elem, 0);
      return;
    }
    var i := 0;
    while i < sl.sl_slabs
      invariant i == m < |sl.slabs| && s == sl.slabs[m]
      invariant forall k :: 0 <= k < m ==> Last(sl.view[k]) < elem
      decreases sl.sl_slabs - i
    {
      assert sl.slabs[m].Holds(sl.view[m]) && sl.slabs[m].Exact(sl.view[m]);
      r := Bnd(elem, s.s_min, s.s_max);
      if r != FS_OVER_RANGE {
        break;
      }
      if s.s_next == null {
        assert m == |sl.slabs| - 1;
        break;
      }
      assert m + 1 < |sl.slabs| && s.s_next == sl.slabs[m + 1];
      s := s.s_next;
      m := m + 1;
      i := i + 1;
    }
    assert sl.slabs[m].Holds(sl.view[m]) && sl.slabs[m].Exact(sl.view[m]);
    ScanIndexIs(sl.view, elem, m);
  }
}
