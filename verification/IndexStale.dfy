/** slablist_add.c: adding a new subslab below with the status that stored extrema give, which is not
    always the right one. When the pointer goes to its place all the same. */
module IndexStale {
  import opened Seqs
  import opened SlabModel
  import opened Groups
  import opened AddModel
  import opened IndexModel

  /** subslab_gen_add with the given status. n belongs at offset d of group j, and the searches in the
      subslabs find this offset among the entries that are left there. */
  function SubAddAs<T>(status: int, g: seq<seq<T>>, j: nat, d: nat, n: T): seq<seq<T>>
    requires j < |g| && d <= |g[j]| && GroupsOk(g) && (status == FS_UNDER_RANGE || d > 0)
  {
    if RoomAt(g, j) then g[j := InsertAt(g[j], d, n)]
    else if status == FS_IN_RANGE then
      if RoomAt(g, j + 1) then SpillNext(g, j, d, n, SUBELEM_MAX)
      else if RoomAt(g, j - 1) then SpillPrev(g, j, d, n, SUBELEM_MAX)
      else SpillNext(LinkAfter(g, j), j, d, n, SUBELEM_MAX)
    else if status == FS_OVER_RANGE then
      if RoomAt(g, j + 1) then g[j + 1 := InsertAt(g[j + 1], 0, n)]
      else if RoomAt(g, j - 1) then SpillPrev(g, j, d, n, SUBELEM_MAX)
      else LinkAfter(g, j)[j + 1 := [n]]
    else
      if RoomAt(g, j - 1) then g[j - 1 := InsertAt(g[j - 1], |g[j - 1]|, n)]
      else if RoomAt(g, j + 1) then SpillNext(g, j, d, n, SUBELEM_MAX)
      else LinkBefore(g, j)[j := [n]]
  }

  /** n has come to its place in the concatenation, and nothing else has moved. */
  ghost predicate WellPlaced<T>(g: seq<seq<T>>, j: nat, d: nat, n: T, w: seq<seq<T>>)
    requires j < |g| && d <= |g[j]|
  {
    Spot(g, j, d) <= |Flatten(g)| && Flatten(w) == InsertAt(Flatten(g), Spot(g, j, d), n)
  }

  function TrueStatus(d: nat, len: nat): int {
    if d == 0 then FS_UNDER_RANGE else if d == len then FS_OVER_RANGE else FS_IN_RANGE
  }

  /** With the right status it is the addition proved for the layers. */
  lemma {:induction false} RightStatus<T>(g: seq<seq<T>>, j: nat, d: nat, n: T)
    requires j < |g| && d <= |g[j]| && GroupsOk(g)
    ensures SubAddAs(TrueStatus(d, |g[j]|), g, j, d, n) == SubAdd(g, j, d, n)
    ensures WellPlaced(g, j, d, n, SubAdd(g, j, d, n))
  {
    hide SpillNext, SpillPrev, InsertAt, Flatten;
    SubAddFlat(g, j, d, n);
    SpotIs(g, j, d);
  }

  /** With the status for the middle of the group the pointer goes wrong in one case only: n belongs
      behind a full subslab, and its last entry, which belongs before n, is spilled. */
  lemma {:induction false} StatusInRange<T>(g: seq<seq<T>>, j: nat, d: nat, n: T)
    requires j < |g| && 0 < d <= |g[j]| && GroupsOk(g) && n !in g[j]
    ensures WellPlaced(g, j, d, n, SubAddAs(FS_IN_RANGE, g, j, d, n))
       <==> !(|g[j]| == SUBELEM_MAX && d == SUBELEM_MAX && (RoomAt(g, j + 1) || !RoomAt(g, j - 1)))
  {
    hide SpillNext, SpillPrev, InsertAt, Flatten;
    RightStatus(g, j, d, n);
    InsertAtMembers(Flatten(g), Spot(g, j, d), n);
    if d == |g[j]| && !RoomAt(g, j) {
      if RoomAt(g, j + 1) {
        SpillLast(g, j, n);
      } else if !RoomAt(g, j - 1) {
        LinkAfterParts(g, j);
        SpillLast(LinkAfter(g, j), j, n);
        PrefixKept(g, j);
      }
    }
  }

  lemma PrefixKept<T>(g: seq<seq<T>>, j: nat)
    requires j < |g|
    ensures LinkAfter(g, j)[..j] == g[..j] && LinkAfter(g, j)[j] == g[j]
    ensures Spot(LinkAfter(g, j), j, |g[j]|) == Spot(g, j, |g[j]|)
  {
  }

  /** The last entry of a full group is spilled behind n. */
  lemma {:induction false} SpillLast<T>(g: seq<seq<T>>, j: nat, n: T)
    requires j + 1 < |g| && |g[j]| == SUBELEM_MAX && n !in g[j]
    ensures var p := Spot(g, j, SUBELEM_MAX);
      var f := Flatten(SpillNext(g, j, SUBELEM_MAX, n, SUBELEM_MAX));
      0 < p < |f| && f[p - 1] == n && f[p] == g[j][SUBELEM_MAX - 1] != n
  {
    hide Flatten;
    var w := SpillNext(g, j, SUBELEM_MAX, n, SUBELEM_MAX);
    assert w[..j] == g[..j];
    assert w[j] == g[j][..SUBELEM_MAX - 1] + [n];
    assert w[j + 1] == [g[j][SUBELEM_MAX - 1]] + g[j + 1];
    SpotIs(g, j, SUBELEM_MAX);
    FlattenIndex(w, j, SUBELEM_MAX - 1);
    FlattenIndex(w, j + 1, 0);
    SpotIs(w, j, 0);
    SpotIs(w, j + 1, 0);
    SpotNext(w, j);
  }

  /* ---- where the status comes from ---- */

  /** The ranges of the entries of a group, disjoint and ascending. */
  ghost predicate Ascending(rs: seq<(int, int)>) {
    && (forall i :: 0 <= i < |rs| ==> rs[i].0 <= rs[i].1)
    && (forall i, k :: 0 <= i < k < |rs| ==> rs[i].1 < rs[k].0)
  }

  /** The new subslab, whose minimum is y, belongs at offset d among the entries with the ranges rs. Either
      it has taken the upper part of the range of the entry before it, or it has come between them. */
  ghost predicate Belongs(rs: seq<(int, int)>, d: nat, y: int, split: bool) {
    && rs != [] && d <= |rs|
    && (split ==> d > 0 && rs[d - 1].0 < y <= rs[d - 1].1)
    && (!split ==> (d > 0 ==> rs[d - 1].1 < y) && (d < |rs| ==> y < rs[d].0))
  }

  /** ripple_common tests y against the extrema that the subslab below has from before: the status is
      right unless the new subslab has taken its range from the last entry. */
  lemma {:induction false} StoredStatus(rs: seq<(int, int)>, d: nat, y: int, split: bool)
    requires Ascending(rs) && Belongs(rs, d, y, split)
    ensures Bnd(y, rs[0].0, rs[|rs| - 1].1) == if split then FS_IN_RANGE else TrueStatus(d, |rs|)
    ensures Bnd(y, rs[0].0, rs[|rs| - 1].1) == TrueStatus(d, |rs|) <==> !(split && d == |rs|)
  {
    assert d > 1 ==> rs[0].1 < rs[d - 1].0;
    assert d > 0 && d - 1 < |rs| - 1 ==> rs[d - 1].1 < rs[|rs| - 1].0;
    assert 0 < d < |rs| - 1 ==> rs[d].1 < rs[|rs| - 1].0;
  }

  /** When the loop of ripple_common puts the pointer to a new subslab in its place: unless the subslab
      that spilled is the last entry of a full one, and that one spills forward in its turn. */
  lemma {:induction false} StaleAddExact<T>(g: seq<seq<T>>, j: nat, d: nat, n: T, rs: seq<(int, int)>, y: int, split: bool)
    requires j < |g| && GroupsOk(g) && n !in g[j] && |rs| == |g[j]| && Ascending(rs) && Belongs(rs, d, y, split)
    ensures var status := Bnd(y, rs[0].0, rs[|rs| - 1].1);
      && (status == FS_UNDER_RANGE || d > 0)
      && (WellPlaced(g, j, d, n, SubAddAs(status, g, j, d, n))
          <==> !(split && d == |g[j]| == SUBELEM_MAX && (RoomAt(g, j + 1) || !RoomAt(g, j - 1))))
  {
    hide WellPlaced, SubAddAs, GroupsOk, RoomAt, Ascending;
    StoredStatus(rs, d, y, split);
    if split {
      StatusInRange(g, j, d, n);
    } else {
      RightStatus(g, j, d, n);
    }
  }

  /** Entries numbered from 0 fill a subslab, the next one has room; the last entry of the full one has
      spilled into a new entry. The list goes on with the new entry before the one that spilled. */
  lemma {:induction false} SpillMisplaces()
    ensures var n := SUBELEM_MAX;
      var g := [seq(n, i => i), [n + 1]];
      && GroupsOk(g) && !WellPlaced(g, 0, n, n, SubAddAs(FS_IN_RANGE, g, 0, n, n))
      && var f := Flatten(SubAddAs(FS_IN_RANGE, g, 0, n, n)); |f| > n && f[n - 1] == n && f[n] == n - 1
  {
    hide WellPlaced, Flatten, SpillNext;
    var n := SUBELEM_MAX;
    var g := [seq(n, i => i), [n + 1]];
    StatusInRange(g, 0, n, n);
    SpillLast(g, 0, n);
    SpotNone(g, n);
  }

  lemma SpotNone<T>(g: seq<seq<T>>, k: nat)
    requires g != []
    ensures Spot(g, 0, k) == k
  {
    assert g[..0] == [];
  }
}
