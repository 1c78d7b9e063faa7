/** What adding a pointer to an index layer does to the groups of pointers its subslabs hold. */
module IndexModel {
  import opened Seqs
  import opened SlabModel
  import opened AddModel

  ghost predicate GroupsOk<T>(g: seq<seq<T>>) {
    forall j :: 0 <= j < |g| ==> 0 < |g[j]| <= SUBELEM_MAX
  }

  /** There is a subslab j, and it is not full. */
  predicate RoomAt<T>(g: seq<seq<T>>, j: int) {
    0 <= j < |g| && |g[j]| < SUBELEM_MAX
  }

  /** subslab_gen_add: n goes to offset d of group j, whose first and last entries it may precede or
      follow. The three cases are sub_gen_add_ura (d == 0), sub_gen_add_ora (behind the last entry)
      and sub_gen_add_ira (in between). */
  function SubAdd<T>(g: seq<seq<T>>, j: nat, d: nat, n: T): seq<seq<T>>
    requires j < |g| && d <= |g[j]| && GroupsOk(g)
  {
    if |g[j]| < SUBELEM_MAX then g[j := InsertAt(g[j], d, n)]
    else if d == 0 then
      if j > 0 && |g[j - 1]| < SUBELEM_MAX then g[j - 1 := InsertAt(g[j - 1], |g[j - 1]|, n)]
      else if j + 1 < |g| && |g[j + 1]| < SUBELEM_MAX then SpillNext(g, j, 0, n, SUBELEM_MAX)
      else LinkBefore(g, j)[j := [n]]
    else if d == |g[j]| then
      if j + 1 < |g| && |g[j + 1]| < SUBELEM_MAX then g[j + 1 := InsertAt(g[j + 1], 0, n)]
      else if j > 0 && |g[j - 1]| < SUBELEM_MAX then SpillPrev(g, j, d, n, SUBELEM_MAX)
      else LinkAfter(g, j)[j + 1 := [n]]
    else
      if j + 1 < |g| && |g[j + 1]| < SUBELEM_MAX then SpillNext(g, j, d, n, SUBELEM_MAX)
      else if j > 0 && |g[j - 1]| < SUBELEM_MAX then SpillPrev(g, j, d, n, SUBELEM_MAX)
      else SpillNext(LinkAfter(g, j), j, d, n, SUBELEM_MAX)
  }

  /** Whatever spills, the concatenated groups gain n at its place and nothing else moves. */
  lemma {:induction false} SubAddFlat<T>(g: seq<seq<T>>, j: nat, d: nat, n: T)
    requires j < |g| && d <= |g[j]| && GroupsOk(g)
    ensures |Flatten(g[..j])| + d <= |Flatten(g)|
    ensures Flatten(SubAdd(g, j, d, n)) == InsertAt(Flatten(g), |Flatten(g[..j])| + d, n)
  {
    hide Flatten;
    FlattenAt(g, j);
    SubAddParts(g, j, d, n);
  }

  lemma {:induction false} SubAddParts<T>(g: seq<seq<T>>, j: nat, d: nat, n: T)
    requires j < |g| && d <= |g[j]| && GroupsOk(g)
    ensures Flatten(SubAdd(g, j, d, n)) == Flatten(g[..j]) + InsertAt(g[j], d, n) + Flatten(g[j + 1..])
  {
    hide Flatten;
    if |g[j]| < SUBELEM_MAX {
      FlattenUpdate(g, j, InsertAt(g[j], d, n));
    } else if d == 0 {
      if j > 0 && |g[j - 1]| < SUBELEM_MAX {
        AppendPrevFlat(g, j, n);
      } else if j + 1 < |g| && |g[j + 1]| < SUBELEM_MAX {
        SpillNextFlat(g, j, 0, n, SUBELEM_MAX);
      } else {
        NewBeforeFlat(g, j, n);
      }
    } else if d == |g[j]| {
      if j + 1 < |g| && |g[j + 1]| < SUBELEM_MAX {
        PrependNextFlat(g, j, n);
      } else if j > 0 && |g[j - 1]| < SUBELEM_MAX {
        SpillPrevFlat(g, j, d, n, SUBELEM_MAX);
      } else {
        NewAfterFlat(g, j, n);
      }
    } else if j + 1 < |g| && |g[j + 1]| < SUBELEM_MAX {
      SpillNextFlat(g, j, d, n, SUBELEM_MAX);
    } else if j > 0 && |g[j - 1]| < SUBELEM_MAX {
      SpillPrevFlat(g, j, d, n, SUBELEM_MAX);
    } else {
      LinkAfterParts(g, j);
      SpillNextFlat(LinkAfter(g, j), j, d, n, SUBELEM_MAX);
    }
  }

  lemma {:induction false} UpdateGroups<T>(g: seq<seq<T>>, j: nat, x: seq<T>)
    requires j < |g| && 0 < |x| <= SUBELEM_MAX
    requires forall k :: 0 <= k < |g| && k != j ==> 0 < |g[k]| <= SUBELEM_MAX
    ensures GroupsOk(g[j := x])
  {
  }

  lemma {:induction false} SpillNextGroups<T>(g: seq<seq<T>>, j: nat, d: nat, n: T)
    requires j + 1 < |g| && d < SUBELEM_MAX && |g[j]| == SUBELEM_MAX && |g[j + 1]| < SUBELEM_MAX
    requires forall k :: 0 <= k < |g| && k != j + 1 ==> 0 < |g[k]| <= SUBELEM_MAX
    ensures GroupsOk(SpillNext(g, j, d, n, SUBELEM_MAX))
  {
  }

  lemma {:induction false} SpillPrevGroups<T>(g: seq<seq<T>>, j: nat, d: nat, n: T)
    requires 0 < j < |g| && 0 < d <= SUBELEM_MAX && |g[j]| == SUBELEM_MAX && |g[j - 1]| < SUBELEM_MAX
    requires GroupsOk(g)
    ensures GroupsOk(SpillPrev(g, j, d, n, SUBELEM_MAX))
  {
  }

  lemma {:induction false} LinkGroups<T>(g: seq<seq<T>>, j: nat)
    requires j <= |g| && GroupsOk(g)
    ensures forall k :: 0 <= k <= |g| && k != j ==> 0 < |InsertAt(g, j, [])[k]| <= SUBELEM_MAX
    ensures InsertAt(g, j, [])[j] == []
    ensures j > 0 ==> InsertAt(g, j, [])[j - 1] == g[j - 1]
  {
  }

  /** No subslab is left empty or overfull. */
  lemma {:induction false} SubAddSizes<T>(g: seq<seq<T>>, j: nat, d: nat, n: T)
    requires j < |g| && d <= |g[j]| && GroupsOk(g)
    ensures GroupsOk(SubAdd(g, j, d, n)) && |g| <= |SubAdd(g, j, d, n)| <= |g| + 1
  {
    hide SpillNext, SpillPrev, InsertAt;
    if |g[j]| < SUBELEM_MAX {
      UpdateGroups(g, j, InsertAt(g[j], d, n));
    } else if d == 0 {
      if j > 0 && |g[j - 1]| < SUBELEM_MAX {
        UpdateGroups(g, j - 1, InsertAt(g[j - 1], |g[j - 1]|, n));
      } else if j + 1 < |g| && |g[j + 1]| < SUBELEM_MAX {
        SpillNextGroups(g, j, 0, n);
      } else {
        LinkGroups(g, j);
        UpdateGroups(LinkBefore(g, j), j, [n]);
      }
    } else if d == |g[j]| {
      if j + 1 < |g| && |g[j + 1]| < SUBELEM_MAX {
        UpdateGroups(g, j + 1, InsertAt(g[j + 1], 0, n));
      } else if j > 0 && |g[j - 1]| < SUBELEM_MAX {
        SpillPrevGroups(g, j, d, n);
      } else {
        LinkGroups(g, j + 1);
        UpdateGroups(LinkAfter(g, j), j + 1, [n]);
      }
    } else if j + 1 < |g| && |g[j + 1]| < SUBELEM_MAX {
      SpillNextGroups(g, j, d, n);
    } else if j > 0 && |g[j - 1]| < SUBELEM_MAX {
      SpillPrevGroups(g, j, d, n);
    } else {
      LinkGroups(g, j + 1);
      SpillNextGroups(LinkAfter(g, j), j, d, n);
    }
  }

  /** The three ways of subslab_gen_add are one, as those of slab_gen_add are. */
  lemma {:induction false} SubAddSpreads<T>(g: seq<seq<T>>, j: nat, d: nat, n: T)
    requires j < |g| && d <= |g[j]| && GroupsOk(g)
    ensures SubAdd(g, j, d, n) == Spread(g, j, InsertAt(g[j], d, n), SUBELEM_MAX, d == 0)
  {
    hide InsertAt, SpillNext, SpillPrev, LinkAfter, LinkBefore, Spread;
    if |g[j]| < SUBELEM_MAX {
      RoomSpreads(g, j, InsertAt(g[j], d, n), SUBELEM_MAX, d == 0);
    } else if d == 0 {
      FrontSpreads(g, j, n, SUBELEM_MAX);
    } else if d == |g[j]| {
      BackSpreads(g, j, n, SUBELEM_MAX);
    } else {
      MiddleSpreads(g, j, d, n, SUBELEM_MAX);
    }
  }
}
