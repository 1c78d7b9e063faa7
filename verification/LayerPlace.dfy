/** Where a slab of the chain stands in the groups of the sublayer, and what that tells about the
    ranges of its neighbours there. */
module LayerPlace {
  import opened Seqs
  import opened SlabModel
  import opened Groups
  import opened AddModel
  import opened IndexModel
  import opened SlabCore
  import opened SubLayer
  import opened LayerAdd

  /** n stands in the chain at offset d of group j, and the groups hold the rest of the chain. */
  ghost predicate Placed(g: seq<seq<Slab>>, j: nat, d: nat, n: Slab, ss: seq<Slab>)
    reads ss`s_min, ss`s_max
  {
    Ordered(ss) && StandsIn(g, j, d, n, ss)
  }

  /** Where the entries of the groups stand in the chain. */
  lemma {:induction false} StandsAt(g: seq<seq<Slab>>, j: nat, d: nat, n: Slab, ss: seq<Slab>, a: nat, b: nat)
    requires Placed(g, j, d, n, ss) && a < |g| && b < |g[a]|
    ensures Spot(g, a, b) < |Flatten(g)|
    ensures a < j || (a == j && b < d) ==> Spot(g, a, b) < Spot(g, j, d) && ss[Spot(g, a, b)] == g[a][b]
    ensures a > j || (a == j && b >= d) ==> Spot(g, a, b) >= Spot(g, j, d) && ss[Spot(g, a, b) + 1] == g[a][b]
  {
    hide Flatten, Ordered, StandsIn;
    EntryStands(g, j, d, n, ss, a, b);
  }

  lemma {:induction false} PlacedSplits(g: seq<seq<Slab>>, j: nat, d: nat, n: Slab, ss: seq<Slab>)
    requires Placed(g, j, d, n, ss)
    ensures Ordered(g[j]) && Splits(g[j], n.s_max, d)
  {
    hide Flatten, Spot, InsertAt;
    forall b | 0 <= b < |g[j]| {
      StandsAt(g, j, d, n, ss, j, b);
    }
    assert ss[Spot(g, j, d)] == n by {
      InsertAtMembers(Flatten(g), Spot(g, j, d), n);
    }
    GroupOrdered(g, j, d, n, ss, j);
  }

  lemma {:induction false} GroupOrdered(g: seq<seq<Slab>>, j: nat, d: nat, n: Slab, ss: seq<Slab>, a: nat)
    requires Placed(g, j, d, n, ss) && a < |g|
    ensures Ordered(g[a])
  {
    hide Flatten, InsertAt;
    forall b | 0 <= b < |g[a]| {
      StandsAt(g, j, d, n, ss, a, b);
    }
  }

  lemma {:induction false} PlacedPrev(g: seq<seq<Slab>>, j: nat, d: nat, n: Slab, ss: seq<Slab>)
    requires Placed(g, j, d, n, ss) && 0 < j && GroupsOk(g)
    ensures Ordered(g[j - 1]) && Splits(g[j - 1], g[j][0].s_max, |g[j - 1]|)
    ensures d == 0 ==> Splits(g[j - 1], n.s_max, |g[j - 1]|)
  {
    hide Flatten, InsertAt;
    var a := j - 1;
    forall b | 0 <= b < |g[a]| {
      StandsAt(g, j, d, n, ss, a, b);
    }
    SpotMono(g, j - 1, j);
    StandsAt(g, j, d, n, ss, j, 0);
    assert ss[Spot(g, j, d)] == n by {
      InsertAtMembers(Flatten(g), Spot(g, j, d), n);
    }
    GroupOrdered(g, j, d, n, ss, j - 1);
  }

  lemma {:induction false} PlacedNext(g: seq<seq<Slab>>, j: nat, d: nat, n: Slab, ss: seq<Slab>)
    requires Placed(g, j, d, n, ss) && j + 1 < |g|
    ensures Ordered(g[j + 1]) && Splits(g[j + 1], n.s_max, 0)
  {
    hide Flatten, InsertAt, Spot;
    var a := j + 1;
    forall b | 0 <= b < |g[a]| {
      StandsAt(g, j, d, n, ss, a, b);
    }
    assert ss[Spot(g, j, d)] == n by {
      InsertAtMembers(Flatten(g), Spot(g, j, d), n);
    }
    GroupOrdered(g, j, d, n, ss, j + 1);
  }

  /** A slab that is placed is in no group yet. */
  lemma {:induction false} PlacedAbsent(g: seq<seq<Slab>>, j: nat, d: nat, n: Slab, ss: seq<Slab>)
    requires Placed(g, j, d, n, ss) && NoDup(ss)
    ensures n in ss && Absent(g, n) && NoDup(Flatten(g))
  {
    hide Flatten, Ordered, Spot;
    var f, p := Flatten(g), Spot(g, j, d);
    assert ss[p] == n;
    assert forall i :: 0 <= i < |f| ==> f[i] == ss[if i < p then i else i + 1];
    forall a, b | 0 <= a < |g| && 0 <= b < |g[a]| ensures g[a][b] != n {
      StandsAt(g, j, d, n, ss, a, b);
    }
  }
}
