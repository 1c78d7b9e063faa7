/** Sequences of elements and sequences of blocks: concatenation, sorted search and insertion. */
module Seqs {

  /** The elements of all blocks, block after block. */
  function Flatten<T>(xs: seq<seq<T>>): seq<T> {
    if xs == [] then [] else xs[0] + Flatten(xs[1..])
  }

  lemma {:induction false} FlattenConcat<T>(xs: seq<seq<T>>, ys: seq<seq<T>>)
    ensures Flatten(xs + ys) == Flatten(xs) + Flatten(ys)
  {
    if xs == [] {
      assert xs + ys == ys;
    } else {
      assert (xs + ys)[1..] == xs[1..] + ys;
      FlattenConcat(xs[1..], ys);
    }
  }

  lemma FlattenOne<T>(x: seq<T>)
    ensures Flatten([x]) == x
  {
    assert Flatten([x]) == x + Flatten([]);
  }

  lemma FlattenThree<T>(a: seq<seq<T>>, x: seq<T>, b: seq<seq<T>>)
    ensures Flatten(a + [x] + b) == Flatten(a) + x + Flatten(b)
  {
    FlattenConcat(a + [x], b);
    FlattenConcat(a, [x]);
    FlattenOne(x);
  }

  /** The block at index m sits between the blocks before and the blocks after it. */
  lemma FlattenAt<T>(xs: seq<seq<T>>, m: nat)
    requires m < |xs|
    ensures Flatten(xs) == Flatten(xs[..m]) + xs[m] + Flatten(xs[m + 1..])
  {
    hide Flatten;
    assert xs == xs[..m] + xs[m..];
    assert xs[m..] == [xs[m]] + xs[m + 1..];
    FlattenConcat(xs[..m], xs[m..]);
    FlattenConcat([xs[m]], xs[m + 1..]);
    FlattenOne(xs[m]);
  }

  lemma FlattenFour<T>(a: seq<seq<T>>, x: seq<T>, y: seq<T>, b: seq<seq<T>>)
    ensures Flatten(a + [x, y] + b) == Flatten(a) + x + y + Flatten(b)
  {
    assert a + [x, y] + b == (a + [x]) + [y] + b;
    FlattenThree(a + [x], y, b);
    FlattenConcat(a, [x]);
    FlattenOne(x);
  }

  lemma FlattenUpdate<T>(xs: seq<seq<T>>, m: nat, x: seq<T>)
    requires m < |xs|
    ensures Flatten(xs[m := x]) == Flatten(xs[..m]) + x + Flatten(xs[m + 1..])
  {
    assert xs[m := x] == xs[..m] + [x] + xs[m + 1..];
    FlattenThree(xs[..m], x, xs[m + 1..]);
  }

  lemma FlattenUpdate2<T>(xs: seq<seq<T>>, m: nat, x: seq<T>, y: seq<T>)
    requires m + 1 < |xs|
    ensures Flatten(xs[m := x][m + 1 := y]) == Flatten(xs[..m]) + x + y + Flatten(xs[m + 2..])
  {
    assert xs[m := x][m + 1 := y] == xs[..m] + [x, y] + xs[m + 2..];
    FlattenFour(xs[..m], x, y, xs[m + 2..]);
  }

  lemma FlattenAt2<T>(xs: seq<seq<T>>, m: nat)
    requires m + 1 < |xs|
    ensures Flatten(xs) == Flatten(xs[..m]) + xs[m] + xs[m + 1] + Flatten(xs[m + 2..])
  {
    assert xs == xs[m := xs[m]][m + 1 := xs[m + 1]];
    FlattenUpdate2(xs, m, xs[m], xs[m + 1]);
  }

  /** The last element of the blocks is the last element of the last block. */
  lemma FlattenLast<T>(xs: seq<seq<T>>)
    requires xs != [] && xs[|xs| - 1] != []
    ensures Flatten(xs) != []
    ensures Flatten(xs)[|Flatten(xs)| - 1] == xs[|xs| - 1][|xs[|xs| - 1]| - 1]
  {
    FlattenAt(xs, |xs| - 1);
    assert xs[|xs| - 1 + 1..] == [];
  }

  ghost predicate StrictlySorted(s: seq<int>) {
    forall i, j :: 0 <= i < j < |s| ==> s[i] < s[j]
  }

  /** Number of leading elements that are smaller than e: where a search in a sorted sequence lands. */
  function LowerBound(s: seq<int>, e: int): (r: nat)
    ensures r <= |s|
    ensures forall i :: 0 <= i < r ==> s[i] < e
    ensures r < |s| ==> e <= s[r]
  {
    if s == [] || e <= s[0] then 0 else 1 + LowerBound(s[1..], e)
  }

  ghost predicate NonDecreasing(s: seq<int>) {
    forall i, j :: 0 <= i < j < |s| ==> s[i] <= s[j]
  }

  /** Number of leading elements that are not larger than e. */
  function UpperBound(s: seq<int>, e: int): (r: nat)
    ensures r <= |s|
    ensures forall i :: 0 <= i < r ==> s[i] <= e
    ensures r < |s| ==> e < s[r]
  {
    if s == [] || e < s[0] then 0 else 1 + UpperBound(s[1..], e)
  }

  lemma UpperBoundIs(s: seq<int>, e: int, p: nat)
    requires p <= |s|
    requires forall i :: 0 <= i < p ==> s[i] <= e
    requires p < |s| ==> e < s[p]
    ensures UpperBound(s, e) == p
  {
  }

  function InsertAt<T>(s: seq<T>, i: nat, e: T): (r: seq<T>)
    requires i <= |s|
    ensures |r| == |s| + 1
  {
    s[..i] + [e] + s[i..]
  }

  function DeleteAt<T>(s: seq<T>, i: nat): (r: seq<T>)
    requires i < |s|
    ensures |r| == |s| - 1
  {
    s[..i] + s[i + 1..]
  }

  lemma InsertAtEnds<T>(s: seq<T>, i: nat, e: T)
    requires i <= |s|
    ensures InsertAt(s, i, e)[0] == if i == 0 then e else s[0]
    ensures InsertAt(s, i, e)[|s|] == if i == |s| then e else s[|s| - 1]
  {
  }

  lemma InsertAtMembers<T>(s: seq<T>, i: nat, e: T)
    requires i <= |s|
    ensures forall k :: 0 <= k <= |s| ==> InsertAt(s, i, e)[k] in s || InsertAt(s, i, e)[k] == e
    ensures InsertAt(s, i, e)[i] == e
    ensures i > 0 ==> InsertAt(s, i, e)[i - 1] == s[i - 1]
    ensures i < |s| ==> InsertAt(s, i, e)[i + 1] == s[i]
  {
  }

  lemma DeleteAtMembers<T>(s: seq<T>, i: nat)
    requires i < |s|
    ensures forall k :: 0 <= k < |s| - 1 ==> DeleteAt(s, i)[k] in s
    ensures i > 0 ==> DeleteAt(s, i)[i - 1] == s[i - 1]
  {
  }

  lemma InsertIntoEmpty(e: int)
    ensures InsertAt([], 0, e) == [e]
  {
  }

  lemma InsertAtFront<T>(s: seq<T>, e: T)
    ensures InsertAt(s, 0, e) == [e] + s
  {
  }

  lemma InsertAtBack<T>(s: seq<T>, e: T)
    ensures InsertAt(s, |s|, e) == s + [e]
  {
  }

  lemma DeleteAtEnds<T>(s: seq<T>, i: nat)
    requires i < |s| && |s| > 1
    ensures DeleteAt(s, i)[0] == if i == 0 then s[1] else s[0]
    ensures DeleteAt(s, i)[|s| - 2] == if i == |s| - 1 then s[|s| - 2] else s[|s| - 1]
  {
  }

  /** e placed before the first element that is not smaller. */
  function InsertSorted(s: seq<int>, e: int): seq<int> {
    InsertAt(s, LowerBound(s, e), e)
  }

  ghost function Elements(s: seq<int>): set<int> {
    set x | x in s
  }

  lemma LowerBoundIs(s: seq<int>, e: int, p: nat)
    requires p <= |s|
    requires forall i :: 0 <= i < p ==> s[i] < e
    requires p < |s| ==> e <= s[p]
    ensures LowerBound(s, e) == p
  {
  }

  /** Inserting an absent element into a strictly sorted sequence keeps it so and adds just that element. */
  lemma InsertSortedIsUnion(s: seq<int>, e: int)
    requires StrictlySorted(s) && e !in s
    ensures StrictlySorted(InsertSorted(s, e))
    ensures Elements(InsertSorted(s, e)) == Elements(s) + {e}
  {
    var p := LowerBound(s, e);
    var r := InsertSorted(s, e);
    assert forall i :: p <= i < |s| ==> e < s[i];
    assert forall i :: 0 <= i < |r| ==> r[i] == if i < p then s[i] else if i == p then e else s[i - 1];
    assert r[p] == e;
    forall x | x in s ensures x in r {
      var i :| 0 <= i < |s| && s[i] == x;
      assert r[if i < p then i else i + 1] == x;
    }
  }

  /** Deleting one position of a strictly sorted sequence removes just that element. */
  lemma DeleteAtIsDifference(s: seq<int>, i: nat)
    requires StrictlySorted(s) && i < |s|
    ensures StrictlySorted(DeleteAt(s, i))
    ensures Elements(DeleteAt(s, i)) == Elements(s) - {s[i]}
  {
    var r := DeleteAt(s, i);
    assert forall k :: 0 <= k < |r| ==> r[k] == if k < i then s[k] else s[k + 1];
    forall x | x in s && x != s[i] ensures x in r {
      var k :| 0 <= k < |s| && s[k] == x;
      assert r[if k < i then k else k - 1] == x;
    }
    assert s[i] !in r;
  }

  lemma StrictlySortedCardinality(s: seq<int>)
    requires StrictlySorted(s)
    ensures |Elements(s)| == |s|
  {
    if s == [] {
      assert Elements(s) == {};
    } else {
      var t := s[..|s| - 1];
      StrictlySortedCardinality(t);
      assert s == t + [s[|s| - 1]];
      assert Elements(s) == Elements(t) + {s[|s| - 1]};
    }
  }
}
