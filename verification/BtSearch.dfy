/** bt_code.c: findkindex, in the bit by bit form and in the linear form of SAFE_BTREE, and bt_find. */
module BtSearch {
  import opened Seqs
  import opened Powers
  import opened Options
  import opened BtModel
  import opened BtHeap
  import opened BtMoves

  /** btr->cmp. */
  function Cmp(a: int, b: int): int {
    if a < b then -1 else if a == b then 0 else 1
  }

  /** What both forms of findkindex say about k among the keys: the index of the last key that is not
      larger, or -1, and how k compares with that key, or with the first one. */
  ghost predicate Located(keys: seq<int>, k: int, i: int, r: int) {
    i == UpperBound(keys, k) - 1 && (keys != [] ==> r == Cmp(k, keys[if i < 0 then 0 else i]))
  }

  /** findkindex with SAFE_BTREE. */
  method FindKIndexLinear(x: BtreeNode, k: int, ghost keys: seq<int>, ghost tops: seq<BtreeNode?>, ghost deg: nat) returns (i: int, r: int)
    requires Local(x, keys, tops, deg) && NonDecreasing(keys)
    ensures Located(keys, k, i, r)
  {
    i, r := x.n - 1, *;
    while i >= 0
      invariant -1 <= i < |keys| && forall j :: i < j < |keys| ==> k < keys[j]
      invariant i < |keys| - 1 ==> r == Cmp(k, keys[i + 1])
    {
      KeyAt(x, keys, tops, deg, i);
      r := Cmp(k, x.keys[i]);
      if r >= 0 {
        break;
      }
      i := i - 1;
    }
    UpperBoundIs(keys, k, i + 1);
  }

  lemma KeyAt(x: BtreeNode, keys: seq<int>, tops: seq<BtreeNode?>, deg: nat, i: nat)
    requires Local(x, keys, tops, deg) && i < |keys|
    ensures i < x.keys.Length && x.keys[i] == keys[i]
  {
    assert x.keys[i] == x.keys[..x.n][i];
  }

  lemma KeyCount(x: BtreeNode, keys: seq<int>, tops: seq<BtreeNode?>, deg: nat)
    requires Local(x, keys, tops, deg)
    ensures x.n == |keys|
  {
  }

  /** One comparison decides about all keys on one side. */
  lemma Halves(keys: seq<int>, k: int, m: nat)
    requires NonDecreasing(keys) && m < |keys|
    ensures k < keys[m] ==> forall j :: m <= j < |keys| ==> k < keys[j]
    ensures keys[m] <= k ==> forall j :: 0 <= j <= m ==> keys[j] <= k
  {
  }

  /** findkindex: halves the range by the bits of its length, from the highest on. */
  method FindKIndex(x: BtreeNode, k: int, ghost keys: seq<int>, ghost tops: seq<BtreeNode?>, ghost deg: nat) returns (i: int, r: int)
    requires Local(x, keys, tops, deg) && NonDecreasing(keys)
    ensures Located(keys, k, i, r)
  {
    hide UpperBound, Pow2, SetBit, Log2, Clear, Local, NonDecreasing;
    KeyCount(x, keys, tops, deg);
    if x.n == 0 {
      return -1, *;
    }
    var a := x.n - 1;
    i := 0;
    ghost var c: nat := if a == 0 then 0 else Log2(a) + 1;
    ClearZero(c);
    while a > 0
      invariant Local(x, keys, tops, deg) && 0 <= a && 0 <= i && i + a < |keys| && Clear(i, c) && a < Pow2(c)
      invariant i > 0 ==> keys[i] <= k
      invariant forall j :: i + a < j < |keys| ==> k < keys[j]
      decreases a
    {
      var b := Log2(a);
      HighBit(a, c);
      SetClear(i, c, b);
      c := b;
      KeyAt(x, keys, tops, deg, i + Pow2(b));
      r := Cmp(k, x.keys[Pow2(b) + i]);
      Halves(keys, k, i + Pow2(b));
      if r < 0 {
        a := Pow2(b) - 1;
      } else {
        a := a - Pow2(b);
        i := SetBit(i, b);
      }
    }
    KeyAt(x, keys, tops, deg, i);
    Halves(keys, k, i);
    r := Cmp(k, x.keys[i]);
    if r < 0 {
      i := i - 1;
    }
    UpperBoundIs(keys, k, i + 1);
  }

  /* ---- which child to go on to ---- */

  lemma {:induction false} KeysWithin<R>(keys: seq<int>, kids: seq<BTree<R>>)
    requires |kids| == |keys| + 1
    ensures forall k :: k in keys ==> k in Weave(keys, kids)
  {
    if keys != [] {
      KeysWithin(keys[1..], kids[1..]);
    }
  }

  lemma {:induction false} KeysSorted<R>(keys: seq<int>, kids: seq<BTree<R>>)
    requires |kids| == |keys| + 1 && NonDecreasing(Weave(keys, kids))
    ensures NonDecreasing(keys)
  {
    if keys != [] {
      var rest := Weave(keys[1..], kids[1..]);
      WeaveStep(keys, kids);
      SortedPieces(Items(kids[0]), [keys[0]], rest);
      KeysWithin(keys[1..], kids[1..]);
      KeysSorted(keys[1..], kids[1..]);
      forall i, j | 0 <= i < j < |keys| ensures keys[i] <= keys[j] {
        assert keys[j] == keys[1..][j - 1] && keys[j] in rest;
        assert if i == 0 then keys[i] in [keys[0]] else keys[i] == keys[1..][i - 1];
      }
    }
  }

  /** Pieces of a sorted sequence. */
  lemma {:induction false} SortedPieces(a: seq<int>, b: seq<int>, c: seq<int>)
    requires NonDecreasing(a + b + c)
    ensures NonDecreasing(a) && NonDecreasing(b) && NonDecreasing(c)
    ensures forall x, y :: x in a && y in b ==> x <= y
    ensures forall x, y :: x in b && y in c ==> x <= y
  {
    var s := a + b + c;
    assert forall i :: 0 <= i < |a| ==> s[i] == a[i];
    assert forall i :: 0 <= i < |b| ==> s[|a| + i] == b[i];
    assert forall i :: 0 <= i < |c| ==> s[|a| + |b| + i] == c[i];
  }

  lemma {:induction false} BeforeEnds<R>(t: BTree<R>, i: nat)
    requires |t.kids| == |t.keys| + 1 && i <= |t.keys|
    ensures i == 0 ==> Before(t, i) == []
    ensures i == |t.keys| ==> Behind(t, i) == []
    ensures i > 0 ==> var b := Before(t, i); b != [] && b[|b| - 1] == t.keys[i - 1]
    ensures i < |t.keys| ==> var b := Behind(t, i); b != [] && b[0] == t.keys[i]
  {
    if i > 0 {
      LeftsLast(t.keys[..i], t.kids[..i]);
    }
  }

  lemma {:induction false} LeftsLast<R>(keys: seq<int>, kids: seq<BTree<R>>)
    requires |keys| == |kids| > 0
    ensures var b := Lefts(keys, kids); b != [] && b[|b| - 1] == keys[|keys| - 1]
  {
    if |keys| > 1 {
      LeftsLast(keys[1..], kids[1..]);
    }
  }

  /** What stands before and behind the child at i, when k lies between the keys on its two sides. */
  lemma {:induction false} Narrow<R>(t: BTree<R>, i: nat, k: int)
    requires |t.kids| == |t.keys| + 1 && i <= |t.keys| && NonDecreasing(Items(t))
    requires i > 0 ==> t.keys[i - 1] <= k
    requires i < |t.keys| ==> k <= t.keys[i]
    ensures Items(t) == Before(t, i) + Items(t.kids[i]) + Behind(t, i)
    ensures NonDecreasing(Before(t, i)) && NonDecreasing(Items(t.kids[i])) && NonDecreasing(Behind(t, i))
    ensures forall x :: x in Before(t, i) ==> x <= k && (t.keys[i - 1] < k ==> x < k)
    ensures forall x :: x in Behind(t, i) ==> k <= x && (k < t.keys[i] ==> k < x)
  {
    hide Items;
    var a, c, b := Before(t, i), Items(t.kids[i]), Behind(t, i);
    SwapItems(t, i, t.kids[i]);
    BeforeEnds(t, i);
    SortedPieces(a, c, b);
    forall x | x in a ensures x <= k && (t.keys[i - 1] < k ==> x < k) {
      var j :| 0 <= j < |a| && a[j] == x;
      assert a[j] <= a[|a| - 1];
    }
    forall x | x in b ensures k <= x && (k < t.keys[i] ==> k < x) {
      var j :| 0 <= j < |b| && b[j] == x;
      assert b[0] <= b[j];
    }
  }

  /** Where findkindex leads: to the key itself, or to the only child that can hold it. */
  lemma {:induction false} Leads<R>(t: BTree<R>, h: nat, deg: nat, k: int, i: int, r: int)
    requires Body(t, h, deg) && NonDecreasing(Items(t)) && Located(t.keys, k, i, r)
    ensures NonDecreasing(t.keys) && -1 <= i < |t.keys|
    ensures i >= 0 && r == 0 ==> t.keys[i] == k && k in Items(t)
    ensures i < 0 || r != 0 ==> k !in t.keys && (h == 0 ==> k !in Items(t))
    ensures h > 0 ==> NonDecreasing(Items(t.kids[i + 1])) && ((i < 0 || r != 0) ==> (k in Items(t) <==> k in Items(t.kids[i + 1])))
  {
    hide Items, Weave;
    NodeItems(t);
    if h > 0 {
      KeysSorted(t.keys, t.kids);
      KeysWithin(t.keys, t.kids);
      Narrow(t, i + 1, k);
    }
  }

  lemma NodeItems<R>(t: BTree<R>)
    ensures Items(t) == if t.kids == [] then t.keys else Weave(t.keys, t.kids)
  {
  }

  /** findnodekey. */
  method FindNodeKey(x0: BtreeNode, k: int, ghost t0: NTree, ghost h0: nat, ghost deg: nat) returns (found: Option<int>)
    requires Shape(t0, deg) && Sep(t0) && Body(t0, h0, deg) && NonDecreasing(Items(t0)) && t0.ref == x0
    ensures found == if k in Items(t0) then Some(k) else None
  {
    hide Shape, Sep, Body, Items, Refs, RefsAll, ShapeAll, SepAll, Local, Tops;
    var x: BtreeNode? := x0;
    ghost var t, h := t0, h0;
    while x != null
      invariant x != null ==> t.ref == x && Shape(t, deg) && Sep(t) && Body(t, h, deg) && NonDecreasing(Items(t))
      invariant x != null ==> (k in Items(t) <==> k in Items(t0))
      invariant x == null ==> k !in Items(t0)
      decreases x != null, h
    {
      OpenNode(t, deg);
      Form(t, h, deg);
      OwnKeys(t, h, deg);
      Alive(t);
      var i, r := FindKIndex(x, k, t.keys, Tops(t.kids), deg);
      Leads(t, h, deg, k, i, r);
      Reads(x, t.keys, t.kids, deg);
      if i >= 0 && r == 0 {
        return Some(x.keys[i]);
      }
      if x.leaf {
        return None;
      }
      BodyKid(t, h, deg, i + 1);
      ghost var a, c, b := OpenKid(t, i + 1, deg);
      x := x.nodes[i + 1];
      t, h := c, h - 1;
    }
    found := None;
  }

  lemma Form<R>(t: BTree<R>, h: nat, deg: nat)
    requires Body(t, h, deg)
    ensures (t.kids == [] <==> h == 0) && |t.keys| <= 2 * deg - 1 && (h > 0 ==> |t.kids| == |t.keys| + 1)
  {
  }

  lemma OwnKeys<R>(t: BTree<R>, h: nat, deg: nat)
    requires Body(t, h, deg) && NonDecreasing(Items(t))
    ensures NonDecreasing(t.keys)
  {
    if h > 0 {
      KeysSorted(t.keys, t.kids);
    }
  }
}
