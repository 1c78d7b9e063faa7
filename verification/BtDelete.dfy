/** bt_code.c: nodedeletekey and bt_delete. */
module BtDelete {
  import opened Seqs
  import opened Memory
  import opened BtModel
  import opened BtHeap
  import opened BtMoves
  import opened BtSearch
  import opened BtInsert

  /** Which item goes: the last one (s == 1), the first one (s == 2), or one that equals k. */
  ghost function Place(items: seq<int>, k: int, s: nat): (j: nat)
    requires items != [] && (s == 0 ==> k in items)
    ensures j < |items|
  {
    if s == 0 then First(items, k) else if s == 1 then |items| - 1 else 0
  }

  ghost function First(items: seq<int>, k: int): (j: nat)
    requires k in items
    ensures j < |items| && items[j] == k && forall i :: 0 <= i < j ==> items[i] != k
  {
    if items[0] == k then 0 else First(items[1..], k) + 1
  }

  /** The items without one. */
  ghost predicate Removed(items: seq<int>, k: int, s: nat, kp: int, rest: seq<int>) {
    items != [] && (s == 0 ==> k in items) && kp == items[Place(items, k, s)] && rest == DeleteAt(items, Place(items, k, s))
  }

  /** Among equal items it does not matter which one goes. */
  lemma {:induction false} AnyOne(items: seq<int>, k: int, j: nat)
    requires NonDecreasing(items) && j < |items| && items[j] == k
    ensures Removed(items, k, 0, k, DeleteAt(items, j))
  {
    var f := First(items, k);
    var a, b := DeleteAt(items, j), DeleteAt(items, f);
    forall i | 0 <= i < |a| ensures a[i] == b[i] {
      assert a[i] == items[if i < j then i else i + 1] && b[i] == items[if i < f then i else i + 1];
      if f <= i < j {
        assert items[i] == items[i + 1] == k;
      }
    }
  }

  /** What goes from the part c goes from the whole, if c stands at the right end of it. */
  lemma {:induction false} RemovedInside(a: seq<int>, c: seq<int>, b: seq<int>, k: int, s: nat, kp: int, d: seq<int>)
    requires NonDecreasing(a + c + b) && Removed(c, k, s, kp, d) && (s == 1 ==> b == []) && (s == 2 ==> a == []) && s <= 2
    ensures Removed(a + c + b, k, s, kp, a + d + b)
  {
    var j := Place(c, k, s);
    DeleteInside(a, c, b, j);
    if s == 0 {
      AnyOne(a + c + b, k, |a| + j);
    }
  }

  lemma DeleteInside<T>(a: seq<T>, c: seq<T>, b: seq<T>, j: nat)
    requires j < |c|
    ensures |a| + j < |a + c + b| && (a + c + b)[|a| + j] == c[j]
    ensures DeleteAt(a + c + b, |a| + j) == a + DeleteAt(c, j) + b
  {
    assert (a + c + b)[..|a| + j] == a + c[..j] && (a + c + b)[|a| + j + 1..] == c[j + 1..] + b;
  }

  /** Deleting from a sorted sequence leaves it sorted. */
  lemma {:induction false} RemovedSorted(items: seq<int>, k: int, s: nat, kp: int, rest: seq<int>)
    requires NonDecreasing(items) && Removed(items, k, s, kp, rest)
    ensures NonDecreasing(rest) && |rest| == |items| - 1
  {
    var j := Place(items, k, s);
    assert forall i :: 0 <= i < |rest| ==> rest[i] == items[if i < j then i else i + 1];
  }

  /** Case 1: the key at i leaves a leaf. */
  method DeleteFromLeaf(x: BtreeNode, i: nat, ghost t: NTree, ghost deg: nat) returns (kp: int, ghost u: NTree)
    requires Shape(t, deg) && Sep(t) && t.ref == x && t.kids == [] && i < |t.keys|
    modifies x`n, x.keys
    ensures kp == t.keys[i] && u == Node(x, DeleteAt(t.keys, i), []) && Shape(u, deg) && Sep(u) && Refs(u) == Refs(t)
  {
    Reads(x, t.keys, t.kids, deg);
    kp := x.keys[i];
    Bcopy(x.keys, i + 1, x.keys, i, x.n - i - 1);
    x.n := x.n - 1;
    u := Node(x, DeleteAt(t.keys, i), []);
  }

  /** The child at j of u has a key to spare, holds all that the child at i of t held, and stands at the
      same end of the node if that one stood at an end. */
  ghost predicate Refilled(t: NTree, i: nat, h: nat, deg: nat, u: NTree, j: nat) {
    && |t.kids| == |t.keys| + 1 && i <= |t.keys| && |u.kids| == |u.keys| + 1 && j <= |u.keys| && |u.keys| >= |t.keys| - 1
    && u.ref == t.ref && Body(u, h, deg) && Items(u) == Items(t) && |u.kids[j].keys| >= deg
    && (forall x :: x in Items(t.kids[i]) ==> x in Items(u.kids[j]))
    && (i == 0 ==> j == 0) && (i == |t.keys| ==> j == |u.keys|)
  }

  /** Where a key to spare comes from: nowhere if there is one, else from the left sibling if that has one to
      spare, else from the right one, else by merging with the left one, or the right one of the first child. */
  ghost predicate FromSibling(t: NTree, i: nat, deg: nat, u: NTree, j: nat)
    requires |t.kids| == |t.keys| + 1 && i <= |t.keys|
  {
    if |t.kids[i].keys| >= deg then u == t && j == i
    else if i > 0 && |t.kids[i - 1].keys| >= deg then |u.keys| == |t.keys| && j == i && |u.kids| == |t.kids| && u.kids[i + 1..] == t.kids[i + 1..]
    else if i < |t.keys| && |t.kids[i + 1].keys| >= deg then |u.keys| == |t.keys| && j == i && |u.kids| == |t.kids| && u.kids[..i] == t.kids[..i]
    else |u.keys| == |t.keys| - 1 && j == if i > 0 then i - 1 else 0
  }

  lemma TopsStay<R>(y: BTree<R>, k: int, z: BTree<R>)
    ensures WithFirst(z, k, y).ref == z.ref && WithLast(y, k, z).ref == y.ref
  {
  }

  lemma {:induction false} LeftRefills(t: NTree, i: nat, h: nat, deg: nat)
    requires h > 0 && Body(t, h, deg) && i < |t.keys| && |t.kids[i].keys| >= deg >= 2 && |t.kids[i + 1].keys| == deg - 1
    ensures Alike(t.kids[i], t.kids[i + 1])
    ensures var l, r := t.kids[i], t.kids[i + 1];
      var u := SwapTwo(t, i, LessLast(l), l.keys[|l.keys| - 1], WithFirst(r, t.keys[i], l));
      && Refilled(t, i + 1, h, deg, u, i + 1) && FromSibling(t, i + 1, deg, u, i + 1)
      && WithFirst(r, t.keys[i], l).ref == r.ref
  {
    hide Items, LessLast, WithFirst;
    var l, r := t.kids[i], t.kids[i + 1];
    BodyKid(t, h, deg, i);
    BodyKid(t, h, deg, i + 1);
    Form(l, h - 1, deg);
    Form(r, h - 1, deg);
    TopsStay(l, t.keys[i], r);
    ShiftRight(l, t.keys[i], r, h - 1, deg);
    SwapTwoItems(t, i, LessLast(l), l.keys[|l.keys| - 1], WithFirst(r, t.keys[i], l));
    BodySwapTwo(t, h, deg, i, LessLast(l), l.keys[|l.keys| - 1], WithFirst(r, t.keys[i], l));
  }

  lemma {:induction false} RightRefills(t: NTree, i: nat, h: nat, deg: nat)
    requires h > 0 && Body(t, h, deg) && i < |t.keys| && |t.kids[i + 1].keys| >= deg >= 2 && |t.kids[i].keys| == deg - 1
    ensures Alike(t.kids[i], t.kids[i + 1])
    ensures var l, r := t.kids[i], t.kids[i + 1];
      var u := SwapTwo(t, i, WithLast(l, t.keys[i], r), r.keys[0], LessFirst(r));
      && Refilled(t, i, h, deg, u, i) && ((i > 0 ==> |t.kids[i - 1].keys| < deg) ==> FromSibling(t, i, deg, u, i))
      && WithLast(l, t.keys[i], r).ref == l.ref
  {
    hide Items, LessFirst, WithLast;
    var l, r := t.kids[i], t.kids[i + 1];
    BodyKid(t, h, deg, i);
    BodyKid(t, h, deg, i + 1);
    Form(l, h - 1, deg);
    Form(r, h - 1, deg);
    TopsStay(l, t.keys[i], r);
    ShiftLeft(l, t.keys[i], r, h - 1, deg);
    SwapTwoItems(t, i, WithLast(l, t.keys[i], r), r.keys[0], LessFirst(r));
    BodySwapTwo(t, h, deg, i, WithLast(l, t.keys[i], r), r.keys[0], LessFirst(r));
  }

  lemma {:induction false} MergeRefills(t: NTree, i: nat, h: nat, deg: nat)
    requires h > 0 && Body(t, h, deg) && i < |t.keys| && |t.kids[i].keys| == |t.kids[i + 1].keys| == deg - 1 && deg >= 2
    ensures Alike(t.kids[i], t.kids[i + 1])
    ensures var u := Fuse(t, i, Merged(t.kids[i], t.keys[i], t.kids[i + 1]));
      && Refilled(t, i, h, deg, u, i) && Refilled(t, i + 1, h, deg, u, i) && t.keys[i] in Items(u.kids[i])
      && (i == 0 ==> FromSibling(t, i, deg, u, i))
      && ((i + 1 < |t.keys| ==> |t.kids[i + 2].keys| < deg) ==> FromSibling(t, i + 1, deg, u, i))
  {
    hide Items;
    var l, r := t.kids[i], t.kids[i + 1];
    BodyKid(t, h, deg, i);
    BodyKid(t, h, deg, i + 1);
    Form(l, h - 1, deg);
    Form(r, h - 1, deg);
    MergeTwo(l, t.keys[i], r, h - 1, deg);
    FuseItems(t, i, Merged(l, t.keys[i], r));
    BodyFuse(t, h, deg, i, Merged(l, t.keys[i], r));
  }

  lemma EnoughKeys(t: NTree, i: nat, h: nat, deg: nat)
    requires |t.kids| == |t.keys| + 1 && i <= |t.keys| && Body(t, h, deg)
    ensures |t.kids[i].keys| >= deg ==> Refilled(t, i, h, deg, t, i) && FromSibling(t, i, deg, t, i)
  {
  }

  /** What a node says about its child at i. */
  lemma {:induction false} ReadKid(t: NTree, i: nat, deg: nat)
    requires Shape(t, deg) && Sep(t) && i < |t.kids|
    ensures i < t.ref.nodes.Length && t.ref.nodes[i] == t.kids[i].ref && t.kids[i].ref.n == |t.kids[i].keys|
  {
    hide Shape, Sep, Refs, RefsAll, ShapeAll, SepAll, Local, Tops;
    var a, c, b := OpenKid(t, i, deg);
    OpenNode(c, deg);
    Reads(c.ref, c.keys, c.kids, deg);
    Reads(t.ref, t.keys, t.kids, deg);
  }

  /** Case 3: the child at i, brought to deg keys if it has fewer. */
  method Refill(x: BtreeNode, i: nat, deg: nat, ghost t: NTree, ghost h: nat) returns (xp: BtreeNode, ghost u: NTree, ghost j: nat)
    requires Shape(t, deg) && Sep(t) && t.ref == x && h > 0 && Body(t, h, deg) && t.keys != [] && i <= |t.keys| && deg >= 2
    modifies Refs(t)
    ensures Shape(u, deg) && Sep(u) && Refs(u) <= Refs(t) && Refilled(t, i, h, deg, u, j) && u.kids[j].ref == xp
    ensures FromSibling(t, i, deg, u, j)
  {
    hide Shape, Sep, Body, Items, Refs, RefsAll, ShapeAll, SepAll, Local, Tops, Alike, LessLast, LessFirst, WithLast, WithFirst, Refilled, FromSibling;
    OpenNode(t, deg);
    Reads(x, t.keys, t.kids, deg);
    BodyKid(t, h, deg, i);
    ReadKid(t, i, deg);
    u, j := t, i;
    EnoughKeys(t, i, h, deg);
    xp := x.nodes[i];
    if xp.n == deg - 1 {
      if i > 0 {
        BodyKid(t, h, deg, i - 1);
        ReadKid(t, i - 1, deg);
      }
      if i < x.n {
        BodyKid(t, h, deg, i + 1);
        ReadKid(t, i + 1, deg);
      }
      if i > 0 && x.nodes[i - 1].n >= deg {
        LeftRefills(t, i - 1, h, deg);
        u := BorrowLeft(x, i - 1, x.nodes[i - 1], xp, t, deg);
      } else if i < x.n && x.nodes[i + 1].n >= deg {
        RightRefills(t, i, h, deg);
        u := BorrowRight(x, i, xp, x.nodes[i + 1], t, deg);
      } else if i > 0 && x.nodes[i - 1].n == deg - 1 {
        MergeRefills(t, i - 1, h, deg);
        var y := x.nodes[i - 1];
        u := Merge(x, i - 1, y, xp, t, deg);
        xp := y;
        j := i - 1;
      } else if i < x.n && x.nodes[i + 1].n == deg - 1 {
        MergeRefills(t, i, h, deg);
        u := Merge(x, i, xp, x.nodes[i + 1], t, deg);
      }
    }
  }

  /** What deleting from the child at j makes of the whole. */
  lemma {:induction false} SwapRemoved(t: NTree, j: nat, d: NTree, k: int, s: nat, kp: int)
    requires |t.kids| == |t.keys| + 1 && j <= |t.keys| && NonDecreasing(Items(t)) && s <= 2
    requires Removed(Items(t.kids[j]), k, s, kp, Items(d)) && (s == 1 ==> j == |t.keys|) && (s == 2 ==> j == 0)
    ensures Removed(Items(t), k, s, kp, Items(Swap(t, j, d)))
  {
    hide Items, Removed, NonDecreasing;
    SwapItems(t, j, d);
    BeforeEnds(t, j);
    RemovedInside(Before(t, j), Items(t.kids[j]), Behind(t, j), k, s, kp, Items(d));
  }

  lemma EndGoes(y: seq<int>, s: nat, kp: int, rest: seq<int>)
    requires Removed(y, 0, s, kp, rest) && 1 <= s <= 2
    ensures s == 1 ==> y == rest + [kp]
    ensures s == 2 ==> y == [kp] + rest
  {
  }

  /** The item between y and z goes. */
  lemma {:induction false} MiddleGoes(a: seq<int>, y: seq<int>, k: int, z: seq<int>, b: seq<int>, rest: seq<int>)
    requires NonDecreasing(a + (y + [k] + z) + b) && rest == y + z
    ensures Removed(a + (y + [k] + z) + b, k, 0, k, a + rest + b)
  {
    hide NonDecreasing, Removed;
    var s, j := a + (y + [k] + z) + b, |a| + |y|;
    assert s[j] == k && s[..j] == a + y && s[j + 1..] == z + b;
    assert DeleteAt(s, j) == a + rest + b;
    AnyOne(s, k, j);
  }

  /** Case 2a: the greatest item below takes the place of the key. */
  lemma {:induction false} PredecessorUp(t: NTree, i: nat, d: NTree, k: int, kp: int)
    requires |t.kids| == |t.keys| + 1 && i < |t.keys| && t.keys[i] == k && NonDecreasing(Items(t))
    requires Removed(Items(t.kids[i]), 0, 1, kp, Items(d))
    ensures Removed(Items(t), k, 0, k, Items(SwapTwo(t, i, d, kp, t.kids[i + 1])))
  {
    hide Items, NonDecreasing, Lefts, Rights, Weave, Removed;
    var u := SwapTwo(t, i, d, kp, t.kids[i + 1]);
    var y, z := Items(t.kids[i]), Items(t.kids[i + 1]);
    EndGoes(y, 1, kp, Items(d));
    TwoItems(t, i);
    TwoItems(u, i);
    assert u.kids[..i] == t.kids[..i] && u.kids[i + 2..] == t.kids[i + 2..];
    assert u.keys[..i] == t.keys[..i] && u.keys[i + 1..] == t.keys[i + 1..];
    var a, b := Lefts(t.keys[..i], t.kids[..i]), Rights(t.keys[i + 1..], t.kids[i + 2..]);
    MiddleGoes(a, y, k, z, b, Items(d) + [kp] + z);
  }

  /** Case 2b: the least item behind takes the place of the key. */
  lemma {:induction false} SuccessorUp(t: NTree, i: nat, d: NTree, k: int, kp: int)
    requires |t.kids| == |t.keys| + 1 && i < |t.keys| && t.keys[i] == k && NonDecreasing(Items(t))
    requires Removed(Items(t.kids[i + 1]), 0, 2, kp, Items(d))
    ensures Removed(Items(t), k, 0, k, Items(SwapTwo(t, i, t.kids[i], kp, d)))
  {
    hide Items, NonDecreasing, Lefts, Rights, Weave, Removed;
    var u := SwapTwo(t, i, t.kids[i], kp, d);
    var y, z := Items(t.kids[i]), Items(t.kids[i + 1]);
    EndGoes(z, 2, kp, Items(d));
    TwoItems(t, i);
    TwoItems(u, i);
    assert u.kids[..i] == t.kids[..i] && u.kids[i + 2..] == t.kids[i + 2..];
    assert u.keys[..i] == t.keys[..i] && u.keys[i + 1..] == t.keys[i + 1..];
    var a, b := Lefts(t.keys[..i], t.kids[..i]), Rights(t.keys[i + 1..], t.kids[i + 2..]);
    MiddleGoes(a, y, k, z, b, y + [kp] + Items(d));
  }

  lemma TwoItems(t: NTree, i: nat)
    requires |t.kids| == |t.keys| + 1 && i < |t.keys|
    ensures Items(t) == Lefts(t.keys[..i], t.kids[..i]) + (Items(t.kids[i]) + [t.keys[i]] + Items(t.kids[i + 1])) + Rights(t.keys[i + 1..], t.kids[i + 2..])
  {
    WeaveAtTwo(t.keys, t.kids, i);
  }

  /** KEYS(btr, x)[i] = kp at the top of a tree. */
  method PutKey(x: BtreeNode, i: nat, kp: int, ghost t: NTree, ghost deg: nat) returns (ghost u: NTree)
    requires Shape(t, deg) && Sep(t) && t.ref == x && i < |t.keys|
    modifies x.keys
    ensures u == t.(keys := t.keys[i := kp]) && Shape(u, deg) && Sep(u) && Refs(u) == Refs(t)
  {
    hide Refs, RefsAll, ShapeAll, SepAll, Local, Tops, Shape, Sep;
    OpenNode(t, deg);
    AliveAll(t.kids);
    SetKey(x, i, kp, t.keys, Tops(t.kids), deg);
    u := t.(keys := t.keys[i := kp]);
    CloseNode(x, u.keys, u.kids, deg);
  }

  /** The recursive call of nodedeletekey on the child at j, which has keys to spare. */
  method DeleteBelow(x: BtreeNode, xp: BtreeNode, ghost j: nat, k: int, s: nat, deg: nat, ghost t: NTree, ghost h: nat) returns (kp: int, ghost d: NTree, ghost u: NTree)
    requires Shape(t, deg) && Sep(t) && t.ref == x && h > 0 && Body(t, h, deg) && NonDecreasing(Items(t)) && deg >= 2
    requires j < |t.kids| == |t.keys| + 1 && t.kids[j].ref == xp && |t.kids[j].keys| >= deg && (s == 0 ==> k in Items(t.kids[j])) && s <= 2
    modifies Refs(t)
    ensures u == Swap(t, j, d) && Shape(u, deg) && Sep(u) && Refs(u) <= Refs(t) && Body(u, h, deg)
    ensures Body(d, h - 1, deg) && |d.keys| >= deg - 1 && Removed(Items(t.kids[j]), k, s, kp, Items(d))
    decreases h, 0
  {
    hide Refs, RefsAll, ShapeAll, SepAll, Local, Tops, Shape, Sep, Items, NonDecreasing, Body, Removed;
    ghost var a, c, b := OpenKid(t, j, deg);
    BodyKid(t, h, deg, j);
    KidSorted(t, j);
    AliveAll(a);
    AliveAll(b);
    ghost var others: set<object> := Own(x) + RefsAll(a) + RefsAll(b);
    kp, d := DeleteKey(xp, k, s, deg, c, h - 1);
    u := Swap(t, j, d);
    SameTop(t, j, d);
    CloseKid(x, t.keys, a, d, b, deg);
    BodySwap(t, h, deg, j, d);
  }

  lemma KidSorted<R>(t: BTree<R>, j: nat)
    requires |t.kids| == |t.keys| + 1 && j <= |t.keys| && NonDecreasing(Items(t))
    ensures NonDecreasing(Items(t.kids[j]))
  {
    hide Items, NonDecreasing;
    SwapItems(t, j, t.kids[j]);
    SortedPieces(Before(t, j), Items(t.kids[j]), Behind(t, j));
  }

  /** Case 2 of nodedeletekey: k is the key at i of an inner node. */
  method DeleteInner(x: BtreeNode, i: nat, k: int, deg: nat, ghost t: NTree, ghost h: nat) returns (kp: int, ghost u: NTree)
    requires Shape(t, deg) && Sep(t) && t.ref == x && h > 0 && Body(t, h, deg) && NonDecreasing(Items(t)) && deg >= 2
    requires i < |t.keys| && t.keys[i] == k
    modifies Refs(t)
    ensures Shape(u, deg) && Sep(u) && Refs(u) <= Refs(t) && u.ref == x && Body(u, h, deg) && |u.keys| >= |t.keys| - 1
    ensures Removed(Items(t), k, 0, kp, Items(u))
    decreases h, 1
  {
    hide Refs, RefsAll, ShapeAll, SepAll, Local, Tops, Shape, Sep, Items, NonDecreasing, Body, Removed;
    OpenNode(t, deg);
    Reads(x, t.keys, t.kids, deg);
    BodyKid(t, h, deg, i);
    BodyKid(t, h, deg, i + 1);
    ReadKid(t, i, deg);
    ReadKid(t, i + 1, deg);
    var y, z := x.nodes[i], x.nodes[i + 1];
    ghost var d;
    if y.n >= deg {
      kp := x.keys[i];
      var up;
      up, d, u := DeleteBelow(x, y, i, 0, 1, deg, t, h);
      u := PutKey(x, i, up, u, deg);
      PredecessorUp(t, i, d, k, up);
      BodySwapTwo(t, h, deg, i, d, up, t.kids[i + 1]);
      assert u == SwapTwo(t, i, d, up, t.kids[i + 1]);
    } else if z.n >= deg {
      kp := x.keys[i];
      var up;
      up, d, u := DeleteBelow(x, z, i + 1, 0, 2, deg, t, h);
      u := PutKey(x, i, up, u, deg);
      SuccessorUp(t, i, d, k, up);
      BodySwapTwo(t, h, deg, i, t.kids[i], up, d);
      assert u == SwapTwo(t, i, t.kids[i], up, d);
    } else {
      MergeRefills(t, i, h, deg);
      ghost var v := Merge(x, i, y, z, t, deg);
      kp, d, u := DeleteBelow(x, y, i, k, 0, deg, v, h);
      SwapRemoved(v, i, d, k, 0, kp);
    }
  }

  /** nodedeletekey: takes one item out of the subtree of x, one that equals k (s == 0), the last one (1)
      or the first one (2). The subtree keeps its height, and x loses at most one key. */
  method DeleteKey(x: BtreeNode, k: int, s: nat, deg: nat, ghost t: NTree, ghost h: nat) returns (kp: int, ghost u: NTree)
    requires Shape(t, deg) && Sep(t) && t.ref == x && Body(t, h, deg) && NonDecreasing(Items(t)) && deg >= 2
    requires t.keys != [] && (s == 0 ==> k in Items(t)) && s <= 2
    modifies Refs(t)
    ensures Shape(u, deg) && Sep(u) && Refs(u) <= Refs(t) && u.ref == x && Body(u, h, deg) && |u.keys| >= |t.keys| - 1
    ensures Removed(Items(t), k, s, kp, Items(u))
    decreases h, 2
  {
    hide Refs, RefsAll, ShapeAll, SepAll, Local, Tops, Shape, Sep, Items, NonDecreasing, Body, Removed, Refilled, FromSibling;
    OpenNode(t, deg);
    OwnIn(t);
    Form(t, h, deg);
    OwnKeys(t, h, deg);
    Reads(x, t.keys, t.kids, deg);
    Alive(t);
    var i, r := -1, -1;
    if s != 0 {
      r := if x.leaf then 0 else if s == 1 then 1 else -1;
      i := if s == 1 then x.n - 1 else -1;
    } else {
      i, r := FindKIndex(x, k, t.keys, Tops(t.kids), deg);
      Leads(t, h, deg, k, i, r);
    }
    if x.leaf {
      if s == 2 {
        i := i + 1;
      }
      kp, u := DeleteFromLeaf(x, i, t, deg);
      LeafRemoved(t, u, i, k, s, kp, deg);
      return;
    }
    if r == 0 {
      kp, u := DeleteInner(x, i, k, deg, t, h);
      return;
    }
    var xp;
    ghost var v, j, d;
    xp, v, j := Refill(x, i + 1, deg, t, h);
    RefilledParts(t, i + 1, h, deg, v, j);
    kp, d, u := DeleteBelow(x, xp, j, k, s, deg, v, h);
    SwapRemoved(v, j, d, k, s, kp);
  }

  lemma RefilledParts(t: NTree, i: nat, h: nat, deg: nat, u: NTree, j: nat)
    requires Refilled(t, i, h, deg, u, j)
    ensures |u.kids| == |u.keys| + 1 && j <= |u.keys| && |u.keys| >= |t.keys| - 1 && i < |t.kids|
    ensures u.ref == t.ref && Body(u, h, deg) && Items(u) == Items(t) && |u.kids[j].keys| >= deg
    ensures forall x :: x in Items(t.kids[i]) ==> x in Items(u.kids[j])
    ensures (i == 0 ==> j == 0) && (i == |t.keys| ==> j == |u.keys|)
  {
  }

  lemma {:induction false} LeafRemoved(t: NTree, u: NTree, i: nat, k: int, s: nat, kp: int, deg: nat)
    requires t.kids == [] && i < |t.keys| <= 2 * deg - 1 && NonDecreasing(t.keys) && kp == t.keys[i] && u == Node(t.ref, DeleteAt(t.keys, i), [])
    requires s <= 2 && if s == 0 then kp == k else if s == 1 then i == |t.keys| - 1 else i == 0
    ensures Removed(Items(t), k, s, kp, Items(u)) && Body(u, 0, deg)
  {
    if s == 0 {
      AnyOne(t.keys, k, i);
    }
  }

  lemma {:induction false} EmptyRoot(u: NTree, h: nat, deg: nat)
    requires Body(u, h, deg) && h > 0 && u.keys == [] && deg >= 2 && Shape(u, deg) && Sep(u)
    ensures |u.kids| == 1 && Body(u.kids[0], h - 1, deg) && u.kids[0].keys != [] && Items(u.kids[0]) == Items(u)
    ensures Shape(u.kids[0], deg) && Sep(u.kids[0]) && Refs(u.kids[0]) <= Refs(u)
  {
    hide Shape, Sep, Refs, RefsAll, ShapeAll, SepAll, Local, Tops;
    BodyKid(u, h, deg, 0);
    WeaveOne(u.kids[0]);
    assert u.kids == [u.kids[0]];
    var a, c, b := OpenKid(u, 0, deg);
  }

  /** bt_delete of an item that is there: exactly one item that equals k goes. Only a root without keys
      makes the tree lower. */
  method Delete(btr: Btree, k: int) returns (r: int)
    requires btr.Valid() && k in Items(btr.tree)
    modifies btr`root, btr`tree, btr`height, Refs(btr.tree)
    ensures btr.Valid() && r == k && Items(btr.tree) == DeleteAt(old(Items(btr.tree)), First(old(Items(btr.tree)), k))
    ensures old(btr.height) - 1 <= btr.height <= old(btr.height) && Refs(btr.tree) <= old(Refs(btr.tree))
  {
    hide Shape, Sep, Body, Items, Refs, RefsAll, ShapeAll, SepAll, Local, Tops, NonDecreasing;
    ghost var t, h := btr.tree, btr.height;
    HasKeys(t, h, btr.t);
    Alive(t);
    ghost var u;
    r, u := DeleteKey(btr.root, k, 0, btr.t, t, h);
    RemovedSorted(Items(t), k, 0, r, Items(u));
    OpenNode(u, btr.t);
    Form(u, h, btr.t);
    Reads(btr.root, u.keys, u.kids, btr.t);
    if btr.root.n == 0 && !btr.root.leaf {
      EmptyRoot(u, h, btr.t);
      ghost var all: set<object> := Refs(u.kids[0]);
      btr.root := btr.root.nodes[0];
      u, h := u.kids[0], h - 1;
    }
    Install(btr, u, h);
  }

  lemma HasKeys<R>(t: BTree<R>, h: nat, deg: nat)
    requires Body(t, h, deg) && (h > 0 ==> t.keys != []) && Items(t) != []
    ensures t.keys != []
  {
  }
}
