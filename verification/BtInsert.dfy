/** bt_code.c: the tree, and bt_insert. */
module BtInsert {
  import opened Seqs
  import opened Memory
  import opened BtModel
  import opened BtHeap
  import opened BtMoves
  import opened BtSearch

  /** Among equal items the place does not matter. */
  lemma {:induction false} AnyPlace(s: seq<int>, k: int, j: nat)
    requires NonDecreasing(s) && j <= |s|
    requires forall i :: 0 <= i < j ==> s[i] <= k
    requires forall i :: j <= i < |s| ==> k <= s[i]
    ensures InsertAt(s, j, k) == InsertSorted(s, k) && NonDecreasing(InsertSorted(s, k))
  {
    var l := LowerBound(s, k);
    var a, b := InsertAt(s, j, k), InsertAt(s, l, k);
    assert j < |s| ==> k <= s[j];
    assert l <= j;
    forall i | 0 <= i <= |s| ensures a[i] == b[i] {
      assert a[i] == if i < j then s[i] else if i == j then k else s[i - 1];
      assert b[i] == if i < l then s[i] else if i == l then k else s[i - 1];
      if l <= i < j {
        assert s[i] == k;
      }
      if l < i <= j {
        assert s[i - 1] == k;
      }
    }
  }

  lemma {:induction false} PartBounds(a: seq<int>, c: seq<int>, b: seq<int>, k: int, l: nat)
    requires (forall x :: x in a ==> x <= k) && (forall x :: x in b ==> k <= x)
    requires l <= |c| && (forall i :: 0 <= i < l ==> c[i] <= k) && (forall i :: l <= i < |c| ==> k <= c[i])
    ensures forall i :: 0 <= i < |a| + l ==> (a + c + b)[i] <= k
    ensures forall i :: |a| + l <= i < |a + c + b| ==> k <= (a + c + b)[i]
  {
    var s := a + c + b;
    forall i | 0 <= i < |a| + l ensures s[i] <= k {
      assert if i < |a| then s[i] in a else s[i] == c[i - |a|];
    }
    forall i | |a| + l <= i < |s| ensures k <= s[i] {
      assert if i < |a| + |c| then s[i] == c[i - |a|] else s[i] in b;
    }
  }

  lemma CatInsert<T>(a: seq<T>, c: seq<T>, b: seq<T>, l: nat, k: T)
    requires l <= |c|
    ensures InsertAt(a + c + b, |a| + l, k) == a + InsertAt(c, l, k) + b
  {
    assert (a + c + b)[..|a| + l] == a + c[..l] && (a + c + b)[|a| + l..] == c[l..] + b;
  }

  lemma {:induction false} LowerSplits(c: seq<int>, k: int)
    requires NonDecreasing(c)
    ensures var l := LowerBound(c, k); (forall i :: 0 <= i < l ==> c[i] <= k) && (forall i :: l <= i < |c| ==> k <= c[i])
  {
  }

  /** Inserting into the part that leaves nothing larger before it and nothing smaller behind it. */
  lemma {:induction false} InsertInside(a: seq<int>, c: seq<int>, b: seq<int>, k: int)
    requires NonDecreasing(a + c + b) && (forall x :: x in a ==> x <= k) && (forall x :: x in b ==> k <= x)
    ensures InsertSorted(a + c + b, k) == a + InsertSorted(c, k) + b && NonDecreasing(InsertSorted(a + c + b, k))
  {
    hide NonDecreasing, LowerBound, InsertAt;
    var s, l := a + c + b, LowerBound(c, k);
    SortedPieces(a, c, b);
    LowerSplits(c, k);
    PartBounds(a, c, b, k, l);
    AnyPlace(s, k, |a| + l);
    CatInsert(a, c, b, l, k);
  }

  /** struct btree; t is the least number of children of an inner node that is not the root. */
  class Btree {
    var root: BtreeNode
    const t: nat
    ghost var tree: NTree
    ghost var height: nat

    /** bt_create, for a minimal degree that fits. */
    constructor (deg: nat)
      requires deg >= 2
      ensures Valid() && Items(tree) == [] && t == deg && fresh(Refs(tree))
    {
      var x := new BtreeNode(deg);
      root, t, tree, height := x, deg, Node(x, [], []), 0;
      new;
      Nothing(deg);
      CloseNode(x, [], [], deg);
    }

    /** The rules of a B-tree, and sorted items. */
    ghost predicate Valid()
      reads this, Refs(tree)
    {
      && t >= 2 && this !in Refs(tree) && root == tree.ref && Shape(tree, t) && Sep(tree) && Body(tree, height, t)
      && (height > 0 ==> tree.keys != []) && NonDecreasing(Items(tree))
    }
  }

  /** The part of btreeinsertnonfull for a leaf. */
  method InsertLeaf(x: BtreeNode, k: int, ghost t: NTree, ghost deg: nat) returns (ghost u: NTree)
    requires Shape(t, deg) && Sep(t) && t.ref == x && t.kids == [] && |t.keys| < 2 * deg - 1 && NonDecreasing(t.keys)
    modifies x`n, x.keys
    ensures u == Node(x, InsertSorted(t.keys, k), []) && Shape(u, deg) && Sep(u) && Refs(u) == Refs(t)
  {
    hide InsertSorted;
    var i, r := FindKIndex(x, k, t.keys, Tops(t.kids), deg);
    AnyPlace(t.keys, k, i + 1);
    if i != x.n - 1 {
      Bcopy(x.keys, i + 1, x.keys, i + 2, x.n - i - 1);
    }
    x.keys[i + 1] := k;
    x.n := x.n + 1;
    u := Node(x, InsertAt(t.keys, i + 1, k), []);
  }

  /** The child at i may hold k, as far as the keys beside it say. */
  ghost predicate Fits<R>(t: BTree<R>, i: nat, k: int) {
    i <= |t.keys| && (i > 0 ==> t.keys[i - 1] <= k) && (i < |t.keys| ==> k <= t.keys[i])
  }

  lemma FoundFits<R>(t: BTree<R>, k: int, i: int, r: int)
    requires Located(t.keys, k, i, r)
    ensures -1 <= i && Fits(t, i + 1, k)
  {
  }

  /** Around a child that was split. */
  lemma SplitFits<R>(t: BTree<R>, i: nat, k: int, l: BTree<R>, m: int, r: BTree<R>)
    requires Fits(t, i, k) && |t.kids| == |t.keys| + 1
    ensures var u := Split(t, i, l, m, r);
      && u.keys[i] == m && u.kids[i] == l && u.kids[i + 1] == r && (k <= m ==> Fits(u, i, k)) && (k > m ==> Fits(u, i + 1, k))
  {
  }

  /** The part of btreeinsertnonfull that splits a full child before going on to it. */
  method MakeRoom(x: BtreeNode, i0: nat, k: int, deg: nat, ghost t: NTree, ghost h: nat) returns (i: nat, ghost u: NTree)
    requires Shape(t, deg) && Sep(t) && t.ref == x && h > 0 && Body(t, h, deg) && |t.keys| < 2 * deg - 1 && deg >= 2 && Fits(t, i0, k)
    modifies Refs(t)
    ensures Shape(u, deg) && Sep(u) && (forall o :: o in Refs(u) ==> o in Refs(t) || fresh(o)) && u.ref == x && Body(u, h, deg) && Items(u) == Items(t)
    ensures |u.keys| >= |t.keys| && Fits(u, i, k) && |u.kids| == |u.keys| + 1 && |u.kids[i].keys| < 2 * deg - 1
  {
    hide Shape, Sep, Body, Items, Refs, RefsAll, ShapeAll, SepAll, Local, Tops, Fits;
    i, u := i0, t;
    InRange(t, i, k);
    BodyKid(t, h, deg, i);
    ghost var a, c, b := OpenKid(t, i, deg);
    Reads(x, t.keys, t.kids, deg);
    var y := x.nodes[i];
    OpenNode(c, deg);
    Reads(y, c.keys, c.kids, deg);
    if y.n == 2 * deg - 1 {
      ghost var z;
      u, z := SplitChild(x, i, y, deg, t);
      SplitNode(z, c, h - 1, deg);
      ghost var l, r := LowHalf(c, deg), HighHalf(z, c, deg);
      SplitItems(t, i, l, c.keys[deg - 1], r);
      BodySplit(t, h, deg, i, l, c.keys[deg - 1], r);
      SplitFits(t, i, k, l, c.keys[deg - 1], r);
      OpenNode(u, deg);
      Reads(x, u.keys, u.kids, deg);
      if k > x.keys[i] {
        i := i + 1;
      }
    }
  }

  lemma InRange<R>(t: BTree<R>, i: nat, k: int)
    requires Fits(t, i, k)
    ensures i <= |t.keys|
  {
  }

  /** btreeinsertnonfull. */
  method InsertNonFull(x: BtreeNode, k: int, deg: nat, ghost t: NTree, ghost h: nat) returns (ghost u: NTree)
    requires Shape(t, deg) && Sep(t) && t.ref == x && Body(t, h, deg) && |t.keys| < 2 * deg - 1 && deg >= 2 && NonDecreasing(Items(t))
    modifies Refs(t)
    ensures Shape(u, deg) && Sep(u) && (forall o :: o in Refs(u) ==> o in Refs(t) || fresh(o)) && u.ref == x && Body(u, h, deg) && |u.keys| >= |t.keys|
    ensures Items(u) == InsertSorted(Items(t), k) && NonDecreasing(Items(u))
    decreases h
  {
    hide Shape, Sep, Body, Items, Refs, RefsAll, ShapeAll, SepAll, Local, Tops, Fits, InsertSorted, NonDecreasing;
    OpenNode(t, deg);
    OwnIn(t);
    Form(t, h, deg);
    Alive(t);
    NodeItems(t);
    OwnKeys(t, h, deg);
    Reads(x, t.keys, t.kids, deg);
    if x.leaf {
      u := InsertLeaf(x, k, t, deg);
      LeafGrown(t, u, k, deg);
    } else {
      var i, r := FindKIndex(x, k, t.keys, Tops(t.kids), deg);
      FoundFits(t, k, i, r);
      ghost var v;
      i, v := MakeRoom(x, i + 1, k, deg, t, h);
      InRange(v, i, k);
      FitsNarrow(v, i, k);
      BodyKid(v, h, deg, i);
      ghost var a, c, b := OpenKid(v, i, deg);
      Reads(x, v.keys, v.kids, deg);
      AliveAll(a);
      AliveAll(b);
      ghost var others: set<object> := Own(x) + RefsAll(a) + RefsAll(b);
      ghost var d := InsertNonFull(x.nodes[i], k, deg, c, h - 1);
      u := Swap(v, i, d);
      SameTop(v, i, d);
      CloseKid(x, v.keys, a, d, b, deg);
      BodySwap(v, h, deg, i, d);
      SwapItems(v, i, d);
      InsertInside(Before(v, i), Items(c), Behind(v, i), k);
    }
  }

  lemma LeafGrown(t: NTree, u: NTree, k: int, deg: nat)
    requires t.kids == [] && u == Node(t.ref, InsertSorted(t.keys, k), []) && |t.keys| < 2 * deg - 1 && NonDecreasing(t.keys)
    ensures Items(t) == t.keys && Items(u) == InsertSorted(t.keys, k) && NonDecreasing(Items(u)) && Body(u, 0, deg)
    ensures |u.keys| == |t.keys| + 1
  {
    var l := LowerBound(t.keys, k);
    LowerSplits(t.keys, k);
    AnyPlace(t.keys, k, l);
  }

  lemma FitsNarrow<R>(t: BTree<R>, i: nat, k: int)
    requires Fits(t, i, k) && |t.kids| == |t.keys| + 1 && NonDecreasing(Items(t))
    ensures NonDecreasing(Items(t.kids[i])) && Items(t) == Before(t, i) + Items(t.kids[i]) + Behind(t, i)
    ensures (forall x :: x in Before(t, i) ==> x <= k) && (forall x :: x in Behind(t, i) ==> k <= x)
  {
    hide Items;
    Narrow(t, i, k);
  }

  /** A new root over the full old one. */
  method NewRoot(r: BtreeNode, deg: nat, ghost t: NTree) returns (s: BtreeNode, ghost u: NTree)
    requires Shape(t, deg) && Sep(t) && t.ref == r && deg >= 1
    ensures u == Node(s, [], [t]) && Shape(u, deg) && Sep(u) && (forall o :: o in Refs(u) ==> o in Refs(t) || fresh(o))
  {
    hide Shape, Sep, Refs, ShapeAll, SepAll;
    Alive(t);
    ghost var all: set<object> := Refs(t);
    s := new BtreeNode(deg);
    assert Own(s) !! all;
    s.leaf := false;
    s.n := 0;
    s.nodes[0] := r;
    u := Node(s, [], [t]);
    One(t, deg);
    assert Tops([t]) == [r];
    CloseNode(s, [], [t], deg);
  }

  lemma RootAbove<R>(s: R, t: BTree<R>, h: nat, deg: nat)
    requires Body(t, h, deg) && |t.keys| == 2 * deg - 1 && deg >= 1
    ensures Body(Node(s, [], [t]), h + 1, deg) && Items(Node(s, [], [t])) == Items(t)
  {
    WeaveOne(t);
    assert Fine([t], h, deg);
  }

  /** The part of bt_insert that puts a new root on top of a full one. */
  method Grow(btr: Btree, r: BtreeNode) returns (s: BtreeNode, ghost u: NTree)
    requires btr.Valid() && btr.root == r && |btr.tree.keys| == 2 * btr.t - 1
    modifies btr`root, Refs(btr.tree)
    ensures btr.root == s == u.ref && Shape(u, btr.t) && Sep(u) && (forall o :: o in Refs(u) ==> o in Refs(btr.tree) || fresh(o))
    ensures Body(u, btr.height + 1, btr.t) && Items(u) == Items(btr.tree) && |u.keys| == 1
  {
    hide Shape, Sep, Body, Items, Refs, RefsAll, ShapeAll, SepAll, Local, Tops, NonDecreasing;
    ghost var t, h := btr.tree, btr.height;
    var deg := btr.t;
    Form(t, h, deg);
    s, u := NewRoot(r, deg, t);
    ghost var all: set<object> := Refs(u);
    assert btr !in all;
    btr.root := s;
    RootAbove(s, t, h, deg);
    ghost var z;
    SplitNode(s, t, h, deg);
    u, z := SplitChild(s, 0, r, deg, u);
    SplitNode(z, t, h, deg);
    ghost var a, b := LowHalf(t, deg), HighHalf(z, t, deg);
    SplitItems(Node(s, [], [t]), 0, a, t.keys[deg - 1], b);
    BodySplit(Node(s, [], [t]), h + 1, deg, 0, a, t.keys[deg - 1], b);
  }

  /** The tree with its new nodes. */
  ghost method Install(btr: Btree, u: NTree, h: nat)
    requires btr.t >= 2 && btr.root == u.ref && Shape(u, btr.t) && Sep(u) && Body(u, h, btr.t) && (h > 0 ==> u.keys != []) && NonDecreasing(Items(u))
    requires btr !in Refs(u)
    modifies btr`tree, btr`height
    ensures btr.Valid() && btr.tree == u && btr.height == h
  {
    hide Shape, Sep, Body, Items, Refs, NonDecreasing;
    ghost var all: set<object> := Refs(u);
    btr.tree := u;
    btr.height := h;
  }

  /** bt_insert: one more item, also when there are equal ones. Only a full root makes the tree higher. */
  method Insert(btr: Btree, k: int)
    requires btr.Valid()
    modifies btr`root, btr`tree, btr`height, Refs(btr.tree)
    ensures btr.Valid() && Items(btr.tree) == InsertSorted(old(Items(btr.tree)), k)
    ensures btr.height == old(btr.height) + if |old(btr.tree).keys| == 2 * btr.t - 1 then 1 else 0
    ensures forall o :: o in Refs(btr.tree) ==> o in old(Refs(btr.tree)) || fresh(o)
  {
    hide Shape, Sep, Body, Items, Refs, RefsAll, ShapeAll, SepAll, Local, Tops, NonDecreasing, InsertSorted;
    var r := btr.root;
    ghost var u, h := btr.tree, btr.height;
    Alive(u);
    OpenNode(u, btr.t);
    Form(u, h, btr.t);
    Reads(r, u.keys, u.kids, btr.t);
    if r.n == 2 * btr.t - 1 {
      r, u := Grow(btr, r);
      h := h + 1;
    }
    u := InsertNonFull(r, k, btr.t, u, h);
    Install(btr, u, h);
  }
}
