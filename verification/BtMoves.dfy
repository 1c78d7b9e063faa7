/** bt_code.c: what happens at a node when two of its children exchange keys, merge or split, or when one
    of them changes by itself. */
module BtMoves {
  import opened Seqs
  import opened Memory
  import opened BtModel
  import opened BtHeap

  /** A tree apart: its top node, and one child among the others. */
  lemma {:induction false} OpenKid(t: NTree, i: nat, deg: nat) returns (a: seq<NTree>, c: NTree, b: seq<NTree>)
    requires Shape(t, deg) && Sep(t) && i < |t.kids|
    ensures a == t.kids[..i] && c == t.kids[i] && b == t.kids[i + 1..] && t.kids == a + [c] + b
    ensures Local(t.ref, t.keys, Tops(t.kids), deg) && ShapeAll(a, deg) && Shape(c, deg) && ShapeAll(b, deg)
    ensures SepAll(a) && Sep(c) && SepAll(b) && RefsAll(a) !! Refs(c) && RefsAll(a) !! RefsAll(b) && Refs(c) !! RefsAll(b)
    ensures Own(t.ref) !! RefsAll(a) && Own(t.ref) !! Refs(c) && Own(t.ref) !! RefsAll(b) && Own(c.ref) <= Refs(c)
    ensures Refs(t) == Own(t.ref) + RefsAll(a) + Refs(c) + RefsAll(b)
  {
    hide RefsAll, SepAll, ShapeAll, Refs, Sep, Shape;
    OpenNode(t, deg);
    a, c, b := t.kids[..i], t.kids[i], t.kids[i + 1..];
    assert t.kids == a + [c] + b;
    Around(a, c, b, deg);
    OwnIn(c);
  }

  lemma {:induction false} OpenTwo(t: NTree, i: nat, deg: nat) returns (a: seq<NTree>, y: NTree, z: NTree, b: seq<NTree>)
    requires Shape(t, deg) && Sep(t) && i + 1 < |t.kids|
    ensures a == t.kids[..i] && y == t.kids[i] && z == t.kids[i + 1] && b == t.kids[i + 2..] && t.kids == a + [y, z] + b
    ensures Local(t.ref, t.keys, Tops(t.kids), deg) && ShapeAll(a, deg) && Shape(y, deg) && Shape(z, deg) && ShapeAll(b, deg)
    ensures SepAll(a) && Sep(y) && Sep(z) && SepAll(b) && Refs(y) !! Refs(z) && RefsAll(a) !! RefsAll(b)
    ensures RefsAll(a) !! Refs(y) && RefsAll(a) !! Refs(z) && Refs(y) !! RefsAll(b) && Refs(z) !! RefsAll(b)
    ensures Own(t.ref) !! RefsAll(a) && Own(t.ref) !! Refs(y) && Own(t.ref) !! Refs(z) && Own(t.ref) !! RefsAll(b)
    ensures Own(y.ref) <= Refs(y) && Own(z.ref) <= Refs(z)
    ensures Refs(t) == Own(t.ref) + RefsAll(a) + Refs(y) + Refs(z) + RefsAll(b)
  {
    hide RefsAll, SepAll, ShapeAll, Refs, Sep, Shape;
    OpenNode(t, deg);
    a, y, z, b := t.kids[..i], t.kids[i], t.kids[i + 1], t.kids[i + 2..];
    assert t.kids == a + [y, z] + b;
    AroundTwo(a, y, z, b, deg);
    OwnIn(y);
    OwnIn(z);
  }

  /** A top node over a run of children with one in the middle. */
  lemma {:induction false} CloseKid(x: BtreeNode, keys: seq<int>, a: seq<NTree>, c: NTree, b: seq<NTree>, deg: nat)
    requires Local(x, keys, Tops(a + [c] + b), deg) && ShapeAll(a, deg) && Shape(c, deg) && ShapeAll(b, deg)
    requires SepAll(a) && Sep(c) && SepAll(b) && RefsAll(a) !! Refs(c) && RefsAll(a) !! RefsAll(b) && Refs(c) !! RefsAll(b)
    requires Own(x) !! RefsAll(a) && Own(x) !! Refs(c) && Own(x) !! RefsAll(b)
    ensures var t := Node(x, keys, a + [c] + b); Shape(t, deg) && Sep(t) && Refs(t) == Own(x) + RefsAll(a) + Refs(c) + RefsAll(b)
  {
    hide RefsAll, SepAll, ShapeAll, Refs, Sep, Shape;
    Around(a, c, b, deg);
    CloseNode(x, keys, a + [c] + b, deg);
  }

  lemma {:induction false} CloseTwo(x: BtreeNode, keys: seq<int>, a: seq<NTree>, y: NTree, z: NTree, b: seq<NTree>, deg: nat)
    requires Local(x, keys, Tops(a + [y, z] + b), deg) && ShapeAll(a, deg) && Shape(y, deg) && Shape(z, deg) && ShapeAll(b, deg)
    requires SepAll(a) && Sep(y) && Sep(z) && SepAll(b) && Refs(y) !! Refs(z) && RefsAll(a) !! RefsAll(b)
    requires RefsAll(a) !! (Refs(y) + Refs(z)) && (Refs(y) + Refs(z)) !! RefsAll(b)
    requires Own(x) !! RefsAll(a) && Own(x) !! (Refs(y) + Refs(z)) && Own(x) !! RefsAll(b)
    ensures var t := Node(x, keys, a + [y, z] + b); Shape(t, deg) && Sep(t) && Refs(t) == Own(x) + RefsAll(a) + Refs(y) + Refs(z) + RefsAll(b)
  {
    hide RefsAll, SepAll, ShapeAll, Refs, Sep, Shape;
    AroundTwo(a, y, z, b, deg);
    CloseNode(x, keys, a + [y, z] + b, deg);
  }

  /** The same kids, to the fields of the node. */
  lemma SameTops(t: NTree, i: nat, y: NTree, z: NTree)
    requires i + 1 < |t.kids| && y.ref == t.kids[i].ref && z.ref == t.kids[i + 1].ref
    ensures t.kids[i := y][i + 1 := z] == t.kids[..i] + [y, z] + t.kids[i + 2..]
    ensures Tops(t.kids[i := y][i + 1 := z]) == Tops(t.kids)
  {
  }

  lemma SameTop(t: NTree, i: nat, c: NTree)
    requires i < |t.kids| && c.ref == t.kids[i].ref
    ensures t.kids[i := c] == t.kids[..i] + [c] + t.kids[i + 1..]
    ensures Tops(t.kids[i := c]) == Tops(t.kids)
  {
  }

  /** KEYS(btr, x)[i] = k. */
  method SetKey(x: BtreeNode, i: nat, k: int, ghost keys: seq<int>, ghost tops: seq<BtreeNode?>, ghost deg: nat)
    requires Local(x, keys, tops, deg) && i < |keys|
    modifies x.keys
    ensures Local(x, keys[i := k], tops, deg)
  {
    x.keys[i] := k;
  }

  /** A node reads its key and its children out of its arrays. */
  lemma Reads(x: BtreeNode, keys: seq<int>, kids: seq<NTree>, deg: nat)
    requires Local(x, keys, Tops(kids), deg)
    ensures x.n == |keys| < 2 * deg && |kids| <= 2 * deg && (x.leaf <==> kids == []) && x.keys.Length == 2 * deg - 1 && x.nodes.Length == 2 * deg
    ensures forall i :: 0 <= i < |keys| ==> x.keys[i] == keys[i]
    ensures forall i :: 0 <= i < |kids| ==> x.nodes[i] == kids[i].ref
  {
    assert forall i :: 0 <= i < |keys| ==> x.keys[i] == x.keys[..x.n][i];
    assert forall i :: 0 <= i < |kids| ==> x.nodes[i] == x.nodes[..|kids|][i];
  }

  /** Whether two neighbours can exchange keys: both leaves, or both with a child more than keys. */
  ghost predicate Alike(y: NTree, z: NTree) {
    if y.kids == [] then z.kids == [] else |y.kids| == |y.keys| + 1 && |z.kids| == |z.keys| + 1
  }

  /** Case 3a with the left neighbour: the child at i + 1 gains a key. */
  method BorrowLeft(x: BtreeNode, i: nat, y: BtreeNode, z: BtreeNode, ghost t: NTree, ghost deg: nat) returns (ghost u: NTree)
    requires Shape(t, deg) && Sep(t) && t.ref == x && i < |t.keys| && |t.kids| == |t.keys| + 1
    requires y == t.kids[i].ref && z == t.kids[i + 1].ref && Alike(t.kids[i], t.kids[i + 1])
    requires t.kids[i].keys != [] && |t.kids[i + 1].keys| < 2 * deg - 1
    modifies Refs(t)
    ensures var l, r := t.kids[i], t.kids[i + 1];
      u == SwapTwo(t, i, LessLast(l), l.keys[|l.keys| - 1], WithFirst(r, t.keys[i], l))
    ensures Shape(u, deg) && Sep(u) && Refs(u) == Refs(t)
  {
    hide RefsAll, SepAll, ShapeAll, Refs, Sep, Shape, Local, LessLast, WithFirst, Tops;
    ghost var a, l, r, b := OpenTwo(t, i, deg);
    Reads(x, t.keys, t.kids, deg);
    AliveAll(a);
    AliveAll(b);
    ghost var l', r' := LessLast(l), WithFirst(r, t.keys[i], l);
    LastOver(l, t.keys[i], r);
    SameTops(t, i, l', r');
    var up := TakeLast(y, z, x.keys[i], l, r, deg);
    Alive(l');
    Alive(r');
    ghost var below: set<object> := RefsAll(a) + RefsAll(b) + Refs(l') + Refs(r');
    SetKey(x, i, up, t.keys, Tops(t.kids), deg);
    u := SwapTwo(t, i, l', up, r');
    CloseTwo(x, u.keys, a, l', r', b, deg);
  }

  /** Case 3a with the right neighbour: the child at i gains a key. */
  method BorrowRight(x: BtreeNode, i: nat, y: BtreeNode, z: BtreeNode, ghost t: NTree, ghost deg: nat) returns (ghost u: NTree)
    requires Shape(t, deg) && Sep(t) && t.ref == x && i < |t.keys| && |t.kids| == |t.keys| + 1
    requires y == t.kids[i].ref && z == t.kids[i + 1].ref && Alike(t.kids[i], t.kids[i + 1])
    requires t.kids[i + 1].keys != [] && |t.kids[i].keys| < 2 * deg - 1
    modifies Refs(t)
    ensures var l, r := t.kids[i], t.kids[i + 1];
      u == SwapTwo(t, i, WithLast(l, t.keys[i], r), r.keys[0], LessFirst(r))
    ensures Shape(u, deg) && Sep(u) && Refs(u) == Refs(t)
  {
    hide RefsAll, SepAll, ShapeAll, Refs, Sep, Shape, Local, LessFirst, WithLast, Tops;
    ghost var a, l, r, b := OpenTwo(t, i, deg);
    Reads(x, t.keys, t.kids, deg);
    AliveAll(a);
    AliveAll(b);
    ghost var l', r' := WithLast(l, t.keys[i], r), LessFirst(r);
    FirstOver(l, t.keys[i], r);
    SameTops(t, i, l', r');
    var up := TakeFirst(y, z, x.keys[i], l, r, deg);
    Alive(l');
    Alive(r');
    ghost var below: set<object> := RefsAll(a) + RefsAll(b) + Refs(l') + Refs(r');
    SetKey(x, i, up, t.keys, Tops(t.kids), deg);
    u := SwapTwo(t, i, l', up, r');
    CloseTwo(x, u.keys, a, l', r', b, deg);
  }

  /** The key at i and the child behind it leave the node. */
  method DropPair(x: BtreeNode, i: nat, ghost keys: seq<int>, ghost tops: seq<BtreeNode?>, ghost deg: nat)
    requires Local(x, keys, tops, deg) && i < |keys| && |tops| == |keys| + 1
    modifies x`n, x.keys, x.nodes
    ensures Local(x, DeleteAt(keys, i), DeleteAt(tops, i + 1), deg)
  {
    Bcopy(x.keys, i + 1, x.keys, i, x.n - i - 1);
    Bcopy(x.nodes, i + 2, x.nodes, i + 1, x.n - i - 1);
    x.n := x.n - 1;
  }

  lemma {:induction false} FusedKids(t: NTree, i: nat, m: NTree)
    requires i + 1 < |t.kids| && m.ref == t.kids[i].ref
    ensures DeleteAt(t.kids, i + 1)[i := m] == t.kids[..i] + [m] + t.kids[i + 2..]
    ensures Tops(DeleteAt(t.kids, i + 1)[i := m]) == DeleteAt(Tops(t.kids), i + 1)
  {
  }

  /** Cases 2c and 3b: the child y at i takes in the key at i and the child z behind it. */
  method Merge(x: BtreeNode, i: nat, y: BtreeNode, z: BtreeNode, ghost t: NTree, ghost deg: nat) returns (ghost u: NTree)
    requires Shape(t, deg) && Sep(t) && t.ref == x && i < |t.keys| && |t.kids| == |t.keys| + 1
    requires y == t.kids[i].ref && z == t.kids[i + 1].ref && Alike(t.kids[i], t.kids[i + 1])
    requires |t.kids[i].keys| == |t.kids[i + 1].keys| == deg - 1
    modifies Refs(t)
    ensures u == Fuse(t, i, Merged(t.kids[i], t.keys[i], t.kids[i + 1])) && Shape(u, deg) && Sep(u) && Refs(u) <= Refs(t)
  {
    hide RefsAll, SepAll, ShapeAll, Refs, Sep, Shape, Local, Tops;
    ghost var a, l, r, b := OpenTwo(t, i, deg);
    Reads(x, t.keys, t.kids, deg);
    AliveAll(a);
    AliveAll(b);
    ghost var m := Merged(l, t.keys[i], r);
    FusedKids(t, i, m);
    TakeAll(y, z, x.keys[i], l, r, deg);
    Alive(m);
    ghost var below: set<object> := RefsAll(a) + RefsAll(b) + Refs(m);
    DropPair(x, i, t.keys, Tops(t.kids), deg);
    u := Fuse(t, i, m);
    CloseKid(x, u.keys, a, m, b, deg);
  }

  /** A key at i and a child behind it join the node. */
  method AddPair(x: BtreeNode, i: nat, k: int, z: BtreeNode, ghost keys: seq<int>, ghost tops: seq<BtreeNode?>, ghost deg: nat)
    requires Local(x, keys, tops, deg) && i <= |keys| < 2 * deg - 1 && |tops| == |keys| + 1
    modifies x`n, x.keys, x.nodes
    ensures Local(x, InsertAt(keys, i, k), InsertAt(tops, i + 1, z), deg)
  {
    Bcopy(x.nodes, i + 1, x.nodes, i + 2, x.n - i);
    x.nodes[i + 1] := z;
    Bcopy(x.keys, i, x.keys, i + 1, x.n - i);
    x.keys[i] := k;
    x.n := x.n + 1;
  }

  lemma {:induction false} SplitKids(t: NTree, i: nat, y: NTree, z: NTree)
    requires i < |t.kids| && y.ref == t.kids[i].ref
    ensures InsertAt(t.kids[i := y], i + 1, z) == t.kids[..i] + [y, z] + t.kids[i + 1..]
    ensures Tops(InsertAt(t.kids[i := y], i + 1, z)) == InsertAt(Tops(t.kids), i + 1, z.ref)
  {
  }

  /** btreesplitchild. */
  method SplitChild(x: BtreeNode, i: nat, y: BtreeNode, deg: nat, ghost t: NTree) returns (ghost u: NTree, ghost z: BtreeNode)
    requires Shape(t, deg) && Sep(t) && t.ref == x && i <= |t.keys| < 2 * deg - 1 && |t.kids| == |t.keys| + 1 && y == t.kids[i].ref && deg >= 1
    requires |t.kids[i].keys| == 2 * deg - 1 && (t.kids[i].kids == [] || |t.kids[i].kids| == 2 * deg)
    modifies Refs(t)
    ensures var c := t.kids[i]; u == Split(t, i, LowHalf(c, deg), c.keys[deg - 1], HighHalf(z, c, deg))
    ensures fresh(Own(z)) && Shape(u, deg) && Sep(u) && Refs(u) == Refs(t) + Own(z)
  {
    hide RefsAll, SepAll, ShapeAll, Refs, Sep, Shape, Local, Tops;
    ghost var a, c, b := OpenKid(t, i, deg);
    Alive(t);
    AliveAll(a);
    AliveAll(b);
    ghost var all: set<object> := Refs(t);
    OpenNode(c, deg);
    Reads(y, c.keys, c.kids, deg);
    var w := GiveHalf(y, deg, c);
    z := w;
    assert Own(z) !! all;
    ghost var l, r := LowHalf(c, deg), HighHalf(z, c, deg);
    SplitKids(t, i, l, r);
    Alive(l);
    Alive(r);
    ghost var below: set<object> := RefsAll(a) + RefsAll(b) + Refs(l) + Refs(r);
    AddPair(x, i, y.keys[deg - 1], w, t.keys, Tops(t.kids), deg);
    u := Split(t, i, l, c.keys[deg - 1], r);
    CloseTwo(x, u.keys, a, l, r, b, deg);
  }
}
