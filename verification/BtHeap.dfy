/** bt_code.c: the nodes in memory, and the moves of keys and children between two neighbours. */
module BtHeap {
  import opened Seqs
  import opened Memory
  import opened BtModel

  /** struct btreenode, with its keys and child pointers. */
  class BtreeNode {
    var leaf: bool
    var n: nat
    const keys: array<int>
    const nodes: array<BtreeNode?>

    /** allocbtreenode. */
    constructor (deg: nat)
      requires deg >= 1
      ensures leaf && n == 0 && keys.Length == 2 * deg - 1 && nodes.Length == 2 * deg && fresh(keys) && fresh(nodes)
    {
      leaf, n := true, 0;
      keys := new int[2 * deg - 1];
      nodes := new BtreeNode?[2 * deg];
    }
  }

  type NTree = BTree<BtreeNode>

  /** A node and its two arrays. */
  ghost function Own(x: BtreeNode): set<object> {
    {x, x.keys, x.nodes}
  }

  ghost function Refs(t: NTree): set<object>
    decreases t
  {
    Own(t.ref) + RefsAll(t.kids)
  }

  ghost function RefsAll(ts: seq<NTree>): set<object>
    decreases ts
  {
    if ts == [] then {} else Refs(ts[0]) + RefsAll(ts[1..])
  }

  /** No object belongs to two nodes. */
  ghost predicate Sep(t: NTree)
    decreases t
  {
    Own(t.ref) !! RefsAll(t.kids) && SepAll(t.kids)
  }

  ghost predicate SepAll(ts: seq<NTree>)
    decreases ts
  {
    ts == [] || (Sep(ts[0]) && SepAll(ts[1..]) && Refs(ts[0]) !! RefsAll(ts[1..]))
  }

  ghost function Tops(ts: seq<NTree>): (r: seq<BtreeNode?>)
    ensures |r| == |ts| && forall i :: 0 <= i < |ts| ==> r[i] == ts[i].ref
  {
    seq(|ts|, i requires 0 <= i < |ts| => ts[i].ref)
  }

  /** The fields of a node are as its place in the tree says. */
  ghost predicate Local(x: BtreeNode, keys: seq<int>, tops: seq<BtreeNode?>, deg: nat)
    reads Own(x)
  {
    && x.keys.Length == 2 * deg - 1 && x.nodes.Length == 2 * deg && x.n == |keys| < 2 * deg && |tops| <= 2 * deg
    && (x.leaf <==> tops == []) && x.keys[..x.n] == keys && x.nodes[..|tops|] == tops
  }

  /** The tree t lies in memory. */
  ghost predicate Shape(t: NTree, deg: nat)
    reads Refs(t)
    decreases t
  {
    Local(t.ref, t.keys, Tops(t.kids), deg) && ShapeAll(t.kids, deg)
  }

  ghost predicate ShapeAll(ts: seq<NTree>, deg: nat)
    reads RefsAll(ts)
    decreases ts
  {
    ts == [] || (Shape(ts[0], deg) && ShapeAll(ts[1..], deg))
  }

  /* ---- runs of children ---- */

  lemma {:induction false} RefsCat(a: seq<NTree>, b: seq<NTree>)
    ensures RefsAll(a + b) == RefsAll(a) + RefsAll(b)
  {
    if a == [] {
      assert a + b == b;
    } else {
      assert (a + b)[1..] == a[1..] + b;
      RefsCat(a[1..], b);
    }
  }

  lemma {:induction false} SepCat(a: seq<NTree>, b: seq<NTree>)
    ensures SepAll(a + b) <==> SepAll(a) && SepAll(b) && RefsAll(a) !! RefsAll(b)
  {
    if a == [] {
      assert a + b == b;
    } else {
      assert (a + b)[1..] == a[1..] + b;
      SepCat(a[1..], b);
      RefsCat(a[1..], b);
    }
  }

  lemma {:induction false} ShapeCat(a: seq<NTree>, b: seq<NTree>, deg: nat)
    ensures ShapeAll(a + b, deg) <==> ShapeAll(a, deg) && ShapeAll(b, deg)
  {
    if a == [] {
      assert a + b == b;
    } else {
      assert (a + b)[1..] == a[1..] + b;
      ShapeCat(a[1..], b, deg);
    }
  }

  lemma One(t: NTree, deg: nat)
    ensures RefsAll([t]) == Refs(t) && (SepAll([t]) <==> Sep(t)) && (ShapeAll([t], deg) <==> Shape(t, deg))
  {
    assert [t][1..] == [];
  }

  lemma Alive(t: NTree)
    ensures allocated(Refs(t))
  {
  }

  lemma AliveAll(ts: seq<NTree>)
    ensures allocated(RefsAll(ts))
  {
  }

  /** A run with one child in the middle. */
  lemma {:induction false} Around(a: seq<NTree>, t: NTree, b: seq<NTree>, deg: nat)
    ensures RefsAll(a + [t] + b) == RefsAll(a) + Refs(t) + RefsAll(b)
    ensures SepAll(a + [t] + b) <==> SepAll(a) && Sep(t) && SepAll(b) && RefsAll(a) !! Refs(t) && RefsAll(a) !! RefsAll(b) && Refs(t) !! RefsAll(b)
    ensures ShapeAll(a + [t] + b, deg) <==> ShapeAll(a, deg) && Shape(t, deg) && ShapeAll(b, deg)
  {
    hide RefsAll, SepAll, ShapeAll, Refs, Sep, Shape;
    One(t, deg);
    RefsCat(a, [t]);
    RefsCat(a + [t], b);
    SepCat(a, [t]);
    SepCat(a + [t], b);
    ShapeCat(a, [t], deg);
    ShapeCat(a + [t], b, deg);
  }

  /** A run with two children in the middle. */
  lemma {:induction false} AroundTwo(a: seq<NTree>, y: NTree, z: NTree, b: seq<NTree>, deg: nat)
    ensures RefsAll(a + [y, z] + b) == RefsAll(a) + Refs(y) + Refs(z) + RefsAll(b)
    ensures SepAll(a + [y, z] + b) <==>
      && SepAll(a) && Sep(y) && Sep(z) && SepAll(b) && Refs(y) !! Refs(z) && RefsAll(a) !! RefsAll(b)
      && RefsAll(a) !! Refs(y) && RefsAll(a) !! Refs(z) && Refs(y) !! RefsAll(b) && Refs(z) !! RefsAll(b)
    ensures ShapeAll(a + [y, z] + b, deg) <==> ShapeAll(a, deg) && Shape(y, deg) && Shape(z, deg) && ShapeAll(b, deg)
  {
    hide RefsAll, SepAll, ShapeAll, Refs, Sep, Shape;
    Around(a, y, [z] + b, deg);
    Around([], z, b, deg);
    Nothing(deg);
    assert a + [y] + ([z] + b) == a + [y, z] + b;
    assert [] + [z] + b == [z] + b;
  }

  lemma Nothing(deg: nat)
    ensures RefsAll([]) == {} && SepAll([]) && ShapeAll([], deg)
  {
  }

  /* ---- one node ---- */

  lemma {:induction false} OpenNode(t: NTree, deg: nat)
    requires Shape(t, deg) && Sep(t)
    ensures Local(t.ref, t.keys, Tops(t.kids), deg) && ShapeAll(t.kids, deg) && SepAll(t.kids)
    ensures Own(t.ref) !! RefsAll(t.kids) && Refs(t) == Own(t.ref) + RefsAll(t.kids)
  {
  }

  lemma {:induction false} CloseNode(x: BtreeNode, keys: seq<int>, kids: seq<NTree>, deg: nat)
    requires Local(x, keys, Tops(kids), deg) && ShapeAll(kids, deg) && SepAll(kids) && Own(x) !! RefsAll(kids)
    ensures Shape(Node(x, keys, kids), deg) && Sep(Node(x, keys, kids)) && Refs(Node(x, keys, kids)) == Own(x) + RefsAll(kids)
  {
  }

  /* ---- neighbours ---- */

  /** Children that are shared out anew between two neighbours, in the same order. */
  lemma {:induction false} Regroup(p: seq<NTree>, q: seq<NTree>, p': seq<NTree>, q': seq<NTree>, deg: nat)
    requires p + q == p' + q' && SepAll(p) && SepAll(q) && RefsAll(p) !! RefsAll(q) && ShapeAll(p, deg) && ShapeAll(q, deg)
    ensures SepAll(p') && SepAll(q') && RefsAll(p') !! RefsAll(q') && ShapeAll(p', deg) && ShapeAll(q', deg)
    ensures RefsAll(p') + RefsAll(q') == RefsAll(p) + RefsAll(q)
  {
    hide RefsAll, SepAll, ShapeAll;
    SepCat(p, q);
    SepCat(p', q');
    RefsCat(p, q);
    RefsCat(p', q');
    ShapeCat(p, q, deg);
    ShapeCat(p', q', deg);
  }

  function AllButLast<T>(s: seq<T>): seq<T> {
    if s == [] then [] else s[..|s| - 1]
  }

  function AllButFirst<T>(s: seq<T>): seq<T> {
    if s == [] then [] else s[1..]
  }

  /** A key and a child more at the front of z. */
  method Prepend(z: BtreeNode, k: int, c: BtreeNode?, ghost zk: seq<int>, ghost zs: seq<BtreeNode?>, ghost deg: nat)
    requires Local(z, zk, zs, deg) && |zk| < 2 * deg - 1 && (zs != [] ==> |zs| == |zk| + 1)
    modifies z`n, z.keys, z.nodes
    ensures Local(z, [k] + zk, if zs == [] then [] else [c] + zs, deg)
  {
    Bcopy(z.keys, 0, z.keys, 1, z.n);
    Bcopy(z.nodes, 0, z.nodes, 1, z.n + 1);
    z.keys[0] := k;
    z.nodes[0] := c;
    z.n := z.n + 1;
  }

  /** The moves of case 3a from the left neighbour y to z; k is the key between them before, up after. */
  method MoveLast(y: BtreeNode, z: BtreeNode, k: int, ghost yk: seq<int>, ghost ys: seq<BtreeNode?>, ghost zk: seq<int>, ghost zs: seq<BtreeNode?>, ghost deg: nat)
    returns (up: int)
    requires Local(y, yk, ys, deg) && Local(z, zk, zs, deg) && Own(y) !! Own(z) && yk != [] && |zk| < 2 * deg - 1
    requires if ys == [] then zs == [] else |ys| == |yk| + 1 && |zs| == |zk| + 1
    modifies y`n, z`n, z.keys, z.nodes
    ensures up == yk[|yk| - 1] && Local(y, AllButLast(yk), AllButLast(ys), deg)
    ensures Local(z, [k] + zk, if zs == [] then [] else [ys[|ys| - 1]] + zs, deg)
  {
    up := y.keys[y.n - 1];
    Prepend(z, k, y.nodes[y.n], zk, zs, deg);
    y.n := y.n - 1;
  }

  /** A key and a child more at the end of y. */
  method Append(y: BtreeNode, k: int, c: BtreeNode?, ghost yk: seq<int>, ghost ys: seq<BtreeNode?>, ghost deg: nat)
    requires Local(y, yk, ys, deg) && |yk| < 2 * deg - 1 && (ys != [] ==> |ys| == |yk| + 1)
    modifies y`n, y.keys, y.nodes
    ensures Local(y, yk + [k], if ys == [] then [] else ys + [c], deg)
  {
    y.keys[y.n] := k;
    y.n := y.n + 1;
    y.nodes[y.n] := c;
  }

  /** The first key and child of z go away. */
  method DropFirst(z: BtreeNode, ghost zk: seq<int>, ghost zs: seq<BtreeNode?>, ghost deg: nat)
    requires Local(z, zk, zs, deg) && zk != [] && (zs != [] ==> |zs| == |zk| + 1)
    modifies z`n, z.keys, z.nodes
    ensures Local(z, AllButFirst(zk), AllButFirst(zs), deg)
  {
    z.n := z.n - 1;
    Bcopy(z.keys, 1, z.keys, 0, z.n);
    Bcopy(z.nodes, 1, z.nodes, 0, z.n + 1);
  }

  /** The moves of case 3a from the right neighbour z to y. */
  method MoveFirst(y: BtreeNode, z: BtreeNode, k: int, ghost yk: seq<int>, ghost ys: seq<BtreeNode?>, ghost zk: seq<int>, ghost zs: seq<BtreeNode?>, ghost deg: nat)
    returns (up: int)
    requires Local(y, yk, ys, deg) && Local(z, zk, zs, deg) && Own(y) !! Own(z) && zk != [] && |yk| < 2 * deg - 1
    requires if ys == [] then zs == [] else |ys| == |yk| + 1 && |zs| == |zk| + 1
    modifies y`n, z`n, y.keys, y.nodes, z.keys, z.nodes
    ensures up == zk[0] && Local(z, AllButFirst(zk), AllButFirst(zs), deg)
    ensures Local(y, yk + [k], if ys == [] then [] else ys + [zs[0]], deg)
  {
    up := z.keys[0];
    Append(y, k, z.nodes[0], yk, ys, deg);
    DropFirst(z, zk, zs, deg);
  }

  /** The moves of cases 2c and 3b: k and all of z go to y. */
  method MoveAll(y: BtreeNode, z: BtreeNode, k: int, ghost yk: seq<int>, ghost ys: seq<BtreeNode?>, ghost zk: seq<int>, ghost zs: seq<BtreeNode?>, ghost deg: nat)
    requires Local(y, yk, ys, deg) && Local(z, zk, zs, deg) && Own(y) !! Own(z) && |yk| == |zk| == deg - 1
    requires if ys == [] then zs == [] else |ys| == |yk| + 1 && |zs| == |zk| + 1
    modifies y`n, y.keys, y.nodes
    ensures Local(y, yk + [k] + zk, ys + zs, deg)
  {
    y.keys[y.n] := k;
    y.n := y.n + 1;
    Bcopy(z.keys, 0, y.keys, y.n, z.n);
    Bcopy(z.nodes, 0, y.nodes, y.n, z.n + 1);
    y.n := y.n + z.n;
  }

  /** The moves of btreesplitchild between the full node y and the new node z. */
  method MoveHalf(y: BtreeNode, z: BtreeNode, deg: nat, ghost yk: seq<int>, ghost ys: seq<BtreeNode?>)
    requires Local(y, yk, ys, deg) && Own(y) !! Own(z) && |yk| == 2 * deg - 1 && (ys == [] || |ys| == 2 * deg)
    requires z.keys.Length == 2 * deg - 1 && z.nodes.Length == 2 * deg && deg >= 1
    modifies y`n, z`n, z`leaf, z.keys, z.nodes
    ensures Local(y, yk[..deg - 1], if ys == [] then [] else ys[..deg], deg)
    ensures Local(z, yk[deg..], if ys == [] then [] else ys[deg..], deg)
  {
    z.leaf := y.leaf;
    z.n := deg - 1;
    var j := 0;
    while j < deg - 1
      modifies z.keys
      invariant 0 <= j <= deg - 1 && z.keys[..j] == yk[deg..deg + j]
    {
      assert y.keys[j + deg] == y.keys[..y.n][j + deg];
      z.keys[j] := y.keys[j + deg];
      j := j + 1;
    }
    if !y.leaf {
      j := 0;
      while j < deg
        modifies z.nodes
        invariant 0 <= j <= deg && z.nodes[..j] == ys[deg..deg + j]
      {
        assert y.nodes[j + deg] == y.nodes[..|ys|][j + deg];
        z.nodes[j] := y.nodes[j + deg];
        j := j + 1;
      }
    }
    y.n := deg - 1;
    assert y.keys[..deg - 1] == y.keys[..2 * deg - 1][..deg - 1];
  }

  lemma OwnIn(t: NTree)
    ensures Own(t.ref) <= Refs(t) && RefsAll(t.kids) <= Refs(t) && t.ref in Refs(t)
  {
  }

  /** Two neighbours that have shared out their children anew. */
  lemma {:induction false} ClosePair(y: NTree, z: NTree, y': NTree, z': NTree, deg: nat)
    requires Local(y.ref, y'.keys, Tops(y'.kids), deg) && Local(z.ref, z'.keys, Tops(z'.kids), deg) && y'.ref == y.ref && z'.ref == z.ref
    requires y.kids + z.kids == y'.kids + z'.kids && ShapeAll(y.kids, deg) && ShapeAll(z.kids, deg)
    requires Sep(y) && Sep(z) && Refs(y) !! Refs(z)
    ensures Shape(y', deg) && Shape(z', deg) && Sep(y') && Sep(z') && Refs(y') !! Refs(z') && Refs(y') + Refs(z') == Refs(y) + Refs(z)
  {
    hide RefsAll, SepAll, ShapeAll;
    Regroup(y.kids, z.kids, y'.kids, z'.kids, deg);
  }

  lemma {:induction false} LastOver(y: NTree, k: int, z: NTree)
    requires y.keys != [] && if y.kids == [] then z.kids == [] else |y.kids| == |y.keys| + 1 && |z.kids| == |z.keys| + 1
    ensures var a, b, ys := LessLast(y), WithFirst(z, k, y), Tops(y.kids);
      && a.ref == y.ref && b.ref == z.ref && a.keys == AllButLast(y.keys) && b.keys == [k] + z.keys && y.kids + z.kids == a.kids + b.kids
      && Tops(a.kids) == AllButLast(ys) && Tops(b.kids) == if Tops(z.kids) == [] then [] else [ys[|ys| - 1]] + Tops(z.kids)
  {
    var a, b := LessLast(y), WithFirst(z, k, y);
    assert y.kids != [] ==> y.kids == a.kids + [y.kids[|y.kids| - 1]];
  }

  lemma {:induction false} FirstOver(y: NTree, k: int, z: NTree)
    requires z.keys != [] && if y.kids == [] then z.kids == [] else |y.kids| == |y.keys| + 1 && |z.kids| == |z.keys| + 1
    ensures var a, b, zs := WithLast(y, k, z), LessFirst(z), Tops(z.kids);
      && a.ref == y.ref && b.ref == z.ref && a.keys == y.keys + [k] && b.keys == AllButFirst(z.keys) && y.kids + z.kids == a.kids + b.kids
      && Tops(b.kids) == AllButFirst(zs) && Tops(a.kids) == if Tops(y.kids) == [] then [] else Tops(y.kids) + [zs[0]]
  {
    var a, b := WithLast(y, k, z), LessFirst(z);
    assert z.kids != [] ==> z.kids == [z.kids[0]] + b.kids;
  }

  /** Case 3a at the two neighbours: from y to z. */
  method TakeLast(y: BtreeNode, z: BtreeNode, k: int, ghost yt: NTree, ghost zt: NTree, ghost deg: nat) returns (up: int)
    requires Shape(yt, deg) && Shape(zt, deg) && Sep(yt) && Sep(zt) && Refs(yt) !! Refs(zt) && yt.ref == y && zt.ref == z
    requires yt.keys != [] && |zt.keys| < 2 * deg - 1
    requires if yt.kids == [] then zt.kids == [] else |yt.kids| == |yt.keys| + 1 && |zt.kids| == |zt.keys| + 1
    modifies Own(y), Own(z)
    ensures up == yt.keys[|yt.keys| - 1]
    ensures var a, b := LessLast(yt), WithFirst(zt, k, yt);
      Shape(a, deg) && Shape(b, deg) && Sep(a) && Sep(b) && Refs(a) !! Refs(b) && Refs(a) + Refs(b) == Refs(yt) + Refs(zt)
  {
    hide RefsAll, SepAll, ShapeAll, Refs, Sep, Shape, Local, LessLast, WithFirst, AllButLast, Tops;
    ghost var a, b := LessLast(yt), WithFirst(zt, k, yt);
    OpenNode(yt, deg);
    OpenNode(zt, deg);
    AliveAll(yt.kids);
    AliveAll(zt.kids);
    LastOver(yt, k, zt);
    up := MoveLast(y, z, k, yt.keys, Tops(yt.kids), zt.keys, Tops(zt.kids), deg);
    ClosePair(yt, zt, a, b, deg);
  }

  /** Case 3a at the two neighbours: from z to y. */
  method TakeFirst(y: BtreeNode, z: BtreeNode, k: int, ghost yt: NTree, ghost zt: NTree, ghost deg: nat) returns (up: int)
    requires Shape(yt, deg) && Shape(zt, deg) && Sep(yt) && Sep(zt) && Refs(yt) !! Refs(zt) && yt.ref == y && zt.ref == z
    requires zt.keys != [] && |yt.keys| < 2 * deg - 1
    requires if yt.kids == [] then zt.kids == [] else |yt.kids| == |yt.keys| + 1 && |zt.kids| == |zt.keys| + 1
    modifies Own(y), Own(z)
    ensures up == zt.keys[0]
    ensures var a, b := WithLast(yt, k, zt), LessFirst(zt);
      Shape(a, deg) && Shape(b, deg) && Sep(a) && Sep(b) && Refs(a) !! Refs(b) && Refs(a) + Refs(b) == Refs(yt) + Refs(zt)
  {
    hide RefsAll, SepAll, ShapeAll, Refs, Sep, Shape, Local, LessFirst, WithLast, AllButFirst, Tops;
    ghost var a, b := WithLast(yt, k, zt), LessFirst(zt);
    OpenNode(yt, deg);
    OpenNode(zt, deg);
    AliveAll(yt.kids);
    AliveAll(zt.kids);
    FirstOver(yt, k, zt);
    up := MoveFirst(y, z, k, yt.keys, Tops(yt.kids), zt.keys, Tops(zt.kids), deg);
    ClosePair(yt, zt, a, b, deg);
  }

  /** Cases 2c and 3b at the two neighbours: y takes in all of z. */
  method TakeAll(y: BtreeNode, z: BtreeNode, k: int, ghost yt: NTree, ghost zt: NTree, ghost deg: nat)
    requires Shape(yt, deg) && Shape(zt, deg) && Sep(yt) && Sep(zt) && Refs(yt) !! Refs(zt) && yt.ref == y && zt.ref == z
    requires |yt.keys| == |zt.keys| == deg - 1
    requires if yt.kids == [] then zt.kids == [] else |yt.kids| == |yt.keys| + 1 && |zt.kids| == |zt.keys| + 1
    modifies Own(y)
    ensures var m := Merged(yt, k, zt); Shape(m, deg) && Sep(m) && Refs(m) == Refs(yt) + Refs(zt) - Own(z)
  {
    hide RefsAll, SepAll, ShapeAll, Refs, Sep, Shape, Local;
    OpenNode(yt, deg);
    OpenNode(zt, deg);
    AliveAll(yt.kids);
    AliveAll(zt.kids);
    MoveAll(y, z, k, yt.keys, Tops(yt.kids), zt.keys, Tops(zt.kids), deg);
    assert Tops(yt.kids + zt.kids) == Tops(yt.kids) + Tops(zt.kids);
    RefsCat(yt.kids, zt.kids);
    SepCat(yt.kids, zt.kids);
    ShapeCat(yt.kids, zt.kids, deg);
    CloseNode(y, yt.keys + [k] + zt.keys, yt.kids + zt.kids, deg);
  }

  /** btreesplitchild at the full node: the upper half goes to the new node z. */
  method GiveHalf(y: BtreeNode, deg: nat, ghost yt: NTree) returns (z: BtreeNode)
    requires Shape(yt, deg) && Sep(yt) && yt.ref == y && |yt.keys| == 2 * deg - 1 && (yt.kids == [] || |yt.kids| == 2 * deg) && deg >= 1
    modifies y`n
    ensures fresh(Own(z))
    ensures var a, b := LowHalf(yt, deg), HighHalf(z, yt, deg);
      Shape(a, deg) && Shape(b, deg) && Sep(a) && Sep(b) && Refs(a) !! Refs(b) && Refs(a) + Refs(b) == Refs(yt) + Own(z)
  {
    hide RefsAll, SepAll, ShapeAll, Refs, Sep, Shape, Local;
    OpenNode(yt, deg);
    AliveAll(yt.kids);
    ghost var below: set<object> := RefsAll(yt.kids);
    z := new BtreeNode(deg);
    assert Own(z) !! below && Own(z) !! Own(y);
    MoveHalf(y, z, deg, yt.keys, Tops(yt.kids));
    ghost var a, b := LowHalf(yt, deg), HighHalf(z, yt, deg);
    assert a.kids + b.kids == yt.kids;
    assert Tops(a.kids) == if yt.kids == [] then [] else Tops(yt.kids)[..deg];
    assert Tops(b.kids) == if yt.kids == [] then [] else Tops(yt.kids)[deg..];
    RefsCat(a.kids, b.kids);
    SepCat(a.kids, b.kids);
    ShapeCat(a.kids, b.kids, deg);
    CloseNode(y, a.keys, a.kids, deg);
    CloseNode(z, b.keys, b.kids, deg);
  }
}
