/** B-trees: what they hold, when they are well formed, and what changing one child, or two neighbours and
    the key between them, does to both. */
module BtModel {
  import opened Seqs

  /** A node, its keys, and its children unless it is a leaf. */
  datatype BTree<R> = Node(ref: R, keys: seq<int>, kids: seq<BTree<R>>)

  /** The items in order: the keys stand between the children. */
  function Items<R>(t: BTree<R>): seq<int>
    decreases t
  {
    if t.kids == [] then t.keys else Weave(t.keys, t.kids)
  }

  function Weave<R>(keys: seq<int>, kids: seq<BTree<R>>): seq<int>
    decreases kids
  {
    if kids == [] then [] else
    Items(kids[0]) + if keys == [] then [] else [keys[0]] + Weave(keys[1..], kids[1..])
  }

  /** Children, each followed by a key. */
  function Lefts<R>(keys: seq<int>, kids: seq<BTree<R>>): seq<int>
    requires |keys| == |kids|
  {
    if kids == [] then [] else Items(kids[0]) + [keys[0]] + Lefts(keys[1..], kids[1..])
  }

  /** Keys, each followed by a child. */
  function Rights<R>(keys: seq<int>, kids: seq<BTree<R>>): seq<int>
    requires |keys| == |kids|
  {
    if kids == [] then [] else [keys[0]] + Items(kids[0]) + Rights(keys[1..], kids[1..])
  }

  /** Of height h; every node but the top one has at least deg - 1 keys, none has more than 2 * deg - 1. */
  ghost predicate Body<R>(t: BTree<R>, h: nat, deg: nat)
    decreases h, 0
  {
    |t.keys| <= 2 * deg - 1 &&
    if h == 0 then t.kids == [] else |t.kids| == |t.keys| + 1 && Fine(t.kids, h - 1, deg)
  }

  ghost predicate Fine<R>(ts: seq<BTree<R>>, h: nat, deg: nat)
    decreases h, 1
  {
    forall i :: 0 <= i < |ts| ==> Body(ts[i], h, deg) && |ts[i].keys| >= deg - 1
  }

  /* ---- where a child stands among the items ---- */

  lemma {:induction false} WeaveAt<R>(keys: seq<int>, kids: seq<BTree<R>>, i: nat)
    requires |kids| == |keys| + 1 && i <= |keys|
    ensures Weave(keys, kids) == Lefts(keys[..i], kids[..i]) + Items(kids[i]) + Rights(keys[i..], kids[i + 1..])
  {
    hide Items, Rights;
    if i == 0 {
      assert keys[0..] == keys;
      WeaveRight(keys, kids);
    } else {
      assert keys[..i][0] == keys[0] && kids[..i][0] == kids[0];
      assert keys[..i][1..] == keys[1..][..i - 1] && kids[..i][1..] == kids[1..][..i - 1];
      assert keys[i..] == keys[1..][i - 1..] && kids[i + 1..] == kids[1..][i..];
      WeaveAt(keys[1..], kids[1..], i - 1);
    }
  }

  lemma {:induction false} WeaveRight<R>(keys: seq<int>, kids: seq<BTree<R>>)
    requires |kids| == |keys| + 1
    ensures Weave(keys, kids) == Items(kids[0]) + Rights(keys, kids[1..])
  {
    if keys != [] {
      WeaveRight(keys[1..], kids[1..]);
      assert [keys[0]] + (Items(kids[1]) + Rights(keys[1..], kids[2..])) == Rights(keys, kids[1..]) by {
        assert kids[1..][1..] == kids[2..];
      }
    } else {
      assert Rights(keys, kids[1..]) == [];
    }
  }

  lemma RightsStep<R>(keys: seq<int>, kids: seq<BTree<R>>)
    requires |keys| == |kids| && kids != []
    ensures Rights(keys, kids) == [keys[0]] + Items(kids[0]) + Rights(keys[1..], kids[1..])
  {
  }

  /** Two neighbours and the key between them. */
  lemma {:induction false} WeaveAtTwo<R>(keys: seq<int>, kids: seq<BTree<R>>, i: nat)
    requires |kids| == |keys| + 1 && i < |keys|
    ensures Weave(keys, kids)
         == Lefts(keys[..i], kids[..i]) + (Items(kids[i]) + [keys[i]] + Items(kids[i + 1])) + Rights(keys[i + 1..], kids[i + 2..])
  {
    hide Lefts, Rights, Weave, Items;
    WeaveAt(keys, kids, i);
    RightsStep(keys[i..], kids[i + 1..]);
    assert keys[i..][1..] == keys[i + 1..] && kids[i + 1..][1..] == kids[i + 2..];
    assert keys[i..][0] == keys[i] && kids[i + 1..][0] == kids[i + 1];
  }

  /** Two runs of children with a key between them. */
  lemma {:induction false} WeaveJoin<R>(ka: seq<int>, ta: seq<BTree<R>>, k: int, kb: seq<int>, tb: seq<BTree<R>>)
    requires |ta| == |ka| + 1 && |tb| == |kb| + 1
    ensures Weave(ka + [k] + kb, ta + tb) == Weave(ka, ta) + [k] + Weave(kb, tb)
  {
    hide Items;
    if ka == [] {
      assert ([] + [k] + kb)[1..] == kb && (ta + tb)[1..] == tb && ([] + [k] + kb)[0] == k && (ta + tb)[0] == ta[0];
      assert ka + [k] + kb == [] + [k] + kb;
    } else {
      assert (ka + [k] + kb)[1..] == ka[1..] + [k] + kb && (ta + tb)[1..] == ta[1..] + tb;
      assert (ka + [k] + kb)[0] == ka[0] && (ta + tb)[0] == ta[0];
      WeaveJoin(ka[1..], ta[1..], k, kb, tb);
    }
  }

  /** What stands on either side of a child. */
  ghost function Before<R>(t: BTree<R>, i: nat): seq<int>
    requires |t.kids| == |t.keys| + 1 && i <= |t.keys|
  {
    Lefts(t.keys[..i], t.kids[..i])
  }

  ghost function Behind<R>(t: BTree<R>, i: nat): seq<int>
    requires |t.kids| == |t.keys| + 1 && i <= |t.keys|
  {
    Rights(t.keys[i..], t.kids[i + 1..])
  }

  /** t with another child at i. */
  function Swap<R>(t: BTree<R>, i: nat, c: BTree<R>): BTree<R>
    requires i < |t.kids|
  {
    t.(kids := t.kids[i := c])
  }

  lemma {:induction false} SwapItems<R>(t: BTree<R>, i: nat, c: BTree<R>)
    requires |t.kids| == |t.keys| + 1 && i <= |t.keys|
    ensures Items(t) == Before(t, i) + Items(t.kids[i]) + Behind(t, i)
    ensures Items(Swap(t, i, c)) == Before(t, i) + Items(c) + Behind(t, i)
  {
    hide Lefts, Rights, Weave;
    var u := Swap(t, i, c);
    WeaveAt(t.keys, t.kids, i);
    WeaveAt(u.keys, u.kids, i);
    assert u.kids[..i] == t.kids[..i] && u.kids[i + 1..] == t.kids[i + 1..];
  }

  /** t with other neighbours at i and i + 1 and another key between them. */
  function SwapTwo<R>(t: BTree<R>, i: nat, y: BTree<R>, k: int, z: BTree<R>): BTree<R>
    requires i < |t.keys| && i + 1 < |t.kids|
  {
    t.(keys := t.keys[i := k], kids := t.kids[i := y][i + 1 := z])
  }

  /** t with the key at i and the children around it replaced by one child. */
  function Fuse<R>(t: BTree<R>, i: nat, y: BTree<R>): BTree<R>
    requires i < |t.keys| && i + 1 < |t.kids|
  {
    t.(keys := DeleteAt(t.keys, i), kids := DeleteAt(t.kids, i + 1)[i := y])
  }

  /** t with the child at i replaced by two and a key between them. */
  function Split<R>(t: BTree<R>, i: nat, y: BTree<R>, k: int, z: BTree<R>): BTree<R>
    requires i <= |t.keys| && i < |t.kids|
  {
    t.(keys := InsertAt(t.keys, i, k), kids := InsertAt(t.kids[i := y], i + 1, z))
  }

  lemma {:induction false} SwapTwoItems<R>(t: BTree<R>, i: nat, y: BTree<R>, k: int, z: BTree<R>)
    requires |t.kids| == |t.keys| + 1 && i < |t.keys|
    requires Items(y) + [k] + Items(z) == Items(t.kids[i]) + [t.keys[i]] + Items(t.kids[i + 1])
    ensures Items(SwapTwo(t, i, y, k, z)) == Items(t)
  {
    hide Lefts, Rights, Weave;
    var u := SwapTwo(t, i, y, k, z);
    WeaveAtTwo(t.keys, t.kids, i);
    WeaveAtTwo(u.keys, u.kids, i);
    assert u.kids[..i] == t.kids[..i] && u.kids[i + 2..] == t.kids[i + 2..];
    assert u.keys[..i] == t.keys[..i] && u.keys[i + 1..] == t.keys[i + 1..];
  }

  lemma {:induction false} FuseItems<R>(t: BTree<R>, i: nat, y: BTree<R>)
    requires |t.kids| == |t.keys| + 1 && i < |t.keys|
    requires Items(y) == Items(t.kids[i]) + [t.keys[i]] + Items(t.kids[i + 1])
    ensures Items(Fuse(t, i, y)) == Items(t)
  {
    hide Lefts, Rights, Weave;
    var u := Fuse(t, i, y);
    WeaveAtTwo(t.keys, t.kids, i);
    WeaveAt(u.keys, u.kids, i);
    assert u.kids[..i] == t.kids[..i] && u.kids[i + 1..] == t.kids[i + 2..];
    assert u.keys[..i] == t.keys[..i] && u.keys[i..] == t.keys[i + 1..];
  }

  lemma {:induction false} SplitItems<R>(t: BTree<R>, i: nat, y: BTree<R>, k: int, z: BTree<R>)
    requires |t.kids| == |t.keys| + 1 && i <= |t.keys|
    requires Items(y) + [k] + Items(z) == Items(t.kids[i])
    ensures Items(Split(t, i, y, k, z)) == Items(t)
  {
    hide Lefts, Rights, Weave;
    var u := Split(t, i, y, k, z);
    WeaveAt(t.keys, t.kids, i);
    WeaveAtTwo(u.keys, u.kids, i);
    assert u.kids[..i] == t.kids[..i] && u.kids[i + 2..] == t.kids[i + 1..];
    assert u.keys[..i] == t.keys[..i] && u.keys[i + 1..] == t.keys[i..];
  }

  /* ---- form ---- */

  lemma {:induction false} BodySwap<R>(t: BTree<R>, h: nat, deg: nat, i: nat, c: BTree<R>)
    requires h > 0 && Body(t, h, deg) && i < |t.kids| && Body(c, h - 1, deg) && |c.keys| >= deg - 1
    ensures Body(Swap(t, i, c), h, deg)
  {
  }

  lemma {:induction false} BodySwapTwo<R>(t: BTree<R>, h: nat, deg: nat, i: nat, y: BTree<R>, k: int, z: BTree<R>)
    requires h > 0 && Body(t, h, deg) && i < |t.keys| && Body(y, h - 1, deg) && Body(z, h - 1, deg)
    requires |y.keys| >= deg - 1 && |z.keys| >= deg - 1
    ensures Body(SwapTwo(t, i, y, k, z), h, deg)
  {
  }

  lemma {:induction false} BodyFuse<R>(t: BTree<R>, h: nat, deg: nat, i: nat, y: BTree<R>)
    requires h > 0 && Body(t, h, deg) && i < |t.keys| && Body(y, h - 1, deg) && |y.keys| >= deg - 1
    ensures Body(Fuse(t, i, y), h, deg)
  {
  }

  lemma {:induction false} BodySplit<R>(t: BTree<R>, h: nat, deg: nat, i: nat, y: BTree<R>, k: int, z: BTree<R>)
    requires h > 0 && Body(t, h, deg) && i < |t.kids| && |t.keys| < 2 * deg - 1 && Body(y, h - 1, deg) && Body(z, h - 1, deg)
    requires |y.keys| >= deg - 1 && |z.keys| >= deg - 1
    ensures Body(Split(t, i, y, k, z), h, deg)
  {
    var kids := Split(t, i, y, k, z).kids;
    assert kids == t.kids[..i] + [y, z] + t.kids[i + 1..];
    assert Fine(t.kids, h - 1, deg);
    assert Fine(kids, h - 1, deg);
  }

  lemma {:induction false} BodyKid<R>(t: BTree<R>, h: nat, deg: nat, i: nat)
    requires Body(t, h, deg) && h > 0 && i <= |t.keys|
    ensures |t.kids| == |t.keys| + 1 && Body(t.kids[i], h - 1, deg) && |t.kids[i].keys| >= deg - 1
    ensures t.kids[i].kids == [] <==> h == 1
  {
    assert Fine(t.kids, h - 1, deg);
  }

  /* ---- neighbours ---- */

  /** The last key and child of y move over to z; the key between them changes. */
  function LessLast<R>(y: BTree<R>): BTree<R>
    requires y.keys != []
  {
    Node(y.ref, y.keys[..|y.keys| - 1], if y.kids == [] then [] else y.kids[..|y.kids| - 1])
  }

  function WithFirst<R>(z: BTree<R>, k: int, y: BTree<R>): BTree<R> {
    Node(z.ref, [k] + z.keys, if z.kids == [] || y.kids == [] then [] else [y.kids[|y.kids| - 1]] + z.kids)
  }

  function LessFirst<R>(z: BTree<R>): BTree<R>
    requires z.keys != []
  {
    Node(z.ref, z.keys[1..], if z.kids == [] then [] else z.kids[1..])
  }

  function WithLast<R>(y: BTree<R>, k: int, z: BTree<R>): BTree<R> {
    Node(y.ref, y.keys + [k], if y.kids == [] || z.kids == [] then [] else y.kids + [z.kids[0]])
  }

  /** All of z and the key between goes to y. */
  function Merged<R>(y: BTree<R>, k: int, z: BTree<R>): BTree<R> {
    Node(y.ref, y.keys + [k] + z.keys, y.kids + z.kids)
  }

  /** The lower and the upper half of a full node. */
  function LowHalf<R>(y: BTree<R>, deg: nat): BTree<R>
    requires |y.keys| == 2 * deg - 1 && (y.kids == [] || |y.kids| == 2 * deg)
  {
    Node(y.ref, y.keys[..deg - 1], if y.kids == [] then [] else y.kids[..deg])
  }

  function HighHalf<R>(r: R, y: BTree<R>, deg: nat): BTree<R>
    requires |y.keys| == 2 * deg - 1 && (y.kids == [] || |y.kids| == 2 * deg)
  {
    Node(r, y.keys[deg..], if y.kids == [] then [] else y.kids[deg..])
  }

  lemma {:induction false} LastItems<R>(keys: seq<int>, kids: seq<BTree<R>>)
    requires |kids| == |keys| + 1 && keys != []
    ensures var n := |keys| - 1; Weave(keys, kids) == Weave(keys[..n], kids[..n + 1]) + [keys[n]] + Items(kids[n + 1])
  {
    var n := |keys| - 1;
    WeaveOne<R>(kids[n + 1]);
    WeaveJoin(keys[..n], kids[..n + 1], keys[n], [], [kids[n + 1]]);
    assert keys[..n] + [keys[n]] + [] == keys && kids[..n + 1] + [kids[n + 1]] == kids;
  }

  lemma WeaveStep<R>(keys: seq<int>, kids: seq<BTree<R>>)
    requires keys != [] && kids != []
    ensures Weave(keys, kids) == Items(kids[0]) + [keys[0]] + Weave(keys[1..], kids[1..])
  {
  }

  lemma WeaveOne<R>(t: BTree<R>)
    ensures Weave([], [t]) == Items(t)
  {
  }

  lemma {:induction false} ShiftRight<R>(y: BTree<R>, k: int, z: BTree<R>, h: nat, deg: nat)
    requires Body(y, h, deg) && Body(z, h, deg) && |y.keys| >= deg >= 1 && deg - 1 <= |z.keys| < 2 * deg - 1
    ensures var y', k', z' := LessLast(y), y.keys[|y.keys| - 1], WithFirst(z, k, y);
      && Body(y', h, deg) && Body(z', h, deg) && |y'.keys| == |y.keys| - 1 && |z'.keys| == |z.keys| + 1
      && Items(y') + [k'] + Items(z') == Items(y) + [k] + Items(z) && forall x :: x in Items(z) ==> x in Items(z')
  {
    hide Weave;
    var y', k', z' := LessLast(y), y.keys[|y.keys| - 1], WithFirst(z, k, y);
    if h > 0 {
      assert Fine(y.kids, h - 1, deg) && Fine(z.kids, h - 1, deg);
      assert Fine(y'.kids, h - 1, deg);
      assert Fine(z'.kids, h - 1, deg);
      var c := y.kids[|y.keys|];
      LastItems(y.keys, y.kids);
      WeaveOne(c);
      WeaveJoin([], [c], k, z.keys, z.kids);
      assert z'.keys == [] + [k] + z.keys;
    }
  }

  lemma {:induction false} ShiftLeft<R>(y: BTree<R>, k: int, z: BTree<R>, h: nat, deg: nat)
    requires Body(y, h, deg) && Body(z, h, deg) && |z.keys| >= deg >= 1 && deg - 1 <= |y.keys| < 2 * deg - 1
    ensures var y', k', z' := WithLast(y, k, z), z.keys[0], LessFirst(z);
      && Body(y', h, deg) && Body(z', h, deg) && |y'.keys| == |y.keys| + 1 && |z'.keys| == |z.keys| - 1
      && Items(y') + [k'] + Items(z') == Items(y) + [k] + Items(z) && forall x :: x in Items(y) ==> x in Items(y')
  {
    hide Weave;
    var y', k', z' := WithLast(y, k, z), z.keys[0], LessFirst(z);
    assert z.keys == [k'] + z'.keys;
    if h > 0 {
      WeaveStep(z.keys, z.kids);
      assert Fine(y.kids, h - 1, deg) && Fine(z.kids, h - 1, deg);
      assert Fine(y'.kids, h - 1, deg);
      assert Fine(z'.kids, h - 1, deg);
      var c := z.kids[0];
      WeaveOne(c);
      WeaveJoin(y.keys, y.kids, k, [], [c]);
      assert y'.keys == y.keys + [k] + [];
    }
  }

  lemma {:induction false} MergeTwo<R>(y: BTree<R>, k: int, z: BTree<R>, h: nat, deg: nat)
    requires Body(y, h, deg) && Body(z, h, deg) && |y.keys| == deg - 1 && |z.keys| == deg - 1 && deg >= 1
    ensures var m := Merged(y, k, z); Body(m, h, deg) && |m.keys| == 2 * deg - 1 && Items(m) == Items(y) + [k] + Items(z)
  {
    if h > 0 {
      assert Fine(y.kids, h - 1, deg) && Fine(z.kids, h - 1, deg);
      assert Fine(y.kids + z.kids, h - 1, deg);
      WeaveJoin(y.keys, y.kids, k, z.keys, z.kids);
    }
  }

  lemma {:induction false} SplitNode<R>(r: R, y: BTree<R>, h: nat, deg: nat)
    requires Body(y, h, deg) && |y.keys| == 2 * deg - 1 && deg >= 1
    ensures y.kids == [] || |y.kids| == 2 * deg
    ensures var a, z := LowHalf(y, deg), HighHalf(r, y, deg);
      && Body(a, h, deg) && Body(z, h, deg) && |a.keys| == deg - 1 && |z.keys| == deg - 1
      && Items(a) + [y.keys[deg - 1]] + Items(z) == Items(y)
  {
    hide Weave;
    var a, z := LowHalf(y, deg), HighHalf(r, y, deg);
    assert a.keys + [y.keys[deg - 1]] + z.keys == y.keys;
    if h > 0 {
      assert Fine(y.kids, h - 1, deg);
      assert Fine(a.kids, h - 1, deg);
      assert Fine(z.kids, h - 1, deg);
      WeaveJoin(a.keys, a.kids, y.keys[deg - 1], z.keys, z.kids);
      assert a.kids + z.kids == y.kids;
    }
  }
}
