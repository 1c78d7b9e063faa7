/** AVL trees: balance factors, seen from a place in the tree, what inserting and deleting do to them,
    and how the number of items bounds the height. The two mirrored halves of each rebalancing are one
    step here, with the direction as a parameter. */
module AvlModel {
  import opened Seqs
  import opened Powers
  import opened SlabModel
  import opened Trees
  import opened TreeCut

  const AVL_MAX_HEIGHT: nat := 32

  type ATree<R> = Tree<R, int>
  type AFrame<R> = Frame<R, int>
  type APath<R> = seq<AFrame<R>>

  /** -1 for the left, +1 for the right. */
  function Sign(d: nat): int {
    if d == 0 then -1 else 1
  }

  function Max(a: nat, b: nat): nat {
    if a > b then a else b
  }

  /** Every stored balance factor is the height of the right subtree minus that of the left, and -1, 0
      or 1. */
  ghost predicate AvlOk<R>(t: ATree<R>) {
    t.Leaf? || (AvlOk(t.left) && AvlOk(t.right) && t.tag == Height(t.right) - Height(t.left) && -1 <= t.tag <= 1)
  }

  /** The path cs wants a subtree of height h in its hole. */
  ghost predicate Wants<R>(cs: APath<R>, h: nat)
    decreases |cs|
  {
    cs == [] ||
    var n := |cs| - 1;
    var f := cs[n];
    && AvlOk(f.sib) && f.dir <= 1 && f.tag == Sign(f.dir) * (h - Height(f.sib)) && -1 <= f.tag <= 1
    && Wants(cs[..n], 1 + Max(h, Height(f.sib)))
  }

  /** The lowest node of a path and the path above it. */
  lemma {:induction false} WantsTop<R>(cs: APath<R>, h: nat)
    requires Wants(cs, h) && cs != []
    ensures var n := |cs| - 1; var f := cs[n];
      && AvlOk(f.sib) && f.dir <= 1 && f.tag == Sign(f.dir) * (h - Height(f.sib)) && -1 <= f.tag <= 1
      && Wants(cs[..n], 1 + Max(h, Height(f.sib)))
  {
  }

  lemma {:induction false} PlugAvl<R>(cs: APath<R>, t: ATree<R>)
    requires Wants(cs, Height(t)) && AvlOk(t)
    ensures AvlOk(Plug(cs, t))
    decreases |cs|
  {
    hide AvlOk, Height, Wants;
    if cs != [] {
      var n := |cs| - 1;
      var f := cs[n];
      WantsTop(cs, Height(t));
      MkFacts(f.ref, f.dir, t, f.key, f.tag, f.sib);
      PlugAvl(cs[..n], Fill(f, t));
    }
  }

  /** The balance of the whole tree, seen from a place in it. */
  lemma {:induction false} UnplugAvl<R>(cs: APath<R>, t: ATree<R>)
    requires AvlOk(Plug(cs, t)) && forall i :: 0 <= i < |cs| ==> cs[i].dir <= 1
    ensures Wants(cs, Height(t)) && AvlOk(t)
    decreases |cs|
  {
    hide AvlOk, Height;
    if cs != [] {
      var n := |cs| - 1;
      var f := cs[n];
      UnplugAvl(cs[..n], Fill(f, t));
      NodeFacts(Fill(f, t), f.dir);
    }
  }

  /** A node over two subtrees whose heights its balance factor names. */
  lemma {:induction false} MkFacts<R>(r: R, d: nat, a: ATree<R>, k: int, c: int, b: ATree<R>)
    requires d <= 1
    ensures AvlOk(a) && AvlOk(b) && -1 <= c <= 1 && c == Sign(d) * (Height(a) - Height(b)) ==> AvlOk(Mk(r, d, a, k, c, b))
    ensures Height(Mk(r, d, a, k, c, b)) == 1 + Max(Height(a), Height(b))
    ensures Items(Mk(r, d, a, k, c, b)) == if d == 0 then Items(a) + [k] + Items(b) else Items(b) + [k] + Items(a)
  {
  }

  lemma {:induction false} NodeFacts<R>(t: ATree<R>, d: nat)
    requires t.Node? && d <= 1 && AvlOk(t)
    ensures AvlOk(Child(t, d)) && AvlOk(Child(t, 1 - d)) && -1 <= t.tag <= 1
    ensures t.tag == Sign(d) * (Height(Child(t, d)) - Height(Child(t, 1 - d)))
    ensures Height(t) == 1 + Max(Height(Child(t, d)), Height(Child(t, 1 - d)))
    ensures Items(t) == if d == 0 then Items(Child(t, d)) + [t.key] + Items(Child(t, 1 - d))
                        else Items(Child(t, 1 - d)) + [t.key] + Items(Child(t, d))
  {
  }

  /* ---- rebalancing ---- */

  /** The child x at link d is two higher than the other subtree b of y and leans the same way: x comes
      up, with the new factors cx and cy. */
  function Single<R>(y: R, k: int, d: nat, x: ATree<R>, b: ATree<R>, cx: int, cy: int): ATree<R>
    requires d <= 1 && x.Node?
  {
    Mk(x.ref, d, Child(x, d), x.key, cx, Mk(y, d, Child(x, 1 - d), k, cy, b))
  }

  /** x leans the other way: its inner child w comes up, over x and y. */
  function Double<R>(y: R, k: int, d: nat, x: ATree<R>, b: ATree<R>): ATree<R>
    requires d <= 1 && x.Node? && Child(x, 1 - d).Node?
  {
    var w := Child(x, 1 - d);
    var cx := if w.tag == -Sign(d) then Sign(d) else 0;
    var cy := if w.tag == Sign(d) then -Sign(d) else 0;
    Mk(w.ref, d, Mk(x.ref, d, Child(x, d), x.key, cx, Child(w, d)), w.key, 0, Mk(y, d, Child(w, 1 - d), k, cy, b))
  }

  /** y over x and b, before it is rebalanced. */
  function Lopsided<R>(y: R, k: int, d: nat, x: ATree<R>, c: int, b: ATree<R>): ATree<R> {
    Mk(y, d, x, k, c, b)
  }

  lemma {:induction false} SingleItems<R>(y: R, k: int, d: nat, x: ATree<R>, c: int, b: ATree<R>, cx: int, cy: int)
    requires d <= 1 && x.Node?
    ensures Items(Single(y, k, d, x, b, cx, cy)) == Items(Lopsided(y, k, d, x, c, b))
  {
    if d == 0 {
      assert Items(x.left) + [x.key] + (Items(x.right) + [k] + Items(b)) == (Items(x.left) + [x.key] + Items(x.right)) + [k] + Items(b);
    } else {
      assert (Items(b) + [k] + Items(x.left)) + [x.key] + Items(x.right) == Items(b) + [k] + (Items(x.left) + [x.key] + Items(x.right));
    }
  }

  lemma {:induction false} SingleStep<R>(y: R, k: int, d: nat, x: ATree<R>, c: int, b: ATree<R>)
    requires d <= 1 && AvlOk(x) && AvlOk(b) && Height(x) == Height(b) + 2 && x.tag != -Sign(d)
    ensures x.Node?
    ensures var even := x.tag == 0;
      var u := Single(y, k, d, x, b, if even then -Sign(d) else 0, if even then Sign(d) else 0);
      AvlOk(u) && Height(u) == Height(b) + (if even then 3 else 2) && Items(u) == Items(Lopsided(y, k, d, x, c, b))
  {
    hide AvlOk, Height, Items, Mk;
    TallNode(x);
    NodeFacts(x, d);
    var even := x.tag == 0;
    var cx, cy := if even then -Sign(d) else 0, if even then Sign(d) else 0;
    MkFacts(y, d, Child(x, 1 - d), k, cy, b);
    MkFacts(x.ref, d, Child(x, d), x.key, cx, Mk(y, d, Child(x, 1 - d), k, cy, b));
    SingleItems(y, k, d, x, c, b, cx, cy);
  }

  lemma {:induction false} DoubleItems<R>(y: R, k: int, d: nat, x: ATree<R>, c: int, b: ATree<R>)
    requires d <= 1 && x.Node? && Child(x, 1 - d).Node?
    ensures Items(Double(y, k, d, x, b)) == Items(Lopsided(y, k, d, x, c, b))
  {
    var w := Child(x, 1 - d);
    if d == 0 {
      var a, p, q, e := Items(x.left), Items(w.left), Items(w.right), Items(b);
      assert Items(x) == a + [x.key] + (p + [w.key] + q);
      assert (a + [x.key] + p) + [w.key] + (q + [k] + e) == (a + [x.key] + (p + [w.key] + q)) + [k] + e;
    } else {
      var a, p, q, e := Items(x.right), Items(w.left), Items(w.right), Items(b);
      assert Items(x) == (p + [w.key] + q) + [x.key] + a;
      assert (e + [k] + p) + [w.key] + (q + [x.key] + a) == e + [k] + ((p + [w.key] + q) + [x.key] + a);
    }
  }

  /** The heights below a child that leans inwards. */
  lemma {:induction false} DoubleHeights<R>(d: nat, x: ATree<R>, h: nat)
    requires d <= 1 && AvlOk(x) && Height(x) == h + 2 && x.tag == -Sign(d)
    ensures x.Node? && Child(x, 1 - d).Node? && Height(Child(x, d)) == h && AvlOk(Child(x, d))
    ensures var w := Child(x, 1 - d);
      && AvlOk(Child(w, d)) && AvlOk(Child(w, 1 - d)) && -1 <= w.tag <= 1
      && Height(Child(w, d)) == (if w.tag == -Sign(d) then h - 1 else h)
      && Height(Child(w, 1 - d)) == (if w.tag == Sign(d) then h - 1 else h)
  {
    hide AvlOk, Height;
    TallNode(x);
    NodeFacts(x, d);
    TallNode(Child(x, 1 - d));
    NodeFacts(Child(x, 1 - d), d);
  }

  lemma {:induction false} DoubleStep<R>(y: R, k: int, d: nat, x: ATree<R>, c: int, b: ATree<R>)
    requires d <= 1 && AvlOk(x) && AvlOk(b) && Height(x) == Height(b) + 2 && x.tag == -Sign(d)
    ensures x.Node? && Child(x, 1 - d).Node?
    ensures var u := Double(y, k, d, x, b);
      AvlOk(u) && Height(u) == Height(b) + 2 && Items(u) == Items(Lopsided(y, k, d, x, c, b))
  {
    hide AvlOk, Height, Items, Mk;
    DoubleHeights(d, x, Height(b));
    var w := Child(x, 1 - d);
    var cx := if w.tag == -Sign(d) then Sign(d) else 0;
    var cy := if w.tag == Sign(d) then -Sign(d) else 0;
    var l, r := Mk(x.ref, d, Child(x, d), x.key, cx, Child(w, d)), Mk(y, d, Child(w, 1 - d), k, cy, b);
    MkFacts(x.ref, d, Child(x, d), x.key, cx, Child(w, d));
    MkFacts(y, d, Child(w, 1 - d), k, cy, b);
    MkFacts(w.ref, d, l, w.key, 0, r);
    DoubleItems(y, k, d, x, c, b);
  }

  lemma TallNode<R>(x: ATree<R>)
    requires Height(x) > 0
    ensures x.Node?
  {
  }

  /* ---- avl_probe ---- */

  /** A node whose subtree at the link the path takes has grown. */
  function Bump<R>(f: AFrame<R>): AFrame<R> {
    f.(tag := f.tag + Sign(f.dir))
  }

  function BumpAll<R>(ws: APath<R>): (r: APath<R>)
    ensures |r| == |ws|
    ensures forall i :: 0 <= i < |ws| ==> r[i] == Bump(ws[i])
  {
    if ws == [] then [] else BumpAll(ws[..|ws| - 1]) + [Bump(ws[|ws| - 1])]
  }

  lemma BumpNone<R>(us: APath<R>, vs: APath<R>)
    ensures us + BumpAll(vs[..0]) + vs[0..] == us + vs && vs[0..] == vs
  {
  }

  /** Updating one more factor moves the border between new and old ones. */
  lemma {:induction false} BumpBorder<R>(us: APath<R>, vs: APath<R>, k: nat)
    requires k < |vs|
    ensures us + BumpAll(vs[..k]) + vs[k..] == us + BumpAll(vs[..k]) + [vs[k]] + vs[k + 1..]
    ensures us + BumpAll(vs[..k]) + [Bump(vs[k])] + vs[k + 1..] == us + BumpAll(vs[..k + 1]) + vs[k + 1..]
    ensures vs[k].ref in Under(us + BumpAll(vs[..k]) + vs[k..])
  {
    assert vs[k..] == [vs[k]] + vs[k + 1..];
    assert vs[..k + 1][..k] == vs[..k];
    UnderSplit(us + BumpAll(vs[..k]) + [vs[k]], vs[k + 1..]);
    UnderPush(us + BumpAll(vs[..k]), vs[k]);
  }

  /** A path in three parts, and the cached directions of the last two. */
  lemma {:induction false} PathInThree<R>(cs: APath<R>, m: nat, da: seq<nat>)
    requires m < |cs| && |cs| - m <= |da| && forall i :: m <= i < |cs| ==> da[i - m] == cs[i].dir
    ensures cs == cs[..m] + [cs[m]] + cs[m + 1..]
    ensures forall i :: 0 <= i < |cs| - m ==> da[i] == ([cs[m]] + cs[m + 1..])[i].dir
  {
    assert cs[m..] == [cs[m]] + cs[m + 1..];
    assert cs == cs[..m] + cs[m..];
    forall i | 0 <= i < |cs| - m ensures da[i] == ([cs[m]] + cs[m + 1..])[i].dir {
      assert da[(m + i) - m] == cs[m + i].dir;
      assert cs[m..][i] == cs[m + i];
    }
  }

  ghost predicate AllEven<R>(ws: APath<R>) {
    forall i :: 0 <= i < |ws| ==> ws[i].tag == 0
  }

  /** Growth passes through every evenly balanced node and leaves it leaning. */
  lemma {:induction false} GrowUp<R>(us: APath<R>, ws: APath<R>, t: ATree<R>, h: nat)
    requires Wants(us + ws, h) && AvlOk(t) && Height(t) == h + 1 && AllEven(ws)
    ensures var low := Plug(BumpAll(ws), t);
      AvlOk(low) && Height(low) == h + |ws| + 1 && Wants(us, h + |ws|)
    decreases |ws|
  {
    hide AvlOk, Height, Wants, Plug;
    BumpPlug(ws, t);
    if ws == [] {
      assert us + ws == us;
    } else {
      var n := |ws| - 1;
      var f := ws[n];
      assert (us + ws)[..|us| + n] == us + ws[..n] && (us + ws)[|us| + n] == f;
      WantsTop(us + ws, h);
      MkFacts(f.ref, f.dir, t, f.key, f.tag + Sign(f.dir), f.sib);
      GrowUp(us, ws[..n], Fill(Bump(f), t), h + 1);
    }
  }

  lemma {:induction false} BumpPlug<R>(ws: APath<R>, t: ATree<R>)
    ensures ws == [] ==> Plug(BumpAll(ws), t) == t
    ensures ws != [] ==> Plug(BumpAll(ws), t) == Plug(BumpAll(ws[..|ws| - 1]), Fill(Bump(ws[|ws| - 1]), t))
  {
    if ws != [] {
      var n := |ws| - 1;
      assert BumpAll(ws)[..n] == BumpAll(ws[..n]) && BumpAll(ws)[n] == Bump(ws[n]);
    }
  }

  /** The subtree that has grown leans, unless it is the new node itself. */
  lemma {:induction false} GrownLeans<R>(ws: APath<R>, t: ATree<R>)
    requires ws != [] && AllEven(ws)
    ensures Plug(BumpAll(ws), t).Node? && Plug(BumpAll(ws), t).tag != 0
    decreases |ws|
  {
    var n := |ws| - 1;
    BumpPlug(ws, t);
    BumpPlug(ws[..n], Fill(Bump(ws[n]), t));
    if n > 0 {
      GrownLeans(ws[..n], Fill(Bump(ws[n]), t));
    }
  }

  lemma WantsNothing<R>(h: nat)
    ensures Wants<R>([], h)
  {
  }

  /** What growth does at the last node that leaned before: it evens out, or the node must be rebalanced;
      at an even root the tree has grown. */
  lemma {:induction false} GrowStop<R>(us: APath<R>, f: AFrame<R>, low: ATree<R>, h: nat)
    requires Wants(us + [f], h) && AvlOk(low) && Height(low) == h + 1
    ensures f.dir <= 1 && AvlOk(f.sib) && -2 <= Bump(f).tag <= 2
    ensures Bump(f).tag == 0 || (f.tag == 0 && us == []) ==> AvlOk(Fill(Bump(f), low)) && Wants(us, Height(Fill(Bump(f), low)))
    ensures Bump(f).tag == 2 * Sign(f.dir) ==> Height(low) == Height(f.sib) + 2 && Wants(us, Height(low))
    ensures f.tag == -Sign(f.dir) <==> Bump(f).tag == 0
  {
    hide AvlOk, Height, Wants;
    assert (us + [f])[..|us|] == us;
    WantsTop(us + [f], h);
    MkFacts(f.ref, f.dir, low, f.key, Bump(f).tag, f.sib);
    if us == [] {
      WantsNothing<R>(Height(Fill(Bump(f), low)));
    }
  }

  /* ---- avl_delete ---- */

  /** The subtree x in the hole is one lower than the path wants. */
  ghost predicate Shrunk<R>(cs: APath<R>, x: ATree<R>) {
    AvlOk(x) && Wants(cs, Height(x) + 1)
  }

  /** An even node above a shrunken subtree comes to lean the other way: done. */
  lemma {:induction false} ShrinkEven<R>(cs: APath<R>, x: ATree<R>)
    requires Shrunk(cs, x) && cs != [] && cs[|cs| - 1].tag == 0
    ensures var n := |cs| - 1; var f := cs[n]; var u := Fill(f.(tag := -Sign(f.dir)), x);
      AvlOk(u) && Wants(cs[..n], Height(u)) && Items(u) == Items(Fill(f, x))
  {
    hide Items, AvlOk, Height, Wants;
    var f := cs[|cs| - 1];
    WantsTop(cs, Height(x) + 1);
    MkFacts(f.ref, f.dir, x, f.key, -Sign(f.dir), f.sib);
    MkFacts(f.ref, f.dir, x, f.key, f.tag, f.sib);
  }

  /** A node that leaned towards it becomes even, and has shrunk itself. */
  lemma {:induction false} ShrinkToward<R>(cs: APath<R>, x: ATree<R>)
    requires Shrunk(cs, x) && cs != [] && cs[|cs| - 1].tag == Sign(cs[|cs| - 1].dir)
    ensures var n := |cs| - 1; var f := cs[n]; var u := Fill(f.(tag := 0), x);
      Shrunk(cs[..n], u) && Items(u) == Items(Fill(f, x))
  {
    hide Items, AvlOk, Height, Wants;
    var f := cs[|cs| - 1];
    WantsTop(cs, Height(x) + 1);
    MkFacts(f.ref, f.dir, x, f.key, 0, f.sib);
    MkFacts(f.ref, f.dir, x, f.key, f.tag, f.sib);
  }

  /** A node that leaned away must be rebalanced. */
  lemma {:induction false} ShrinkAway<R>(cs: APath<R>, x: ATree<R>)
    requires Shrunk(cs, x) && cs != [] && cs[|cs| - 1].tag == -Sign(cs[|cs| - 1].dir)
    ensures var n := |cs| - 1; var f := cs[n];
      && f.dir <= 1 && AvlOk(f.sib) && Height(f.sib) == Height(x) + 2 && f.sib.Node? && Wants(cs[..n], Height(x) + 3)
  {
    WantsTop(cs, Height(x) + 1);
    TallNode(cs[|cs| - 1].sib);
  }

  /** A node with an empty link d is cut out. */
  lemma {:induction false} CutStep<R>(cs: APath<R>, t: ATree<R>, d: nat)
    requires t.Node? && d <= 1 && Child(t, d).Leaf? && Wants(cs, Height(t)) && AvlOk(t)
    ensures Shrunk(cs, Child(t, 1 - d))
  {
    NodeFacts(t, d);
  }

  /** Which node stands on the path does not matter to the balance, only its factor. */
  lemma {:induction false} WantsSwap<R>(us: APath<R>, f: AFrame<R>, g: AFrame<R>, ws: APath<R>, h: nat)
    requires Wants(us + [f] + ws, h) && f.tag == g.tag && f.sib == g.sib && f.dir == g.dir
    ensures Wants(us + [g] + ws, h)
    decreases |ws|
  {
    var n := |us| + |ws|;
    var a, c := us + [f] + ws, us + [g] + ws;
    if ws == [] {
      assert a[..n] == us && c[..n] == us;
    } else {
      var m := |ws| - 1;
      assert a[..n] == us + [f] + ws[..m] && c[..n] == us + [g] + ws[..m];
      assert a[n] == c[n] == ws[m];
      WantsSwap(us, f, g, ws[..m], 1 + Max(h, Height(ws[m].sib)));
    }
  }

  /* ---- whole operations ---- */

  /** Balance factors do not touch the items. */
  lemma {:induction false} BumpItems<R>(us: APath<R>, vs: APath<R>, t: ATree<R>)
    ensures Items(Plug(us + BumpAll(vs), t)) == Items(Plug(us + vs, t))
    decreases |vs|
  {
    hide Plug, Items;
    BumpSides(vs);
    PlugSplit(us, BumpAll(vs), t);
    PlugSplit(us, vs, t);
    PlugItems(BumpAll(vs), t);
    PlugItems(vs, t);
    ItemsSwap(us, Plug(BumpAll(vs), t), Plug(vs, t));
  }

  lemma {:induction false} BumpSides<R>(vs: APath<R>)
    ensures Lefts(BumpAll(vs)) == Lefts(vs) && Rights(BumpAll(vs)) == Rights(vs)
    decreases |vs|
  {
    if vs != [] {
      var n := |vs| - 1;
      BumpSides(vs[..n]);
      assert BumpAll(vs)[..n] == BumpAll(vs[..n]);
    }
  }

  lemma {:induction false} BumpCons<R>(f: AFrame<R>, ws: APath<R>)
    ensures BumpAll([f] + ws) == [Bump(f)] + BumpAll(ws)
  {
  }

  /** What lies below the node to update from once the new leaf is there and the factors are updated: it
      has grown by one; f evens out, or must be rebalanced. */
  lemma {:induction false} GrowthBelow<R>(us: APath<R>, f: AFrame<R>, ws: APath<R>, n: R, item: int) returns (low: ATree<R>)
    requires AvlOk(Plug(us + [f] + ws, Leaf)) && PathSep(us + [f] + ws) && (f.tag == 0 ==> us == []) && AllEven(ws)
    ensures low == Plug(BumpAll(ws), Node(n, Leaf, item, 0, Leaf)) && low.Node? && AvlOk(low) && f.dir <= 1 && AvlOk(f.sib)
    ensures -1 <= f.tag <= 1
    ensures f.tag != Sign(f.dir) ==> AvlOk(Fill(Bump(f), low)) && Wants(us, Height(Fill(Bump(f), low)))
    ensures f.tag == Sign(f.dir) ==> Height(low) == Height(f.sib) + 2 && Wants(us, Height(low)) && low.tag != 0
  {
    hide AvlOk, Height, Wants, Plug, PathSep, BumpAll;
    var cs := us + [f] + ws;
    var leaf := Node(n, Leaf, item, 0, Leaf);
    low := Plug(BumpAll(ws), leaf);
    DirsOk(cs);
    UnplugAvl(cs, Leaf);
    LeafFacts(n, item);
    GrowUp(us + [f], ws, leaf, 0);
    GrowStop(us, f, low, |ws|);
    FactorRange(us, f, |ws|);
    TallNode(low);
    if ws == [] {
      BumpPlug(ws, leaf);
    } else {
      GrownLeans(ws, leaf);
    }
  }

  lemma LeafFacts<R>(n: R, item: int)
    ensures var t: ATree<R> := Node(n, Leaf, item, 0, Leaf); AvlOk(t) && Height(t) == 1 && Items(t) == [item]
    ensures Height<R, int>(Leaf) == 0
  {
  }

  lemma FactorRange<R>(us: APath<R>, f: AFrame<R>, h: nat)
    requires Wants(us + [f], h)
    ensures -1 <= f.tag <= 1 && f.dir <= 1
  {
    assert (us + [f])[..|us|] == us;
  }

  lemma Leaning<R>(t: ATree<R>)
    requires AvlOk(t) && t.Node?
    ensures -1 <= t.tag <= 1
  {
  }

  lemma LopsidedIs<R>(g: AFrame<R>, t: ATree<R>, e: nat)
    requires g.dir <= 1 && e == 1 - g.dir
    ensures Lopsided(g.ref, g.key, e, g.sib, g.tag, t) == Fill(g, t)
  {
  }

  lemma FillItems<R>(f: AFrame<R>, g: AFrame<R>, t: ATree<R>)
    requires g == f.(tag := g.tag)
    ensures Items(Fill(g, t)) == Items(Fill(f, t))
  {
  }

  /** After a rotation the subtree is as high as the path wants, or one lower. */
  lemma TurnShrunk<R>(us: APath<R>, u: ATree<R>, h: nat, even: bool)
    requires AvlOk(u) && Height(u) == h + (if even then 3 else 2) && Wants(us, h + 3)
    ensures even ==> Wants(us, Height(u))
    ensures !even ==> Shrunk(us, u)
  {
  }

  lemma ShrunkOk<R>(cs: APath<R>, t: ATree<R>)
    requires Shrunk(cs, t)
    ensures AvlOk(t)
  {
  }

  lemma LeanRange<R>(cs: APath<R>, t: ATree<R>)
    requires Shrunk(cs, t) && cs != []
    ensures var f := cs[|cs| - 1]; f.dir <= 1 && -1 <= f.tag <= 1
  {
  }

  /** Cutting a node out leaves the gap one lower than the path wants. */
  lemma {:induction false} SplicedShrunk<R>(cs: APath<R>, t: ATree<R>, ds: APath<R>, ws: APath<R>, low: ATree<R>, x: ATree<R>, gone: int)
    requires Spliced(cs, t, ds, ws, low, x, gone) && AvlOk(Plug(cs, t)) && PathSep(cs) && PathSep(ds)
    ensures Shrunk(ds, x)
  {
    hide AvlOk, Height, Wants, Plug, PathSep;
    DirsOk(cs);
    DirsOk(ds);
    if t.right.Leaf? {
      UnplugAvl(cs, t);
      CutStep(cs, t, 1);
    } else {
      var f, g := Frame(t.ref, 1, t.key, t.tag, t.left), Frame(low.ref, 1, low.key, t.tag, t.left);
      PlugSplit(cs + [f], ws, low);
      PlugPush(cs, f, t.right);
      SwapDirs(cs, f, g, ws);
      UnplugAvl(cs + [f] + ws, low);
      CutStep(cs + [f] + ws, low, 0);
      WantsSwap(cs, f, g, ws, Height(x) + 1);
    }
  }

  lemma SwapDirs<R>(cs: APath<R>, f: AFrame<R>, g: AFrame<R>, ws: APath<R>)
    requires f.dir == g.dir && forall i :: 0 <= i < |cs + [g] + ws| ==> (cs + [g] + ws)[i].dir <= 1
    ensures forall i :: 0 <= i < |cs + [f] + ws| ==> (cs + [f] + ws)[i].dir <= 1
  {
    forall i | 0 <= i < |cs + [f] + ws| ensures (cs + [f] + ws)[i].dir <= 1 {
      assert (cs + [g] + ws)[i].dir <= 1;
    }
  }

  /* ---- heights ---- */

  /** The least numbers of items of trees of heights h and h + 1: one less than a Fibonacci number. */
  function MinSizes(h: nat): (nat, nat) {
    if h == 0 then (0, 1) else
    var (a, b) := MinSizes(h - 1);
    (b, a + b + 1)
  }

  lemma {:induction false} MinSizesGrow(a: nat, b: nat)
    requires a <= b
    ensures MinSizes(a).0 <= MinSizes(b).0
    decreases b - a
  {
    if a < b {
      assert MinSizes(a + 1).0 == MinSizes(a).1;
      MinSizesStep(a);
      MinSizesGrow(a + 1, b);
    }
  }

  lemma {:induction false} MinSizesStep(a: nat)
    ensures MinSizes(a).0 <= MinSizes(a).1
  {
    if a > 0 {
      MinSizesStep(a - 1);
    }
  }

  lemma {:induction false} SizeBound<R>(t: ATree<R>)
    requires AvlOk(t)
    ensures Size(t) >= MinSizes(Height(t)).0
  {
    if t.Node? {
      SizeBound(t.left);
      SizeBound(t.right);
      var h := Height(t);
      if h >= 2 {
        assert MinSizes(h).0 == MinSizes(h - 1).1 == MinSizes(h - 2).0 + MinSizes(h - 2).1 + 1;
        assert MinSizes(h - 1).0 == MinSizes(h - 2).1;
        var lo := if Height(t.left) < Height(t.right) then Height(t.left) else Height(t.right);
        MinSizesGrow(h - 2, lo);
      }
    }
  }

  lemma {:induction false} MinSizeValues()
    ensures MinSizes(32).0 == 5702886 && MinSizes(33).0 == 9227464
  {
    FourOn(0);
    FourOn(4);
    FourOn(8);
    FourOn(12);
    FourOn(16);
    FourOn(20);
    FourOn(24);
    FourOn(28);
  }

  lemma {:induction false} FourOn(h: nat)
    ensures var (a, b) := MinSizes(h); MinSizes(h + 4) == (2 * a + 3 * b + 4, 3 * a + 5 * b + 7)
    ensures MinSizes(h + 5).0 == MinSizes(h + 4).1
  {
    var (a, b) := MinSizes(h);
    assert MinSizes(h + 1) == (b, a + b + 1);
    assert MinSizes(h + 2) == (a + b + 1, a + 2 * b + 2);
    assert MinSizes(h + 3) == (a + 2 * b + 2, 2 * a + 3 * b + 4);
  }

  /** A tree of fewer than 9227464 items has height 32 at most, one of fewer than 5702886 height 31. */
  lemma {:induction false} Low<R>(t: ATree<R>)
    requires AvlOk(t)
    ensures Size(t) < 9227464 ==> Height(t) <= 32
    ensures Size(t) < 5702886 ==> Height(t) <= 31
  {
    SizeBound(t);
    MinSizeValues();
    if Height(t) >= 33 {
      MinSizesGrow(33, Height(t));
    }
    if Height(t) >= 32 {
      MinSizesGrow(32, Height(t));
    }
  }

  /* ---- how high a search can lead ---- */

  lemma {:induction false} MinSizesSum(h: nat)
    requires h >= 2
    ensures MinSizes(h).0 == MinSizes(h - 1).0 + MinSizes(h - 2).0 + 1
  {
    assert MinSizes(h).0 == MinSizes(h - 1).1 && MinSizes(h - 1) == (MinSizes(h - 2).1, MinSizes(h - 2).0 + MinSizes(h - 2).1 + 1);
  }

  /** Half the places of a full tree of height h are enough for the sparsest one. */
  lemma {:induction false} MinBelowPow(h: nat)
    ensures MinSizes(h).0 < Pow2(h) && (h > 0 ==> MinSizes(h).0 <= Pow2(h - 1))
  {
    if h == 2 {
      assert MinSizes(1) == (1, 2);
    } else if h > 2 {
      MinSizesSum(h);
      MinBelowPow(h - 1);
      MinBelowPow(h - 2);
      assert Pow2(h - 1) == 2 * Pow2(h - 2) && Pow2(h - 2) == 2 * Pow2(h - 3);
    }
  }

  /** The number of nodes on the left when n nodes make a tree of height h whose left half is as full as
      can be, and the height on the right. */
  function LeftShare(h: nat, n: nat): (nat, nat)
    requires h > 0 && MinSizes(h).0 <= n < Pow2(h)
    ensures var (a, g) := LeftShare(h, n); a < n && MinSizes(h - 1).0 <= a < Pow2(h - 1)
    ensures var (a, g) := LeftShare(h, n); h - 2 <= g < h && MinSizes(g).0 <= n - 1 - a < Pow2(g)
  {
    MinBelowPow(h - 1);
    if h == 1 then (0, 0)
    else
      MinSizesSum(h);
      var least := n - 1 - MinSizes(h - 2).0;
      var a := if least < Pow2(h - 1) then least else Pow2(h - 1) - 1;
      MinBelowPow(h - 2);
      (a, if n - 1 - a < Pow2(h - 2) then h - 2 else h - 1)
  }

  /** A tree of height h with n nodes whose left edge is as long as it is high, with the keys from lo on. */
  function LeftTall(h: nat, n: nat, lo: int): ATree<int>
    requires MinSizes(h).0 <= n < Pow2(h)
  {
    if h == 0 then Leaf
    else
      var (a, g) := LeftShare(h, n);
      Node(lo + a, LeftTall(h - 1, a, lo), lo + a, g - (h - 1), LeftTall(g, n - 1 - a, lo + a + 1))
  }

  lemma LeftTallNode(h: nat, n: nat, lo: int)
    requires h > 0 && MinSizes(h).0 <= n < Pow2(h)
    ensures var (a, g) := LeftShare(h, n);
      LeftTall(h, n, lo) == Node(lo + a, LeftTall(h - 1, a, lo), lo + a, g - (h - 1), LeftTall(g, n - 1 - a, lo + a + 1))
  {
    hide LeftShare, MinSizes, Pow2;
  }

  lemma LeftTallNone(n: nat, lo: int)
    requires MinSizes(0).0 <= n < Pow2(0)
    ensures n == 0 && LeftTall(0, n, lo) == Leaf
  {
  }

  lemma {:induction false} LeftTallBalance(h: nat, n: nat, lo: int)
    requires MinSizes(h).0 <= n < Pow2(h)
    ensures var t := LeftTall(h, n, lo); AvlOk(t) && Height(t) == h && Size(t) == n
  {
    hide LeftTall, LeftShare, MinSizes, Pow2;
    if h > 0 {
      LeftTallNode(h, n, lo);
      var (a, g) := LeftShare(h, n);
      LeftTallBalance(h - 1, a, lo);
      LeftTallBalance(g, n - 1 - a, lo + a + 1);
    } else {
      LeftTallNone(n, lo);
    }
  }

  ghost predicate Counts(s: seq<int>, lo: int) {
    forall i :: 0 <= i < |s| ==> s[i] == lo + i
  }

  lemma {:induction false} CountsJoin(a: seq<int>, b: seq<int>, lo: int)
    requires Counts(a, lo) && Counts(b, lo + |a| + 1)
    ensures Counts(a + [lo + |a|] + b, lo)
  {
  }

  lemma {:induction false} LeftTallItems(h: nat, n: nat, lo: int)
    requires MinSizes(h).0 <= n < Pow2(h)
    ensures Counts(Items(LeftTall(h, n, lo)), lo) && |Items(LeftTall(h, n, lo))| == n
  {
    hide LeftTall, LeftShare, MinSizes, Pow2;
    if h > 0 {
      LeftTallNode(h, n, lo);
      var (a, g) := LeftShare(h, n);
      LeftTallItems(h - 1, a, lo);
      LeftTallItems(g, n - 1 - a, lo + a + 1);
      CountsJoin(Items(LeftTall(h - 1, a, lo)), Items(LeftTall(g, n - 1 - a, lo + a + 1)), lo);
    } else {
      LeftTallNone(n, lo);
    }
  }

  lemma {:induction false} LeftTallRefs(h: nat, n: nat, lo: int)
    requires MinSizes(h).0 <= n < Pow2(h)
    ensures forall r :: r in Refs(LeftTall(h, n, lo)) <==> lo <= r < lo + n
  {
    hide LeftTall, LeftShare, MinSizes, Pow2;
    if h > 0 {
      LeftTallNode(h, n, lo);
      var (a, g) := LeftShare(h, n);
      LeftTallRefs(h - 1, a, lo);
      LeftTallRefs(g, n - 1 - a, lo + a + 1);
    } else {
      LeftTallNone(n, lo);
    }
  }

  lemma NodeSep(t: ATree<int>)
    requires t.Node? && Sep(t.left) && Sep(t.right)
    requires (forall r :: r in Refs(t.left) ==> r < t.ref) && forall r :: r in Refs(t.right) ==> t.ref < r
    ensures Sep(t)
  {
    hide Refs;
    var x: int, l, r := t.ref, Refs(t.left), Refs(t.right);
    assert x !in l && x !in r;
    assert forall y: int :: y in l ==> y !in r;
    assert l !! r;
  }

  /** The keys serve as references: no two nodes are the same. */
  lemma {:induction false} LeftTallSep(h: nat, n: nat, lo: int)
    requires MinSizes(h).0 <= n < Pow2(h)
    ensures Sep(LeftTall(h, n, lo))
  {
    hide LeftTall, LeftShare, MinSizes, Pow2, Refs;
    if h > 0 {
      LeftTallNode(h, n, lo);
      var (a, g) := LeftShare(h, n);
      LeftTallSep(h - 1, a, lo);
      LeftTallSep(g, n - 1 - a, lo + a + 1);
      LeftTallRefs(h - 1, a, lo);
      LeftTallRefs(g, n - 1 - a, lo + a + 1);
      NodeSep(LeftTall(h, n, lo));
    } else {
      LeftTallNone(n, lo);
    }
  }

  /** A search for a key below all others goes down the whole left edge. */
  lemma {:induction false} LeftTallDepth(h: nat, n: nat, lo: int, item: int)
    requires item < lo && MinSizes(h).0 <= n < Pow2(h)
    ensures SearchDepth(LeftTall(h, n, lo), item) == h
  {
    hide LeftTall, LeftShare, MinSizes, Pow2;
    if h > 0 {
      LeftTallNode(h, n, lo);
      var (a, g) := LeftShare(h, n);
      LeftTallDepth(h - 1, a, lo, item);
    } else {
      LeftTallNone(n, lo);
    }
  }

  /** A height above 31 that trees of n items can have. */
  lemma {:induction false} HeightFor(n: nat) returns (h: nat)
    requires n >= 5702886
    ensures h >= AVL_MAX_HEIGHT && MinSizes(h).0 <= n < Pow2(h)
  {
    MinSizeValues();
    if n < Pow2(AVL_MAX_HEIGHT) {
      h := AVL_MAX_HEIGHT;
    } else {
      h := Log2(n) + 1;
      MinBelowPow(h);
      if h < AVL_MAX_HEIGHT {
        Pow2Mono(h, AVL_MAX_HEIGHT);
      }
    }
  }

  /** The stacks of avl_delete have 32 entries, and a search takes one more than it passes nodes. In a
      tree of fewer than 9227464 items that is enough for every key that is there, and in one of fewer
      than 5702886 items for every key. */
  lemma {:induction false} StackSuffices<R>(t: ATree<R>, item: int)
    requires AvlOk(t) && StrictlySorted(Items(t))
    ensures Size(t) < 9227464 && item in Items(t) ==> SearchDepth(t, item) < AVL_MAX_HEIGHT
    ensures Size(t) < 5702886 ==> SearchDepth(t, item) < AVL_MAX_HEIGHT
  {
    Low(t);
    SearchDepthBound(t, item);
  }

  /** From 5702886 items on: a tree and an absent key whose search passes 32 nodes or more. */
  lemma {:induction false} StackTooShort(n: nat) returns (t: ATree<int>, item: int)
    requires n >= 5702886
    ensures AvlOk(t) && Sep(t) && StrictlySorted(Items(t)) && Size(t) == n
    ensures item !in Items(t) && SearchDepth(t, item) >= AVL_MAX_HEIGHT
  {
    hide AvlOk, Sep, Size, Items, LeftTall, Height, Refs, SearchDepth, MinSizes, Pow2;
    var h := HeightFor(n);
    t, item := LeftTall(h, n, 1), 0;
    LeftTallBalance(h, n, 1);
    LeftTallItems(h, n, 1);
    LeftTallSep(h, n, 1);
    LeftTallDepth(h, n, 1, 0);
  }

  /** The stacks are deep enough for every search in every tree of n items exactly below that number. */
  lemma {:induction false} StackBoundExact(n: nat)
    ensures n < 5702886 <==> forall t: ATree<int>, item: int ::
      AvlOk(t) && StrictlySorted(Items(t)) && Size(t) == n ==> SearchDepth(t, item) < AVL_MAX_HEIGHT
  {
    hide AvlOk, Sep, Size, Items, SearchDepth;
    if n < 5702886 {
      forall t: ATree<int>, item: int | AvlOk(t) && StrictlySorted(Items(t)) && Size(t) == n
        ensures SearchDepth(t, item) < AVL_MAX_HEIGHT
      {
        StackSuffices(t, item);
      }
    } else {
      var t, item := StackTooShort(n);
    }
  }
}
