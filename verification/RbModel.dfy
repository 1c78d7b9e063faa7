/** Red-black trees: the colour rules, seen from a hole in the tree, and what each repair step of
    rb_probe and rb_delete does to them. The two mirrored halves of each repair are one step here,
    with the direction as a parameter. */
module RbModel {
  import opened Seqs
  import opened SlabModel
  import opened Powers
  import opened Trees

  datatype Color = Black | Red

  const RB_MAX_HEIGHT: nat := 48

  type RTree<R> = Tree<R, Color>
  type RPath<R> = seq<Frame<R, Color>>

  predicate IsRed<R>(t: RTree<R>) {
    t.Node? && t.tag == Red
  }

  function Weight(c: Color): nat {
    if c == Black then 1 else 0
  }

  /** Black height, measured down the left edge. */
  function Bh<R>(t: RTree<R>): nat {
    if t.Leaf? then 0 else Bh(t.left) + Weight(t.tag)
  }

  ghost predicate Balanced<R>(t: RTree<R>) {
    t.Leaf? || (Balanced(t.left) && Balanced(t.right) && Bh(t.left) == Bh(t.right))
  }

  ghost predicate NoRed2<R>(t: RTree<R>) {
    t.Leaf? || (NoRed2(t.left) && NoRed2(t.right) && (t.tag == Red ==> !IsRed(t.left) && !IsRed(t.right)))
  }

  ghost predicate RbOk<R>(t: RTree<R>) {
    Balanced(t) && NoRed2(t)
  }

  function Blacken<R>(t: RTree<R>): RTree<R> {
    if t.Leaf? then t else t.(tag := Black)
  }

  /** The path cs wants a subtree of black height b in its hole, and keeps the rules above it. */
  ghost predicate Wants<R>(cs: RPath<R>, b: nat)
    decreases |cs|
  {
    cs == [] ||
    var n := |cs| - 1;
    var f := cs[n];
    && RbOk(f.sib) && Bh(f.sib) == b
    && (f.tag == Red ==> !IsRed(f.sib) && n > 0 && cs[n - 1].tag == Black)
    && Wants(cs[..n], b + Weight(f.tag))
  }

  /** A red subtree may not hang below a red node or at the root. */
  ghost predicate MayHold<R>(cs: RPath<R>, t: RTree<R>) {
    IsRed(t) ==> cs != [] && cs[|cs| - 1].tag == Black
  }

  /** A fitting subtree in the hole makes a red-black tree with a black root. */
  lemma {:induction false} PlugRb<R>(cs: RPath<R>, t: RTree<R>)
    requires Wants(cs, Bh(t)) && RbOk(t) && MayHold(cs, t)
    ensures RbOk(Plug(cs, t)) && !IsRed(Plug(cs, t))
    decreases |cs|
  {
    if cs != [] {
      var n := |cs| - 1;
      PlugRb(cs[..n], Fill(cs[n], t));
    }
  }

  /** The rules of the whole tree, seen from a place in it. */
  lemma {:induction false} UnplugRb<R>(cs: RPath<R>, t: RTree<R>)
    requires RbOk(Plug(cs, t)) && !IsRed(Plug(cs, t))
    ensures Wants(cs, Bh(t)) && RbOk(t) && MayHold(cs, t)
    decreases |cs|
  {
    if cs != [] {
      var n := |cs| - 1;
      UnplugRb(cs[..n], Fill(cs[n], t));
    }
  }

  /** What the lowest node of a path says about its own subtree and the path above. */
  lemma {:induction false} WantsTop<R>(cs: RPath<R>, b: nat)
    requires Wants(cs, b) && cs != []
    ensures var n := |cs| - 1; var f := cs[n];
      && RbOk(f.sib) && Bh(f.sib) == b && (f.tag == Red ==> !IsRed(f.sib) && n > 0 && cs[n - 1].tag == Black)
      && Wants(cs[..n], b + Weight(f.tag))
  {
  }

  lemma {:induction false} WantsPush<R>(cs: RPath<R>, f: Frame<R, Color>, b: nat)
    requires RbOk(f.sib) && Bh(f.sib) == b && Wants(cs, b + Weight(f.tag))
    requires f.tag == Red ==> !IsRed(f.sib) && cs != [] && cs[|cs| - 1].tag == Black
    ensures Wants(cs + [f], b)
  {
    assert (cs + [f])[..|cs|] == cs;
  }

  /** A node over two fitting subtrees. */
  lemma {:induction false} MkFacts<R>(r: R, d: nat, a: RTree<R>, k: int, c: Color, b: RTree<R>)
    ensures RbOk(a) && RbOk(b) && Bh(a) == Bh(b) && (c == Red ==> !IsRed(a) && !IsRed(b)) ==> RbOk(Mk(r, d, a, k, c, b))
    ensures Balanced(a) && Balanced(b) && Bh(a) == Bh(b) ==> Balanced(Mk(r, d, a, k, c, b))
    ensures NoRed2(a) && NoRed2(b) ==> NoRed2(Blacken(Mk(r, d, a, k, c, b)))
    ensures Bh(a) == Bh(b) ==> Bh(Mk(r, d, a, k, c, b)) == Bh(a) + Weight(c)
    ensures Items(Mk(r, d, a, k, c, b)) == if d == 0 then Items(a) + [k] + Items(b) else Items(b) + [k] + Items(a)
    ensures IsRed(Mk(r, d, a, k, c, b)) <==> c == Red
  {
  }

  /** The subtrees of a node that keeps the rules. */
  lemma {:induction false} NodeFacts<R>(t: RTree<R>, d: nat)
    requires t.Node? && d <= 1 && RbOk(t)
    ensures RbOk(Child(t, d)) && RbOk(Child(t, 1 - d)) && Bh(Child(t, d)) == Bh(Child(t, 1 - d))
    ensures Bh(t) == Bh(Child(t, d)) + Weight(t.tag)
    ensures IsRed(t) ==> !IsRed(Child(t, d)) && !IsRed(Child(t, 1 - d))
    ensures Items(t) == if d == 0 then Items(Child(t, d)) + [t.key] + Items(Child(t, 1 - d))
                        else Items(Child(t, 1 - d)) + [t.key] + Items(Child(t, d))
  {
  }

  lemma {:induction false} BlackenFacts<R>(t: RTree<R>)
    requires RbOk(t)
    ensures RbOk(Blacken(t)) && !IsRed(Blacken(t)) && Items(Blacken(t)) == Items(t)
    ensures Bh(Blacken(t)) == Bh(t) + if IsRed(t) then 1 else 0
  {
  }

  /* ---- rb_probe ---- */

  /** The uncle is red: parent and uncle turn black, the grandparent red. */
  function Recolored<R>(g: Frame<R, Color>, p: Frame<R, Color>, t: RTree<R>): RTree<R> {
    Fill(g.(tag := Red, sib := Blacken(g.sib)), Fill(p.(tag := Black), t))
  }

  /** The uncle is black: one or two rotations bring a black node to the top. */
  function Rotated<R>(g: Frame<R, Color>, p: Frame<R, Color>, t: RTree<R>): RTree<R>
    requires t.Node? && g.dir <= 1 && p.dir <= 1
  {
    var low := if p.dir == g.dir then Fill(p, t) else Lift(Fill(p, t), p.dir);
    Lift(Fill(g.(tag := Red), low.(tag := Black)), g.dir)
  }

  /** A red subtree below a red node: all rules hold but that one. */
  ghost predicate RedBelowRed<R>(cs: RPath<R>, t: RTree<R>) {
    && |cs| >= 2 && cs[|cs| - 1].tag == Red && IsRed(t) && RbOk(t) && Wants(cs, Bh(t))
    && cs[|cs| - 1].dir <= 1 && cs[|cs| - 2].dir <= 1
  }

  lemma {:induction false} RecolorStep<R>(cs: RPath<R>, t: RTree<R>)
    requires RedBelowRed(cs, t) && IsRed(cs[|cs| - 2].sib)
    ensures var n := |cs|; var u := Recolored(cs[n - 2], cs[n - 1], t);
      && RbOk(u) && IsRed(u) && Wants(cs[..n - 2], Bh(u))
      && Items(u) == Items(Fill(cs[n - 2], Fill(cs[n - 1], t)))
  {
    hide Balanced, NoRed2, Bh, Items, Wants;
    var n := |cs|;
    var g, p := cs[n - 2], cs[n - 1];
    assert cs[..n - 1][..n - 2] == cs[..n - 2];
    WantsTop(cs, Bh(t));
    WantsTop(cs[..n - 1], Bh(t));
    BlackenFacts(g.sib);
    MkFacts(p.ref, p.dir, t, p.key, p.tag, p.sib);
    MkFacts(p.ref, p.dir, t, p.key, Black, p.sib);
    MkFacts(g.ref, g.dir, Fill(p, t), g.key, g.tag, g.sib);
    MkFacts(g.ref, g.dir, Fill(p.(tag := Black), t), g.key, Red, Blacken(g.sib));
  }

  lemma {:induction false} RotateOuter<R>(g: Frame<R, Color>, p: Frame<R, Color>, t: RTree<R>)
    requires RbOk(t) && RbOk(p.sib) && RbOk(g.sib) && Bh(t) == Bh(p.sib) == Bh(g.sib) && IsRed(t) && !IsRed(p.sib) && !IsRed(g.sib)
    requires g.dir <= 1 && p.dir == g.dir
    ensures var u := Rotated(g, p, t);
      RbOk(u) && !IsRed(u) && Bh(u) == Bh(t) + 1 && Items(u) == Items(Fill(g, Fill(p, t)))
  {
    hide Balanced, NoRed2, Bh, Items;
    var d := g.dir;
    MkFacts(p.ref, p.dir, t, p.key, p.tag, p.sib);
    MkFacts(g.ref, d, Fill(p, t), g.key, g.tag, g.sib);
    MkFacts(g.ref, d, p.sib, g.key, Red, g.sib);
    MkFacts(p.ref, d, t, p.key, Black, Mk(g.ref, d, p.sib, g.key, Red, g.sib));
  }

  lemma {:induction false} RotateInner<R>(g: Frame<R, Color>, p: Frame<R, Color>, t: RTree<R>)
    requires RbOk(t) && RbOk(p.sib) && RbOk(g.sib) && Bh(t) == Bh(p.sib) == Bh(g.sib) && IsRed(t) && p.tag == Red && !IsRed(p.sib) && !IsRed(g.sib)
    requires g.dir <= 1 && p.dir <= 1 && p.dir != g.dir
    ensures var u := Rotated(g, p, t);
      RbOk(u) && !IsRed(u) && Bh(u) == Bh(t) + 1 && Items(u) == Items(Fill(g, Fill(p, t)))
  {
    hide Balanced, NoRed2, Bh, Items;
    var d := g.dir;
    NodeFacts(t, d);
    var a := Mk(p.ref, d, p.sib, p.key, p.tag, Child(t, d));
    var b := Mk(g.ref, d, Child(t, 1 - d), g.key, Red, g.sib);
    MkFacts(p.ref, p.dir, t, p.key, p.tag, p.sib);
    MkFacts(g.ref, d, Fill(p, t), g.key, g.tag, g.sib);
    MkFacts(p.ref, d, p.sib, p.key, p.tag, Child(t, d));
    MkFacts(g.ref, d, Child(t, 1 - d), g.key, Red, g.sib);
    MkFacts(t.ref, d, a, t.key, Black, b);
  }

  lemma {:induction false} RotateStep<R>(cs: RPath<R>, t: RTree<R>)
    requires RedBelowRed(cs, t) && !IsRed(cs[|cs| - 2].sib)
    ensures var n := |cs|; var u := Rotated(cs[n - 2], cs[n - 1], t);
      && RbOk(u) && !IsRed(u) && Wants(cs[..n - 2], Bh(u))
      && Items(u) == Items(Fill(cs[n - 2], Fill(cs[n - 1], t)))
  {
    hide Balanced, NoRed2, Bh, Items, Wants, Rotated;
    var n := |cs|;
    WantsTop(cs, Bh(t));
    WantsTop(cs[..n - 1], Bh(t));
    assert cs[..n - 1][..n - 2] == cs[..n - 2];
    if cs[n - 1].dir == cs[n - 2].dir {
      RotateOuter(cs[n - 2], cs[n - 1], t);
    } else {
      RotateInner(cs[n - 2], cs[n - 1], t);
    }
  }

  /* ---- rb_delete ---- */

  /** The subtree t in the hole is one black node short; it may have a red root below a red node. */
  ghost predicate Short<R>(cs: RPath<R>, t: RTree<R>) {
    Balanced(t) && NoRed2(Blacken(t)) && Wants(cs, Bh(t) + 1)
  }

  /** A node with an empty link d is cut out: its other subtree takes its place. If the node was red
      all is well, otherwise the place is one black node short. */
  lemma {:induction false} CutStep<R>(cs: RPath<R>, t: RTree<R>, d: nat)
    requires t.Node? && d <= 1 && Child(t, d).Leaf? && Wants(cs, Bh(t)) && RbOk(t) && MayHold(cs, t)
    ensures var x := Child(t, 1 - d);
      if t.tag == Black then Short(cs, x) else RbOk(x) && Wants(cs, Bh(x)) && MayHold(cs, x)
  {
    hide Balanced, NoRed2, Bh, Wants;
    NodeFacts(t, d);
    BlackenFacts(Child(t, 1 - d));
  }

  /** Which node stands on the path does not matter to the rules, only its colour. */
  lemma {:induction false} WantsSwap<R>(us: RPath<R>, f: Frame<R, Color>, g: Frame<R, Color>, ws: RPath<R>, b: nat)
    requires Wants(us + [f] + ws, b) && f.tag == g.tag && f.sib == g.sib
    ensures Wants(us + [g] + ws, b)
    decreases |ws|
  {
    hide Balanced, NoRed2, Bh, Items;
    var n := |us| + |ws|;
    var a, c := us + [f] + ws, us + [g] + ws;
    if ws == [] {
      assert a[..n] == us && c[..n] == us;
    } else {
      var m := |ws| - 1;
      assert a[..n] == us + [f] + ws[..m] && c[..n] == us + [g] + ws[..m];
      assert a[n] == c[n] == ws[m];
      assert a[n - 1].tag == c[n - 1].tag;
      WantsSwap(us, f, g, ws[..m], b + Weight(ws[m].tag));
    }
  }

  /** A red root of the short subtree turns black: done. */
  lemma {:induction false} BlackenStep<R>(cs: RPath<R>, t: RTree<R>)
    requires Short(cs, t) && IsRed(t)
    ensures RbOk(Blacken(t)) && Wants(cs, Bh(Blacken(t))) && Items(Blacken(t)) == Items(t)
  {
  }

  /** The sibling of a short subtree has a node. */
  lemma {:induction false} SiblingExists<R>(cs: RPath<R>, t: RTree<R>)
    requires Short(cs, t) && cs != []
    ensures cs[|cs| - 1].sib.Node?
    ensures !IsRed(t) ==> RbOk(t)
    ensures var w := cs[|cs| - 1].sib; IsRed(w) ==> w.left.Node? && w.right.Node? && !IsRed(w.left) && !IsRed(w.right)
  {
  }

  /** A red sibling is rotated above the parent: the path gets longer and the new sibling is black. */
  function LongerPath<R>(f: Frame<R, Color>): (fs: RPath<R>)
    requires f.sib.Node? && f.dir <= 1
  {
    var w, d := f.sib, f.dir;
    [Frame(w.ref, d, w.key, Black, Child(w, 1 - d)), Frame(f.ref, d, f.key, Red, Child(w, d))]
  }

  lemma {:induction false} RedSiblingItems<R>(cs: RPath<R>, t: RTree<R>)
    requires cs != [] && cs[|cs| - 1].sib.Node? && cs[|cs| - 1].dir <= 1
    ensures var n := |cs| - 1; Items(Plug(cs[..n] + LongerPath(cs[n]), t)) == Items(Plug(cs, t))
  {
    hide Plug, Lefts, Rights;
    var n := |cs| - 1;
    var f, fs := cs[n], LongerPath(cs[n]);
    assert cs[..n] + fs == cs[..n] + [fs[0]] + [fs[1]];
    PlugPush(cs[..n] + [fs[0]], fs[1], t);
    PlugPush(cs[..n], fs[0], Fill(fs[1], t));
    assert cs == cs[..n] + [f];
    PlugPush(cs[..n], f, t);
    ItemsSwap(cs[..n], Fill(fs[0], Fill(fs[1], t)), Fill(f, t));
  }

  lemma {:induction false} RedSiblingStep<R>(cs: RPath<R>, t: RTree<R>)
    requires Short(cs, t) && cs != [] && IsRed(cs[|cs| - 1].sib) && cs[|cs| - 1].dir <= 1
    ensures var n := |cs| - 1; var ds := cs[..n] + LongerPath(cs[n]);
      && Short(ds, t) && !IsRed(ds[n + 1].sib) && ds[n + 1].sib.Node? && ds[n + 1].dir <= 1
      && Items(Plug(ds, t)) == Items(Plug(cs, t))
  {
    hide Balanced, NoRed2, Bh, Items, Plug, Wants;
    var n := |cs| - 1;
    var w, d := cs[n].sib, cs[n].dir;
    WantsTop(cs, Bh(t) + 1);
    NodeFacts(w, d);
    SiblingExists(cs, t);
    RedSiblingItems(cs, t);
    var fs := LongerPath(cs[n]);
    assert cs[..n] + fs == cs[..n] + [fs[0]] + [fs[1]];
    WantsPush(cs[..n], fs[0], Bh(t) + 1);
    WantsPush(cs[..n] + [fs[0]], fs[1], Bh(t) + 1);
  }

  predicate BlackChildren<R>(w: RTree<R>)
    requires w.Node?
  {
    !IsRed(w.left) && !IsRed(w.right)
  }

  /** Colours do not touch the items. */
  lemma {:induction false} MoveUpItems<R>(f: Frame<R, Color>, t: RTree<R>)
    requires f.sib.Node?
    ensures Items(Fill(f.(sib := f.sib.(tag := Red)), t)) == Items(Fill(f, t))
  {
  }

  /** A black sibling without red children turns red: the shortage moves up. */
  lemma {:induction false} MoveUpStep<R>(cs: RPath<R>, t: RTree<R>)
    requires Short(cs, t) && cs != [] && !IsRed(t)
    requires var w := cs[|cs| - 1].sib; w.Node? && !IsRed(w) && BlackChildren(w)
    ensures var n := |cs| - 1; var u := Fill(cs[n].(sib := cs[n].sib.(tag := Red)), t);
      Short(cs[..n], u) && Items(u) == Items(Fill(cs[n], t))
  {
    hide Balanced, NoRed2, Bh, Items, Wants;
    MoveUpItems(cs[|cs| - 1], t);
    WantsTop(cs, Bh(t) + 1);
    var n := |cs| - 1;
    var f, w := cs[n], cs[n].sib;
    SiblingExists(cs, t);
    NodeFacts(w, 0);
    MkFacts(w.ref, 0, w.left, w.key, Red, w.right);
    MkFacts(f.ref, f.dir, t, f.key, f.tag, w.(tag := Red));
  }

  /** The inner child of the sibling is red and the outer is not: the inner one comes up. */
  function InnerUp<R>(d: nat, w: RTree<R>): RTree<R>
    requires d <= 1 && w.Node? && Child(w, d).Node?
  {
    var y := Child(w, d);
    Mk(y.ref, d, Child(y, d), y.key, Black, Mk(w.ref, d, Child(y, 1 - d), w.key, Red, Child(w, 1 - d)))
  }

  /** The sibling, with a red outer child, takes the parent's place. */
  function SiblingUp<R>(f: Frame<R, Color>, w: RTree<R>, t: RTree<R>): RTree<R>
    requires f.dir <= 1 && w.Node?
  {
    var d := f.dir;
    Mk(w.ref, d, Mk(f.ref, d, t, f.key, Black, Child(w, d)), w.key, f.tag, Blacken(Child(w, 1 - d)))
  }

  lemma {:induction false} InnerStep<R>(d: nat, w: RTree<R>)
    requires d <= 1 && w.Node? && !IsRed(w) && RbOk(w) && IsRed(Child(w, d)) && !IsRed(Child(w, 1 - d))
    ensures var v := InnerUp(d, w);
      RbOk(v) && Bh(v) == Bh(w) && Items(v) == Items(w) && !IsRed(v) && IsRed(Child(v, 1 - d))
  {
    hide Balanced, NoRed2, Bh, Items;
    var y := Child(w, d);
    NodeFacts(w, d);
    NodeFacts(y, d);
    MkFacts(w.ref, d, Child(y, 1 - d), w.key, Red, Child(w, 1 - d));
    MkFacts(y.ref, d, Child(y, d), y.key, Black, Mk(w.ref, d, Child(y, 1 - d), w.key, Red, Child(w, 1 - d)));
  }

  lemma {:induction false} SiblingItems<R>(f: Frame<R, Color>, w: RTree<R>, t: RTree<R>)
    requires w.Node? && f.dir <= 1 && Items(w) == Items(f.sib)
    ensures Items(SiblingUp(f, w, t)) == Items(Fill(f, t))
  {
    if f.dir == 0 {
      assert (Items(t) + [f.key] + Items(w.left)) + [w.key] + Items(w.right) == Items(t) + [f.key] + (Items(w.left) + [w.key] + Items(w.right));
    } else {
      assert Items(w.left) + [w.key] + (Items(w.right) + [f.key] + Items(t)) == (Items(w.left) + [w.key] + Items(w.right)) + [f.key] + Items(t);
    }
  }

  lemma {:induction false} SiblingStep<R>(cs: RPath<R>, t: RTree<R>, w: RTree<R>)
    requires Short(cs, t) && cs != [] && !IsRed(t) && cs[|cs| - 1].dir <= 1
    requires w.Node? && !IsRed(w) && RbOk(w) && Bh(w) == Bh(t) + 1 && IsRed(Child(w, 1 - cs[|cs| - 1].dir))
    requires Items(w) == Items(cs[|cs| - 1].sib)
    ensures var n := |cs| - 1; var u := SiblingUp(cs[n], w, t);
      && RbOk(u) && Wants(cs[..n], Bh(u)) && MayHold(cs[..n], u)
      && Items(u) == Items(Fill(cs[n], t))
  {
    hide Balanced, NoRed2, Bh, Items, Wants, Blacken;
    SiblingItems(cs[|cs| - 1], w, t);
    WantsTop(cs, Bh(t) + 1);
    var n := |cs| - 1;
    var f, d := cs[n], cs[n].dir;
    SiblingExists(cs, t);
    NodeFacts(w, d);
    BlackenFacts(Child(w, 1 - d));
    var a := Mk(f.ref, d, t, f.key, Black, Child(w, d));
    MkFacts(f.ref, d, t, f.key, Black, Child(w, d));
    MkFacts(w.ref, d, a, w.key, f.tag, Blacken(Child(w, 1 - d)));
  }

  /* ---- heights ---- */

  lemma {:induction false} HeightBound<R>(t: RTree<R>)
    requires RbOk(t)
    ensures Height(t) <= 2 * Bh(t) + if IsRed(t) then 1 else 0
  {
    if t.Node? {
      HeightBound(t.left);
      HeightBound(t.right);
    }
  }

  lemma {:induction false} SizeBound<R>(t: RTree<R>)
    requires Balanced(t)
    ensures Size(t) + 1 >= Pow2(Bh(t))
  {
    if t.Node? {
      SizeBound(t.left);
      SizeBound(t.right);
    }
  }

  /** A tree of fewer than 2^23 items has height 46 at most. */
  lemma {:induction false} Low<R>(t: RTree<R>)
    requires RbOk(t) && !IsRed(t) && Size(t) < Pow2(23)
    ensures Height(t) <= 46
  {
    HeightBound(t);
    SizeBound(t);
    if Bh(t) >= 24 {
      Pow2Mono(24, Bh(t));
      assert false;
    }
  }
}
