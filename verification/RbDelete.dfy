/** rb.c: rb_delete. */
module RbDelete {
  import opened Seqs
  import opened SlabModel
  import opened AddModel
  import opened Powers
  import opened Trees
  import opened RbModel
  import opened TreeHeap
  import opened TreeStack
  import opened TreeCut
  import opened TreeSplice
  import opened RbProbe

  /** The sibling w is red: it is rotated above the parent, which gets a black sibling. */
  method LiftRedSibling(above: TreeNode<Color>, ad: nat, pn: TreeNode<Color>, w: TreeNode<Color>, d: nat, ghost root: TreeNode<Color>, ghost cs: NPath<Color>, ghost t: NTree<Color>)
    returns (ghost ds: NPath<Color>)
    requires Held(root, cs, t) && cs != [] && cs[|cs| - 1].ref == pn && cs[|cs| - 1].dir == d <= 1
    requires cs[|cs| - 1].sib.Node? && cs[|cs| - 1].sib.ref == w
    requires above == Above(root, cs[..|cs| - 1]) && ad == AboveDir(cs[..|cs| - 1])
    modifies {above, pn, w}`link0, {above, pn, w}`link1, {pn, w}`tag
    ensures ds == cs[..|cs| - 1] + LongerPath(cs[|cs| - 1]) && Held(root, ds, t)
    ensures Refs(t) + Under(ds) == Refs(t) + Under(cs)
  {
    hide Shape, Sep, Refs, Under, PathAt, PathSep;
    ghost var us, f := cs[..|cs| - 1], cs[|cs| - 1];
    ghost var big := Fill(f, t);
    Zip(root, cs, t);
    SiblingInside(f, t);
    PathAlive(us);
    AboveOutside(root, us);
    LiftPainted(pn, w, 1 - d, Red, Black, big);
    ghost var fs := LongerPath(f);
    ghost var u := Fill(fs[0], Fill(fs[1], t));
    assert u == Lift(Repaint(big, 1 - d, Red, Black), 1 - d);
    Alive(u);
    SetHole(above, ad, w, root, us, pn);
    HeldNew(root, us, u, Refs(big));
    Unzip(root, us, u, d);
    Unzip(root, us + [fs[0]], Fill(fs[1], t), d);
    ds := us + fs;
    assert ds == us + [fs[0]] + [fs[1]];
  }

  /** The black sibling turns red. */
  method PaintSibling(w: TreeNode<Color>, ghost root: TreeNode<Color>, ghost cs: NPath<Color>, ghost t: NTree<Color>) returns (ghost u: NTree<Color>)
    requires Held(root, cs, t) && cs != [] && cs[|cs| - 1].sib.Node? && cs[|cs| - 1].sib.ref == w
    modifies w`tag
    ensures u == Fill(cs[|cs| - 1].(sib := cs[|cs| - 1].sib.(tag := Red)), t) && Held(root, cs[..|cs| - 1], u)
    ensures Refs(u) + Under(cs[..|cs| - 1]) == Refs(t) + Under(cs)
  {
    hide Shape, Sep, Refs, Under, PathAt, PathSep;
    ghost var us, f := cs[..|cs| - 1], cs[|cs| - 1];
    ghost var big, v := Fill(f, t), f.sib.(tag := Red);
    Zip(root, cs, t);
    DirOk(cs);
    ShapeOpen(big, f.dir);
    SepOpen(big, f.dir);
    SepOpen(f.sib, 0);
    PathAlive(us);
    Alive(t);
    Paint(w, Red, f.sib);
    u := Fill(f.(sib := v), t);
    ShapeMk(f.ref, f.dir, t, f.key, f.tag, v);
    SepMk(f.ref, f.dir, t, f.key, f.tag, v);
    HeldNew(root, us, u, Refs(big));
  }

  /** The sibling's outer child turns black. */
  method PaintOuter(w: TreeNode<Color>, d: nat, ghost v: NTree<Color>) returns (ghost v1: NTree<Color>)
    requires d <= 1 && v.Node? && v.ref == w && Child(v, 1 - d).Node? && Shape(v) && Sep(v)
    modifies Child(v, 1 - d).ref`tag
    ensures v1 == Mk(w, d, Child(v, d), v.key, v.tag, Blacken(Child(v, 1 - d)))
    ensures Shape(v1) && Sep(v1) && Refs(v1) == Refs(v)
  {
    hide Shape, Sep, Refs;
    ghost var o := Child(v, 1 - d);
    ShapeOpen(v, d);
    SepOpen(v, d);
    SepOpen(o, 0);
    Alive(Child(v, d));
    Paint(w.Link(1 - d), Black, o);
    v1 := Mk(w, d, Child(v, d), v.key, v.tag, Blacken(o));
    ShapeMk(w, d, Child(v, d), v.key, v.tag, Blacken(o));
    SepMk(w, d, Child(v, d), v.key, v.tag, Blacken(o));
  }

  /** The sibling subtree after its red inner child, if it is needed, has come up. */
  ghost function Leaned(d: nat, w: NTree<Color>): NTree<Color>
    requires d <= 1 && w.Node? && (IsRed(Child(w, 1 - d)) || IsRed(Child(w, d)))
  {
    if IsRed(Child(w, 1 - d)) then w else InnerUp(d, w)
  }

  /** The first rotation of the last case of rb_delete: w = pa[k - 1]->rb_link[1 - d] = y. */
  method Lean(pn: TreeNode<Color>, w0: TreeNode<Color>, d: nat, ghost v: NTree<Color>) returns (w: TreeNode<Color>)
    requires d <= 1 && v.Node? && v.ref == w0 && pn !in Refs(v) && pn.Link(1 - d) == w0 && Shape(v) && Sep(v)
    requires IsRed(Child(v, 1 - d)) || IsRed(Child(v, d))
    modifies (Refs(v) + {pn})`link0, (Refs(v) + {pn})`link1, Refs(v)`tag
    ensures Shape(Leaned(d, v)) && Sep(Leaned(d, v)) && Refs(Leaned(d, v)) == Refs(v) && Top(Leaned(d, v)) == w
    ensures pn.Link(1 - d) == w && pn.Link(d) == old(pn.Link(d))
  {
    hide Shape, Sep, Refs;
    ShapeOpen(v, d);
    SepOpen(v, d);
    ChildTag(v, d);
    ChildTag(v, 1 - d);
    w := w0;
    var o := w.Link(1 - d);
    if o == null || o.tag == Black {
      var y := w.Link(d);
      ghost var u := Lift(Repaint(v, d, Red, Black), d);
      assert u == InnerUp(d, v);
      LiftPainted(w, y, d, Red, Black, v);
      Alive(u);
      pn.SetLink(1 - d, y);
      w := y;
    }
  }

  /** The rotation of the sibling w, whose outer child is red, above the parent. */
  method LiftSibling(pn: TreeNode<Color>, w: TreeNode<Color>, d: nat, ghost f: NFrame<Color>, ghost v: NTree<Color>, ghost t: NTree<Color>)
    requires d <= 1 && f.ref == pn && f.dir == d && v.Node? && v.ref == w && Child(v, 1 - d).Node?
    requires Shape(v) && Sep(v) && Shape(t) && Sep(t) && pn !in Refs(v) && pn !in Refs(t) && Refs(v) !! Refs(t)
    requires pn.data == f.key && pn.tag == f.tag && pn.Link(d) == Top(t) && pn.Link(1 - d) == w
    modifies {pn, w}`link0, {pn, w}`link1, {pn, w, Child(v, 1 - d).ref}`tag
    ensures var u := SiblingUp(f, v, t);
      Shape(u) && Sep(u) && Refs(u) == {pn} + Refs(v) + Refs(t) && Top(u) == w
  {
    hide Shape, Sep, Refs;
    Alive(t);
    SepOpen(v, d);
    SepOpen(Child(v, 1 - d), 0);
    var c := pn.tag;
    ghost var v1 := PaintOuter(w, d, v);
    ghost var big := Mk(pn, d, t, f.key, f.tag, v1);
    ShapeMk(pn, d, t, f.key, f.tag, v1);
    SepMk(pn, d, t, f.key, f.tag, v1);
    LiftPainted(pn, w, 1 - d, Black, c, big);
    assert Lift(Repaint(big, 1 - d, Black, f.tag), 1 - d) == SiblingUp(f, v, t);
  }

  /** The last case of rb_delete: the sibling has a red child, and makes up for the missing node. */
  method SettleSibling(above: TreeNode<Color>, ad: nat, pn: TreeNode<Color>, w0: TreeNode<Color>, d: nat, ghost root: TreeNode<Color>, ghost cs: NPath<Color>, ghost t: NTree<Color>)
    returns (ghost u: NTree<Color>)
    requires Held(root, cs, t) && cs != [] && cs[|cs| - 1].ref == pn && cs[|cs| - 1].dir == d <= 1
    requires var w := cs[|cs| - 1].sib; w.Node? && w.ref == w0 && (IsRed(Child(w, 1 - d)) || IsRed(Child(w, d)))
    requires above == Above(root, cs[..|cs| - 1]) && ad == AboveDir(cs[..|cs| - 1])
    modifies ({root} + Under(cs))`link0, ({root} + Under(cs))`link1, Under(cs)`tag
    ensures u == SiblingUp(cs[|cs| - 1], Leaned(d, cs[|cs| - 1].sib), t) && Held(root, cs[..|cs| - 1], u)
    ensures Refs(u) + Under(cs[..|cs| - 1]) == Refs(t) + Under(cs)
  {
    hide Shape, Sep, Refs, Under, PathAt, PathSep;
    ghost var us, f := cs[..|cs| - 1], cs[|cs| - 1];
    ghost var big, v := Fill(f, t), Leaned(d, f.sib);
    Zip(root, cs, t);
    LastUnder(cs);
    ShapeOpen(big, d);
    SepMk(pn, d, t, f.key, f.tag, f.sib);
    PathAlive(us);
    Alive(t);
    AboveOutside(root, us);
    OuterInside(d, v);
    var w := Lean(pn, w0, d, f.sib);
    LiftSibling(pn, w, d, f, v, t);
    u := SiblingUp(f, v, t);
    Alive(u);
    SetHole(above, ad, w, root, us, pn);
    HeldNew(root, us, u, Refs(big));
  }

  lemma OuterInside(d: nat, v: NTree<Color>)
    requires d <= 1 && v.Node? && Child(v, 1 - d).Node?
    ensures v.ref in Refs(v) && Child(v, 1 - d).ref in Refs(v)
  {
  }

  /** The subtree in the hole is one black node short; all else is right. */
  ghost predicate Pending(root: TreeNode<Color>, cs: NPath<Color>, t: NTree<Color>, items: seq<int>, all: set<TreeNode<Color>>)
    reads root, Under(cs), Refs(t)
  {
    Held(root, cs, t) && Short(cs, t) && Items(Plug(cs, t)) == items && Refs(t) + Under(cs) == all
  }

  /** The colour rules hold with t in the hole. */
  ghost predicate Settled(root: TreeNode<Color>, cs: NPath<Color>, t: NTree<Color>, items: seq<int>, all: set<TreeNode<Color>>)
    reads root, Under(cs), Refs(t)
  {
    Held(root, cs, t) && RbOk(t) && Wants(cs, Bh(t)) && MayHold(cs, t) && Items(Plug(cs, t)) == items && Refs(t) + Under(cs) == all
  }

  /** x->tag = RB_BLACK. */
  method BlackenShort(x: TreeNode<Color>, ghost root: TreeNode<Color>, ghost cs: NPath<Color>, ghost t: NTree<Color>, ghost items: seq<int>, ghost all: set<TreeNode<Color>>)
    requires Pending(root, cs, t, items, all) && IsRed(t) && t.ref == x
    modifies x`tag
    ensures Settled(root, cs, Blacken(t), items, all)
  {
    hide Balanced, NoRed2, Bh, Items, Plug, Wants, Refs, Sep, Shape, Under, PathAt, PathSep;
    BlackenStep(cs, t);
    ItemsSwap(cs, Blacken(t), t);
    TopInside(t);
    PathAlive(cs);
    Paint(x, Black, t);
    HeldNew(root, cs, Blacken(t), Refs(t));
  }

  /** The red sibling is out of the way: path and stacks are one longer. */
  method RedSibling(pa: array<TreeNode<Color>>, da: array<nat>, k: nat, w: TreeNode<Color>, ghost root: TreeNode<Color>, ghost cs: NPath<Color>, ghost t: NTree<Color>, ghost items: seq<int>, ghost all: set<TreeNode<Color>>)
    returns (ghost ds: NPath<Color>)
    requires Pending(root, cs, t, items, all) && cs != [] && !IsRed(t) && IsRed(cs[|cs| - 1].sib) && cs[|cs| - 1].sib.ref == w
    requires OnStack(pa, da, root, cs) && k == |cs| + 1 < pa.Length
    modifies pa, da, all`link0, all`link1, all`tag, root`link0, root`link1
    ensures Pending(root, ds, t, items, all) && |ds| == |cs| + 1 && OnStack(pa, da, root, ds)
    ensures ds[|ds| - 1].sib.Node? && !IsRed(ds[|ds| - 1].sib) && ds[|ds| - 1].tag == Red
  {
    hide Balanced, NoRed2, Bh, Items, Plug, Wants, Refs, Sep, Shape, Under, PathAt, PathSep;
    ghost var us, f := cs[..|cs| - 1], cs[|cs| - 1];
    LastOne(root, cs, t);
    LastUnder(cs);
    AboveOutside(root, us);
    RedSiblingStep(cs, t);
    var above, ad, pn, d := pa[k - 2], da[k - 2], pa[k - 1], da[k - 1];
    ds := LiftRedSibling(above, ad, pn, w, d, root, cs, t);
    pa[k] := pn;
    da[k] := d;
    pa[k - 1] := w;
  }

  /** The black sibling w has only black children. */
  method MoveUp(w: TreeNode<Color>, ghost root: TreeNode<Color>, ghost cs: NPath<Color>, ghost t: NTree<Color>, ghost items: seq<int>, ghost all: set<TreeNode<Color>>)
    returns (ghost u: NTree<Color>)
    requires Pending(root, cs, t, items, all) && cs != [] && !IsRed(t) && cs[|cs| - 1].sib.Node? && cs[|cs| - 1].sib.ref == w
    requires !IsRed(cs[|cs| - 1].sib) && BlackChildren(cs[|cs| - 1].sib)
    modifies w`tag
    ensures Pending(root, cs[..|cs| - 1], u, items, all) && (IsRed(u) <==> cs[|cs| - 1].tag == Red)
  {
    hide Balanced, NoRed2, Bh, Items, Wants, Refs, Sep, Shape, Under, PathAt, PathSep, Held;
    MoveUpStep(cs, t);
    ghost var n := |cs| - 1;
    u := PaintSibling(w, root, cs, t);
    ItemsSwap(cs[..n], u, Fill(cs[n], t));
  }

  lemma {:induction false} LeanedOk(d: nat, w: NTree<Color>)
    requires d <= 1 && w.Node? && !IsRed(w) && RbOk(w) && (IsRed(Child(w, 1 - d)) || IsRed(Child(w, d)))
    ensures var v := Leaned(d, w);
      v.Node? && !IsRed(v) && RbOk(v) && Bh(v) == Bh(w) && IsRed(Child(v, 1 - d)) && Items(v) == Items(w)
  {
    if !IsRed(Child(w, 1 - d)) {
      InnerStep(d, w);
    }
  }

  /** The black sibling w has a red child. */
  method Settle(above: TreeNode<Color>, ad: nat, pn: TreeNode<Color>, w: TreeNode<Color>, d: nat, ghost root: TreeNode<Color>, ghost cs: NPath<Color>, ghost t: NTree<Color>, ghost items: seq<int>, ghost all: set<TreeNode<Color>>)
    returns (ghost u: NTree<Color>)
    requires Pending(root, cs, t, items, all) && cs != [] && !IsRed(t) && cs[|cs| - 1].sib.Node? && cs[|cs| - 1].sib.ref == w
    requires !IsRed(cs[|cs| - 1].sib) && !BlackChildren(cs[|cs| - 1].sib) && cs[|cs| - 1].ref == pn && cs[|cs| - 1].dir == d <= 1
    requires above == Above(root, cs[..|cs| - 1]) && ad == AboveDir(cs[..|cs| - 1])
    modifies ({root} + Under(cs))`link0, ({root} + Under(cs))`link1, Under(cs)`tag
    ensures Settled(root, cs[..|cs| - 1], u, items, all)
  {
    hide Balanced, NoRed2, Bh, Items, Wants, Refs, Sep, Shape, Under, PathAt, PathSep, Held;
    ghost var n := |cs| - 1;
    ghost var f := cs[n];
    WantsTop(cs, Bh(t) + 1);
    LeanedOk(d, f.sib);
    SiblingStep(cs, t, Leaned(d, f.sib));
    u := SettleSibling(above, ad, pn, w, d, root, cs, t);
    ItemsSwap(cs[..n], u, Fill(f, t));
  }

  /** Nothing is left above: the whole tree is one black node lower. */
  lemma {:induction false} TopSettled(root: TreeNode<Color>, t: NTree<Color>, items: seq<int>, all: set<TreeNode<Color>>)
    requires Pending(root, [], t, items, all) && !IsRed(t)
    ensures Settled(root, [], t, items, all)
  {
    hide Bh, Refs, Sep, Shape, Under, PathAt, PathSep, Held;
  }

  /** What the loop reads before it decides. */
  lemma {:induction false} ReadSibling(root: TreeNode<Color>, cs: NPath<Color>, t: NTree<Color>, items: seq<int>, all: set<TreeNode<Color>>)
    requires Pending(root, cs, t, items, all) && cs != []
    ensures var f := cs[|cs| - 1]; var w := f.sib;
      && w.Node? && f.ref in all && w.ref in all && f.dir <= 1
      && f.ref.Link(1 - f.dir) == w.ref && w.ref.tag == w.tag
      && w.ref.link0 == Top(w.left) && w.ref.link1 == Top(w.right)
      && (w.left.Node? ==> w.left.ref.tag == w.left.tag && w.left.ref in all)
      && (w.right.Node? ==> w.right.ref.tag == w.right.tag && w.right.ref in all)
    ensures Under(cs) <= all
  {
    hide Balanced, NoRed2, Bh, Items, Plug, Wants, Refs, Sep, Shape, Under, PathAt, PathSep, Held;
    SiblingExists(cs, t);
    LastOne(root, cs, t);
  }

  /** What the loop reads first: the node in the hole. */
  lemma {:induction false} ReadHole(root: TreeNode<Color>, cs: NPath<Color>, t: NTree<Color>, items: seq<int>, all: set<TreeNode<Color>>)
    requires Pending(root, cs, t, items, all)
    ensures Above(root, cs).Link(AboveDir(cs)) == Top(t) && (t.Node? ==> t.ref.tag == t.tag && t.ref in all)
    ensures Above(root, cs) == root || Above(root, cs) in all
  {
    hide Balanced, NoRed2, Bh, Items, Plug, Wants, Sep, PathSep;
    AboveOutside(root, cs);
  }

  /** One round of the loop with a black sibling. */
  method BlackSibling(pa: array<TreeNode<Color>>, da: array<nat>, k: nat, w: TreeNode<Color>, ghost root: TreeNode<Color>, ghost cs: NPath<Color>, ghost t: NTree<Color>, ghost items: seq<int>, ghost all: set<TreeNode<Color>>)
    returns (done: bool, ghost u: NTree<Color>)
    requires Pending(root, cs, t, items, all) && cs != [] && !IsRed(t) && cs[|cs| - 1].sib.Node? && !IsRed(cs[|cs| - 1].sib) && cs[|cs| - 1].sib.ref == w
    requires OnStack(pa, da, root, cs) && k == |cs| + 1
    modifies all`link0, all`link1, all`tag, root`link0, root`link1
    ensures done ==> Settled(root, cs[..|cs| - 1], u, items, all)
    ensures !done ==> Pending(root, cs[..|cs| - 1], u, items, all) && (IsRed(u) <==> cs[|cs| - 1].tag == Red)
    ensures OnStack(pa, da, root, cs[..|cs| - 1])
  {
    hide Pending, Settled, Under, Refs, Items, Bh, Wants;
    ReadSibling(root, cs, t, items, all);
    AboveOutside(root, cs[..|cs| - 1]);
    UpperUnder(cs);
    var l, r := w.link0, w.link1;
    if (l == null || l.tag == Black) && (r == null || r.tag == Black) {
      u := MoveUp(w, root, cs, t, items, all);
      done := false;
    } else {
      u := Settle(pa[k - 2], da[k - 2], pa[k - 1], w, da[k - 1], root, cs, t, items, all);
      done := true;
    }
  }

  /** The loop of rb_delete that makes up for a missing black node. */
  method Compensate(pa: array<TreeNode<Color>>, da: array<nat>, k0: nat, ghost root: TreeNode<Color>, ghost cs0: NPath<Color>, ghost t0: NTree<Color>, ghost items: seq<int>, ghost all: set<TreeNode<Color>>)
    returns (ghost cs: NPath<Color>, ghost t: NTree<Color>)
    requires Pending(root, cs0, t0, items, all) && OnStack(pa, da, root, cs0) && k0 == |cs0| + 1
    requires |cs0| + 1 < pa.Length
    modifies pa, da, all`link0, all`link1, all`tag, root`link0, root`link1
    ensures Settled(root, cs, t, items, all)
  {
    hide Pending, Settled, OnStack, Under, Refs, Items;
    var k := k0;
    cs, t := cs0, t0;
    while true
      invariant Pending(root, cs, t, items, all) && OnStack(pa, da, root, cs) && k == |cs| + 1 < pa.Length
      decreases |cs|, if IsRed(t) then 0 else 1
    {
      ReadHole(root, cs, t, items, all);
      StackAt(pa, da, root, cs);
      var x := pa[k - 1].Link(da[k - 1]);
      if x != null && x.tag == Red {
        BlackenShort(x, root, cs, t, items, all);
        t := Blacken(t);
        return;
      }
      if k < 2 {
        TopSettled(root, t, items, all);
        return;
      }
      ReadSibling(root, cs, t, items, all);
      var w := pa[k - 1].Link(1 - da[k - 1]);
      ghost var ds := cs;
      if w.tag == Red {
        ds := RedSibling(pa, da, k, w, root, cs, t, items, all);
        StackAt(pa, da, root, ds);
        ReadSibling(root, ds, t, items, all);
        k := k + 1;
        w := pa[k - 1].Link(1 - da[k - 1]);
      }
      var done, u := BlackSibling(pa, da, k, w, root, ds, t, items, all);
      cs, t := ds[..|ds| - 1], u;
      if done {
        return;
      }
      k := k - 1;
    }
  }

  /** The rules hold again: the table with the rest of its items. */
  lemma {:induction false} SettledWhole(root: TreeNode<Color>, cs: NPath<Color>, t: NTree<Color>, items: seq<int>, all: set<TreeNode<Color>>)
    requires Settled(root, cs, t, items, all)
    ensures var w := Plug(cs, t); Held(root, [], w) && RbOk(w) && !IsRed(w) && Items(w) == items && Refs(w) == all
  {
    hide Balanced, NoRed2, Bh, Items, Plug, Wants, Refs, Sep, Shape, Under, PathAt, PathSep, Held;
    ZipAll(root, cs, t);
    PlugRb(cs, t);
  }

  /** Another node of the same colour in the place of the deleted one keeps what CutStep has found. */
  lemma {:induction false} CutSwap(cs: NPath<Color>, f: NFrame<Color>, g: NFrame<Color>, ws: NPath<Color>, x: NTree<Color>, gone: Color)
    requires f.tag == g.tag && f.sib == g.sib
    requires if gone == Black then Short(cs + [f] + ws, x) else RbOk(x) && Wants(cs + [f] + ws, Bh(x)) && MayHold(cs + [f] + ws, x)
    ensures if gone == Black then Short(cs + [g] + ws, x) else RbOk(x) && Wants(cs + [g] + ws, Bh(x)) && MayHold(cs + [g] + ws, x)
    ensures ws == [] ==> cs + [f] + ws == cs + [f] && cs + [g] + ws == cs + [g]
  {
    hide Balanced, NoRed2, Bh, Wants;
    if gone == Black {
      WantsSwap(cs, f, g, ws, Bh(x) + 1);
    } else {
      WantsSwap(cs, f, g, ws, Bh(x));
    }
    assert ws == [] ==> cs + [f] + ws == cs + [f] && cs + [g] + ws == cs + [g];
  }

  /** The table after the node is gone. */
  method Forget(table: RbTable, ghost w: NTree<Color>)
    requires Held(table.rb_root, [], w) && RbOk(w) && !IsRed(w) && StrictlySorted(Items(w)) && table.rb_count == |Items(w)| + 1
    modifies table`tree, table`rb_count, table`rb_generation
    ensures table.Valid() && table.tree == w && table.rb_generation == old(table.rb_generation) + 1
  {
    hide Shape, Sep, Refs, StrictlySorted, Items, Balanced, NoRed2;
    table.tree := w;
    table.rb_count := table.rb_count - 1;
    table.rb_generation := table.rb_generation + 1;
  }

  /** What cutting a node out does to the rules: nothing if the node that has left its place was red,
      and else the gap is one black node short. */
  lemma {:induction false} SplicedRules(cs: NPath<Color>, t: NTree<Color>, ds: NPath<Color>, ws: NPath<Color>, low: NTree<Color>, x: NTree<Color>, gone: Color)
    requires Spliced(cs, t, ds, ws, low, x, gone) && RbOk(Plug(cs, t)) && !IsRed(Plug(cs, t))
    ensures if gone == Black then Short(ds, x) else RbOk(x) && Wants(ds, Bh(x)) && MayHold(ds, x)
  {
    hide Balanced, NoRed2, Bh, Wants, Plug;
    if t.right.Leaf? {
      UnplugRb(cs, t);
      CutStep(cs, t, 1);
    } else {
      var f, g := Frame(t.ref, 1, t.key, t.tag, t.left), Frame(low.ref, 1, low.key, t.tag, t.left);
      PlugSplit(cs + [f], ws, low);
      PlugPush(cs, f, t.right);
      UnplugRb(cs + [f] + ws, low);
      CutStep(cs + [f] + ws, low, 0);
      CutSwap(cs, f, g, ws, x, gone);
    }
  }

  lemma {:induction false} SplicedPending(root: TreeNode<Color>, ds: NPath<Color>, x: NTree<Color>, gone: Color, items: seq<int>, all: set<TreeNode<Color>>)
    requires Held(root, ds, x) && Items(Plug(ds, x)) == items && Refs(x) + Under(ds) == all
    requires if gone == Black then Short(ds, x) else RbOk(x) && Wants(ds, Bh(x)) && MayHold(ds, x)
    ensures if gone == Black then Pending(root, ds, x, items, all) else Settled(root, ds, x, items, all)
  {
    hide Balanced, NoRed2, Bh, Items, Plug, Wants, Refs, Sep, Shape, Under, PathAt, PathSep, Held;
  }

  /** rb_delete: removes item if it is there. With fewer than 2^23 items in the tree the stacks of 48
      entries suffice. */
  method Delete(table: RbTable, item: int) returns (found: bool)
    requires table.Valid() && |Items(table.tree)| < Pow2(23)
    modifies table`tree, table`rb_count, table`rb_generation
    modifies ({table.rb_root} + Refs(table.tree))`link0, ({table.rb_root} + Refs(table.tree))`link1, Refs(table.tree)`tag
    ensures table.Valid() && found == (item in old(Items(table.tree)))
    ensures !found ==> table.tree == old(table.tree) && table.rb_generation == old(table.rb_generation)
    ensures found ==> table.rb_generation == old(table.rb_generation) + 1
    ensures Elements(Items(table.tree)) == Elements(old(Items(table.tree))) - {item}
    ensures found ==> exists n :: n in old(Refs(table.tree)) && n.data == item && Refs(table.tree) == old(Refs(table.tree)) - {n}
  {
    hide Balanced, NoRed2, Bh, Items, Plug, Wants, Refs, Sep, Shape, Under, PathAt, PathSep, OnStack, Held, StrictlySorted, Lefts, Rights, Pow2, Height, SearchDepth;
    hide RbTable.Valid, Pending, Settled, DeleteAt, Spliced;
    ghost var whole := table.tree;
    ghost var items := Items(whole);
    Alive(whole);
    var pa := new TreeNode<Color>[RB_MAX_HEIGHT](_ => table.rb_root);
    var da := new nat[RB_MAX_HEIGHT];
    ValidParts(table, item);
    var k, p, cs, t := Descend(table.rb_root, item, pa, da, whole);
    if p == null {
      NotThere(table.rb_root, cs, whole, item);
      assert Elements(items) == Elements(items) - {item};
      return false;
    }
    ZipAll(table.rb_root, cs, t);
    TopInside(t);
    PathAlive(cs);
    Alive(t);
    ghost var ds, ws, low, x;
    var gone: Color;
    k, gone, ds, ws, low, x := Unlink(p, pa, da, k, table.rb_root, whole, cs, t);
    p.tag := gone;
    SplicedItems(cs, t, ds, ws, low, x, gone);
    SplicedRules(cs, t, ds, ws, low, x, gone);
    ghost var i := |Lefts(cs) + Items(t.left)|;
    DeleteAtIsDifference(items, i);
    ghost var left, all := DeleteAt(items, i), Refs(whole) - {p};
    SplicedPending(table.rb_root, ds, x, gone, left, all);
    if p.tag == Black {
      ds, x := Compensate(pa, da, k, table.rb_root, ds, x, left, all);
    }
    SettledWhole(table.rb_root, ds, x, left, all);
    Forget(table, Plug(ds, x));
    found := true;
  }
}
