/** rb.c: rb_find and rb_probe. */
module RbProbe {
  import opened Seqs
  import opened SlabModel
  import opened AddModel
  import opened Powers
  import opened Trees
  import opened RbModel
  import opened TreeHeap
  import opened TreeStack

  /** struct rb_table. The address of rb_root serves the source as a node whose only link is the root. */
  class RbTable {
    const rb_root: TreeNode<Color>
    var rb_count: nat
    var rb_generation: nat
    ghost var tree: NTree<Color>

    constructor ()
      ensures Valid() && Items(tree) == [] && fresh(rb_root)
    {
      rb_root := new TreeNode<Color>(0, Black);
      rb_count, rb_generation, tree := 0, 0, Leaf;
    }

    /** Search order, a black root, no red node below a red one, equal black heights, and the count. */
    ghost predicate Valid()
      reads this, rb_root, Refs(tree)
    {
      && Held(rb_root, [], tree) && RbOk(tree) && !IsRed(tree) && StrictlySorted(Items(tree)) && rb_count == |Items(tree)|
    }
  }

  /** The writes of the one or two rotations of rb_probe, below the link to the grandparent. */
  method RotateNodes(gn: TreeNode<Color>, pn: TreeNode<Color>, gd: nat, pd: nat, ghost g: NFrame<Color>, ghost p: NFrame<Color>, ghost t: NTree<Color>)
    returns (y: TreeNode<Color>)
    requires g.ref == gn && p.ref == pn && g.dir == gd <= 1 && p.dir == pd <= 1 && t.Node?
    requires Shape(Fill(g, Fill(p, t))) && Sep(Fill(g, Fill(p, t)))
    modifies {gn, pn, t.ref}`link0, {gn, pn, t.ref}`link1, {gn, pn, t.ref}`tag
    ensures Shape(Rotated(g, p, t)) && Top(Rotated(g, p, t)) == y
    ensures Refs(Rotated(g, p, t)) == Refs(Fill(g, Fill(p, t))) && Sep(Rotated(g, p, t))
  {
    hide Shape, Sep, Refs;
    ghost var low := Fill(p, t);
    ShapeOpen(Fill(g, low), gd);
    ShapeOpen(low, pd);
    SepMk(gn, gd, low, g.key, g.tag, g.sib);
    SepMk(pn, pd, t, p.key, p.tag, p.sib);
    SepOpen(t, 0);
    Alive(low);
    Alive(g.sib);
    y := pn;
    if pd != gd {
      y := pn.Link(pd);
      LiftNode(pn, y, pd, low);
      low := Lift(low, pd);
      gn.SetLink(gd, y);
    }
    gn.tag := Red;
    Paint(y, Black, low);
    low := low.(tag := Black);
    ShapeMk(gn, gd, low, g.key, Red, g.sib);
    SepMk(gn, gd, low, g.key, Red, g.sib);
    LiftNode(gn, y, gd, Fill(g.(tag := Red), low));
  }

  /** The recolouring of rb_probe: the red uncle y and the parent turn black, the grandparent red. */
  method RecolorNodes(gn: TreeNode<Color>, pn: TreeNode<Color>, y: TreeNode<Color>, ghost g: NFrame<Color>, ghost p: NFrame<Color>, ghost t: NTree<Color>)
    requires g.ref == gn && p.ref == pn && g.dir <= 1 && p.dir <= 1 && Top(g.sib) == y && t.Node?
    requires Shape(Fill(g, Fill(p, t))) && Sep(Fill(g, Fill(p, t)))
    modifies gn`tag, pn`tag, y`tag
    ensures Shape(Recolored(g, p, t)) && Top(Recolored(g, p, t)) == gn
    ensures Refs(Recolored(g, p, t)) == Refs(Fill(g, Fill(p, t))) && Sep(Recolored(g, p, t))
  {
    hide Shape, Sep, Refs;
    ghost var low, u := Fill(p, t), g.sib;
    ShapeOpen(Fill(g, low), g.dir);
    SepMk(gn, g.dir, low, g.key, g.tag, u);
    SepOpen(low, 0);
    SepOpen(u, 0);
    Alive(low);
    Alive(u);
    Paint(pn, Black, low);
    Paint(y, Black, u);
    gn.tag := Red;
    ShapeMk(gn, g.dir, low.(tag := Black), g.key, Red, Blacken(u));
    SepMk(gn, g.dir, low.(tag := Black), g.key, Red, Blacken(u));
  }

  /** The repair step of rb_probe with a red uncle. */
  method RecolorAt(gn: TreeNode<Color>, pn: TreeNode<Color>, y: TreeNode<Color>, ghost root: TreeNode<Color>, ghost cs: NPath<Color>, ghost t: NTree<Color>) returns (ghost u: NTree<Color>)
    requires Held(root, cs, t) && RedBelowRed(cs, t) && gn == cs[|cs| - 2].ref && pn == cs[|cs| - 1].ref
    requires Top(cs[|cs| - 2].sib) == y && IsRed(cs[|cs| - 2].sib)
    modifies gn`tag, pn`tag, y`tag
    ensures Held(root, cs[..|cs| - 2], u) && RbOk(u) && IsRed(u) && Wants(cs[..|cs| - 2], Bh(u))
    ensures Items(Plug(cs[..|cs| - 2], u)) == Items(Plug(cs, t)) && Refs(u) + Under(cs[..|cs| - 2]) == Refs(t) + Under(cs)
  {
    hide Balanced, NoRed2, Bh, Items, Plug, Wants, Refs, Sep, Shape, Under, PathAt, PathSep, Recolored;
    ghost var n := |cs|;
    ghost var g, p := cs[n - 2], cs[n - 1];
    u := Recolored(g, p, t);
    RecolorStep(cs, t);
    ZipTwo(root, cs, t);
    UncleInside(g, Fill(p, t));
    PlugTwo(cs, t);
    ItemsSwap(cs[..n - 2], u, Fill(g, Fill(p, t)));
    PathAlive(cs[..n - 2]);
    RecolorNodes(gn, pn, y, g, p, t);
  }

  lemma UncleInside(g: NFrame<Color>, low: NTree<Color>)
    requires g.sib.Node? && low.Node?
    ensures g.ref in Refs(Fill(g, low)) && g.sib.ref in Refs(Fill(g, low)) && low.ref in Refs(Fill(g, low))
  {
  }

  /** The repair step of rb_probe with a black uncle: y is the new top, linked below the node above. */
  method RotateAt(above: TreeNode<Color>, ad: nat, gn: TreeNode<Color>, pn: TreeNode<Color>, gd: nat, pd: nat, ghost root: TreeNode<Color>, ghost cs: NPath<Color>, ghost t: NTree<Color>)
    returns (ghost u: NTree<Color>)
    requires Held(root, cs, t) && RedBelowRed(cs, t) && !IsRed(cs[|cs| - 2].sib)
    requires gn == cs[|cs| - 2].ref && pn == cs[|cs| - 1].ref && gd == cs[|cs| - 2].dir && pd == cs[|cs| - 1].dir
    requires above == Above(root, cs[..|cs| - 2]) && ad == AboveDir(cs[..|cs| - 2])
    modifies {gn, pn, t.ref, above}`link0, {gn, pn, t.ref, above}`link1, {gn, pn, t.ref}`tag
    ensures Held(root, cs[..|cs| - 2], u) && RbOk(u) && !IsRed(u) && Wants(cs[..|cs| - 2], Bh(u))
    ensures Items(Plug(cs[..|cs| - 2], u)) == Items(Plug(cs, t)) && Refs(u) + Under(cs[..|cs| - 2]) == Refs(t) + Under(cs)
  {
    hide Balanced, NoRed2, Bh, Items, Plug, Wants, Refs, Sep, Shape, Under, PathAt, PathSep, Rotated;
    ghost var n := |cs|;
    ghost var g, p := cs[n - 2], cs[n - 1];
    u := Rotated(g, p, t);
    RotateStep(cs, t);
    ZipTwo(root, cs, t);
    InnerInside(g, p, t);
    PlugTwo(cs, t);
    ItemsSwap(cs[..n - 2], u, Fill(g, Fill(p, t)));
    PathAlive(cs[..n - 2]);
    AboveOutside(root, cs[..n - 2]);
    var y := RotateNodes(gn, pn, gd, pd, g, p, t);
    Alive(u);
    SetHole(above, ad, y, root, cs[..n - 2], gn);
  }

  lemma InnerInside(g: NFrame<Color>, p: NFrame<Color>, t: NTree<Color>)
    requires t.Node?
    ensures g.ref in Refs(Fill(g, Fill(p, t))) && p.ref in Refs(Fill(g, Fill(p, t))) && t.ref in Refs(Fill(g, Fill(p, t)))
  {
    assert t.ref in Refs(t) && t.ref in Refs(Fill(p, t)) && p.ref in Refs(Fill(p, t));
  }

  /** The path is a red node's, or the hole may keep its red tree, or the path is used up. */
  lemma {:induction false} LastIsBlack(cs: NPath<Color>, t: NTree<Color>)
    requires Wants(cs, Bh(t)) && (|cs| >= 2 ==> cs[|cs| - 1].tag == Black)
    ensures cs != [] ==> MayHold(cs, t)
  {
  }

  /** The loop of rb_probe that repairs a red node below a red node. */
  method Repair(pa: array<TreeNode<Color>>, da: array<nat>, k0: nat, ghost root: TreeNode<Color>, ghost cs0: NPath<Color>, ghost t0: NTree<Color>)
    returns (ghost cs: NPath<Color>, ghost t: NTree<Color>)
    requires Held(root, cs0, t0) && RbOk(t0) && IsRed(t0) && Wants(cs0, Bh(t0)) && OnStack(pa, da, root, cs0) && k0 == |cs0| + 1
    modifies ({root} + Refs(t0) + Under(cs0))`link0, ({root} + Refs(t0) + Under(cs0))`link1, (Refs(t0) + Under(cs0))`tag
    ensures Held(root, cs, t) && RbOk(t) && Wants(cs, Bh(t)) && (cs != [] ==> MayHold(cs, t))
    ensures Items(Plug(cs, t)) == Items(Plug(cs0, t0)) && Refs(t) + Under(cs) == Refs(t0) + Under(cs0)
  {
    hide Balanced, NoRed2, Bh, Items, Plug, Wants, Refs, Sep, Shape, Under, PathAt, PathSep, Held, OnStack;
    Alive(t0);
    PathAlive(cs0);
    ghost var all := Refs(t0) + Under(cs0);
    var k := k0;
    cs, t := cs0, t0;
    while true
      invariant Held(root, cs, t) && RbOk(t) && IsRed(t) && Wants(cs, Bh(t)) && OnStack(pa, da, root, cs) && k == |cs| + 1
      invariant Items(Plug(cs, t)) == Items(Plug(cs0, t0)) && Refs(t) + Under(cs) == all
      decreases k
    {
      if k < 3 {
        LastIsBlack(cs, t);
        return;
      }
      LastTwo(root, cs, t);
      StackTwo(pa, da, root, cs);
      UpperWithin(cs);
      if pa[k - 1].tag != Red {
        LastIsBlack(cs, t);
        return;
      }
      var gd := da[k - 2];
      var y := pa[k - 2].Link(1 - gd);
      if y != null && y.tag == Red {
        t := RecolorAt(pa[k - 2], pa[k - 1], y, root, cs, t);
        k := k - 2;
        cs := cs[..|cs| - 2];
      } else {
        AboveOutside(root, cs[..|cs| - 2]);
        TopInside(t);
        t := RotateAt(pa[k - 3], da[k - 3], pa[k - 2], pa[k - 1], gd, da[k - 1], root, cs, t);
        cs := cs[..|cs| - 2];
        return;
      }
    }
  }

  /** The repaired tree keeps all rules but perhaps the black root. */
  lemma {:induction false} WholeOk(root: TreeNode<Color>, cs: NPath<Color>, t: NTree<Color>)
    requires Held(root, cs, t) && RbOk(t) && Wants(cs, Bh(t)) && (cs != [] ==> MayHold(cs, t))
    ensures Held(root, [], Plug(cs, t)) && RbOk(Plug(cs, t)) && Refs(Plug(cs, t)) == Refs(t) + Under(cs)
    ensures RbOk(Blacken(Plug(cs, t))) && !IsRed(Blacken(Plug(cs, t))) && Items(Blacken(Plug(cs, t))) == Items(Plug(cs, t))
  {
    hide Balanced, NoRed2, Bh, Items, Wants, Refs, Sep, Shape, Under, PathAt, PathSep, Held;
    ZipAll(root, cs, t);
    if cs == [] {
      assert Plug(cs, t) == t;
    } else {
      PlugRb(cs, t);
    }
    BlackenFacts(Plug(cs, t));
  }

  /** tree->rb_root->tag = RB_BLACK, and what the table then holds. */
  method BlackenRoot(table: RbTable, ghost whole: NTree<Color>)
    requires Held(table.rb_root, [], whole) && whole.Node?
    requires RbOk(Blacken(whole)) && !IsRed(Blacken(whole)) && StrictlySorted(Items(Blacken(whole)))
    requires table.rb_count == |Items(Blacken(whole))|
    modifies table`tree, whole.ref`tag
    ensures table.Valid() && table.tree == Blacken(whole) && Refs(table.tree) == Refs(whole)
  {
    hide Balanced, NoRed2, Items, Refs, Sep, Shape, StrictlySorted;
    Alive(whole);
    TopInside(whole);
    Paint(table.rb_root.link0, Black, whole);
    table.tree := Blacken(whole);
  }

  /** rb_probe: inserts item unless it is there; returns its node. With fewer than 2^23 items in the
      tree the stacks of 48 entries suffice. */
  method Probe(table: RbTable, item: int) returns (n: TreeNode<Color>)
    requires table.Valid() && |Items(table.tree)| < Pow2(23)
    modifies table`tree, table`rb_count, table`rb_generation
    modifies ({table.rb_root} + Refs(table.tree))`link0, ({table.rb_root} + Refs(table.tree))`link1, Refs(table.tree)`tag
    ensures table.Valid() && n in Refs(table.tree) && n.data == item
    ensures item in old(Items(table.tree)) ==> table.tree == old(table.tree)
    ensures table.rb_generation == old(table.rb_generation) + if item in old(Items(table.tree)) then 0 else 1
    ensures item !in old(Items(table.tree)) ==> Items(table.tree) == InsertSorted(old(Items(table.tree)), item) && fresh(n)
    ensures Elements(Items(table.tree)) == Elements(old(Items(table.tree))) + {item}
    ensures Refs(table.tree) == old(Refs(table.tree)) + {n}
  {
    hide Balanced, NoRed2, Bh, Items, Plug, Wants, Refs, Sep, Shape, Under, PathAt, PathSep, OnStack, Held, StrictlySorted, Lefts, Rights, Pow2, Height, SearchDepth;
    hide RbTable.Valid, InsertSorted;
    ghost var whole := table.tree;
    Alive(whole);
    var pa := new TreeNode<Color>[RB_MAX_HEIGHT](_ => table.rb_root);
    var da := new nat[RB_MAX_HEIGHT];
    ValidParts(table, item);
    var k, p, cs, t := Descend(table.rb_root, item, pa, da, whole);
    if p != null {
      Found(table.rb_root, cs, t, whole);
      assert Elements(Items(whole)) == Elements(Items(whole)) + {item};
      n := p;
      return;
    }
    Absent(table.rb_root, cs, whole);
    PathAlive(cs);
    AboveOutside(table.rb_root, cs);
    StackAt(pa, da, table.rb_root, cs);
    ghost var before := Under(cs);
    n := new TreeNode<Color>(item, Red);
    assert n !in before;
    SetHole(pa[k - 1], da[k - 1], n, table.rb_root, cs, null);
    NewLeaf(table.rb_root, cs, n, item, Red);
    RedLeaf(cs, n, item);
    ItemInserted(cs, item, n, Red);
    InsertSortedIsUnion(Items(whole), item);
    t := Node(n, Leaf, item, Red, Leaf);
    table.rb_count := table.rb_count + 1;
    table.rb_generation := table.rb_generation + 1;
    ghost var ds, u := Repair(pa, da, k, table.rb_root, cs, t);
    WholeOk(table.rb_root, ds, u);
    HasNode(Plug(ds, u));
    BlackenRoot(table, Plug(ds, u));
  }

  lemma ValidParts(table: RbTable, item: int)
    requires table.Valid()
    ensures Held(table.rb_root, [], table.tree) && RbOk(table.tree) && !IsRed(table.tree)
    ensures StrictlySorted(Items(table.tree)) && table.rb_count == |Items(table.tree)|
    ensures |Items(table.tree)| < Pow2(23) ==> Height(table.tree) + 2 <= RB_MAX_HEIGHT
    ensures SearchDepth(table.tree, item) <= Height(table.tree)
  {
    hide Pow2, Height;
    if |Items(table.tree)| < Pow2(23) {
      RbModel.Low(table.tree);
    }
    SearchDepthBound(table.tree, item);
  }

  /** The new red node, in the place the search has ended in. */
  lemma {:induction false} RedLeaf(cs: NPath<Color>, n: TreeNode<Color>, item: int)
    requires RbOk(Plug(cs, Leaf)) && !IsRed(Plug(cs, Leaf))
    ensures var t: NTree<Color> := Node(n, Leaf, item, Red, Leaf);
      RbOk(t) && IsRed(t) && Wants(cs, Bh(t))
  {
    UnplugRb(cs, Leaf);
  }
}
