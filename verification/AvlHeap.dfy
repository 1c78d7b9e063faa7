/** avl.c: the table, and the rotations as writes to the nodes. */
module AvlHeap {
  import opened Seqs
  import opened SlabModel
  import opened Trees
  import opened TreeHeap
  import opened AvlModel

  /** struct avl_table. The address of avl_root serves the source as a node whose only link is the root. */
  class AvlTable {
    const avl_root: TreeNode<int>
    var avl_count: nat
    var avl_generation: nat
    ghost var tree: NTree<int>

    constructor ()
      ensures Valid() && Items(tree) == [] && fresh(avl_root)
    {
      avl_root := new TreeNode<int>(0, 0);
      avl_count, avl_generation, tree := 0, 0, Leaf;
    }

    /** Search order, exact balance factors, and the count. */
    ghost predicate Valid()
      reads this, avl_root, Refs(tree)
    {
      Held(avl_root, [], tree) && AvlOk(tree) && StrictlySorted(Items(tree)) && avl_count == |Items(tree)|
    }
  }

  /** What a node and its two subtrees look like before a rotation; the balance factor does not matter. */
  ghost predicate Before(y: TreeNode<int>, k: int, d: nat, x: NTree<int>, b: NTree<int>)
    reads y, Refs(x), Refs(b)
  {
    && d <= 1 && y.data == k && y.Link(d) == Top(x) && y.Link(1 - d) == Top(b) && Shape(x) && Shape(b)
    && Sep(x) && Sep(b) && y !in Refs(x) && y !in Refs(b) && Refs(x) !! Refs(b)
  }

  /** The single rotation: y->avl_link[d] = x->avl_link[1 - d]; x->avl_link[1 - d] = y; and the new
      factors. */
  method RotateSingle(y: TreeNode<int>, x: TreeNode<int>, d: nat, cx: int, cy: int, ghost k: int, ghost xt: NTree<int>, ghost b: NTree<int>)
    requires Before(y, k, d, xt, b) && xt.Node? && xt.ref == x
    modifies {x, y}`link0, {x, y}`link1, {x, y}`tag
    ensures var u := Single(y, k, d, xt, b, cx, cy);
      Shape(u) && Sep(u) && Refs(u) == {y} + Refs(xt) + Refs(b) && Top(u) == x
  {
    hide Shape, Sep, Refs;
    ghost var a, c := Child(xt, d), Child(xt, 1 - d);
    ShapeOpen(xt, d);
    SepOpen(xt, d);
    Alive(a);
    Alive(b);
    Alive(c);
    y.SetLink(d, x.Link(1 - d));
    x.SetLink(1 - d, y);
    x.tag := cx;
    y.tag := cy;
    ghost var low := Mk(y, d, c, k, cy, b);
    ShapeMk(y, d, c, k, cy, b);
    ShapeMk(x, d, a, xt.key, cx, low);
    SepMk(y, d, c, k, cy, b);
    SepMk(x, d, a, xt.key, cx, low);
  }

  /** The first half of the double rotation: w comes above x. */
  method RotateInner(x: TreeNode<int>, w: TreeNode<int>, d: nat, ghost xt: NTree<int>)
    requires d <= 1 && xt.Node? && xt.ref == x && Child(xt, 1 - d).Node? && Child(xt, 1 - d).ref == w && Shape(xt) && Sep(xt)
    modifies {x, w}`link0, {x, w}`link1
    ensures Shape(Lift(xt, 1 - d)) && Sep(Lift(xt, 1 - d)) && Refs(Lift(xt, 1 - d)) == Refs(xt)
  {
    LiftNode(x, w, 1 - d, xt);
  }

  /** The new factors of a double rotation. */
  method SetFactors(y: TreeNode<int>, x: TreeNode<int>, w: TreeNode<int>, d: nat)
    requires y != x && y != w && x != w && -1 <= w.tag <= 1
    modifies {x, y, w}`tag
    ensures x.tag == if old(w.tag) == -Sign(d) then Sign(d) else 0
    ensures y.tag == if old(w.tag) == Sign(d) then -Sign(d) else 0
    ensures w.tag == 0
  {
    if w.tag == Sign(d) {
      x.tag := 0;
      y.tag := -Sign(d);
    } else if w.tag == 0 {
      x.tag := 0;
      y.tag := 0;
    } else {
      x.tag := Sign(d);
      y.tag := 0;
    }
    w.tag := 0;
  }

  /** The double rotation: w = x->avl_link[1 - d] comes above x, and then above y. */
  method RotateDouble(y: TreeNode<int>, x: TreeNode<int>, d: nat, ghost k: int, ghost xt: NTree<int>, ghost b: NTree<int>) returns (w: TreeNode<int>)
    requires Before(y, k, d, xt, b) && xt.Node? && xt.ref == x && Child(xt, 1 - d).Node? && -1 <= Child(xt, 1 - d).tag <= 1
    modifies {x, y, Child(xt, 1 - d).ref}`link0, {x, y, Child(xt, 1 - d).ref}`link1, {x, y, Child(xt, 1 - d).ref}`tag
    ensures var u := Double(y, k, d, xt, b);
      Shape(u) && Sep(u) && Refs(u) == {y} + Refs(xt) + Refs(b) && Top(u) == w
  {
    hide Shape, Sep, Refs;
    ghost var wt, a := Child(xt, 1 - d), Child(xt, d);
    ghost var p, q := Child(wt, d), Child(wt, 1 - d);
    ShapeOpen(xt, d);
    ShapeOpen(wt, d);
    SepOpen(xt, d);
    SepOpen(wt, d);
    Alive(a);
    Alive(b);
    Alive(p);
    Alive(q);
    w := x.Link(1 - d);
    x.SetLink(1 - d, w.Link(d));
    w.SetLink(d, x);
    y.SetLink(d, w.Link(1 - d));
    w.SetLink(1 - d, y);
    SetFactors(y, x, w, d);
    CloseDouble(y, x, w, d, k, xt, b);
  }

  /** The nodes as the double rotation leaves them. */
  lemma {:induction false} CloseDouble(y: TreeNode<int>, x: TreeNode<int>, w: TreeNode<int>, d: nat, k: int, xt: NTree<int>, b: NTree<int>)
    requires d <= 1 && xt.Node? && Child(xt, 1 - d).Node? && xt.ref == x && Child(xt, 1 - d).ref == w
    requires Sep(xt) && Sep(b) && y !in Refs(xt) && y !in Refs(b) && Refs(xt) !! Refs(b)
    requires Shape(Child(xt, d)) && Shape(Child(Child(xt, 1 - d), d)) && Shape(Child(Child(xt, 1 - d), 1 - d)) && Shape(b)
    requires x.data == xt.key && w.data == Child(xt, 1 - d).key && y.data == k
    requires x.Link(d) == Top(Child(xt, d)) && x.Link(1 - d) == Top(Child(Child(xt, 1 - d), d))
    requires y.Link(d) == Top(Child(Child(xt, 1 - d), 1 - d)) && y.Link(1 - d) == Top(b) && w.Link(d) == x && w.Link(1 - d) == y
    requires x.tag == if Child(xt, 1 - d).tag == -Sign(d) then Sign(d) else 0
    requires y.tag == if Child(xt, 1 - d).tag == Sign(d) then -Sign(d) else 0
    requires w.tag == 0
    ensures var u := Double(y, k, d, xt, b);
      Shape(u) && Sep(u) && Refs(u) == {y} + Refs(xt) + Refs(b) && Top(u) == w
  {
    hide Shape, Sep, Refs;
    var wt, a := Child(xt, 1 - d), Child(xt, d);
    var p, q := Child(wt, d), Child(wt, 1 - d);
    SepOpen(xt, d);
    SepOpen(wt, d);
    var l, r := Mk(x, d, a, xt.key, x.tag, p), Mk(y, d, q, k, y.tag, b);
    ShapeMk(x, d, a, xt.key, x.tag, p);
    ShapeMk(y, d, q, k, y.tag, b);
    ShapeMk(w, d, l, wt.key, 0, r);
    SepMk(x, d, a, xt.key, x.tag, p);
    SepMk(y, d, q, k, y.tag, b);
    SepMk(w, d, l, wt.key, 0, r);
  }
}
