/** The nodes of the balanced trees, and how a tree or a path into it lies in memory. */
module TreeHeap {
  import opened Seqs
  import opened Trees

  /** struct rb_node or avl_node: the tag is the colour or the balance factor. The two entries of the link
      array are two fields. */
  class TreeNode<C> {
    var link0: TreeNode?<C>
    var link1: TreeNode?<C>
    var data: int
    var tag: C

    constructor (data: int, tag: C)
      ensures link0 == null && link1 == null && this.data == data && this.tag == tag
    {
      this.link0, this.link1, this.data, this.tag := null, null, data, tag;
    }

    function Link(d: nat): TreeNode?<C>
      reads this
    {
      if d == 0 then link0 else link1
    }

    method SetLink(d: nat, x: TreeNode?<C>)
      modifies `link0, `link1
      ensures d == 0 ==> link0 == x && link1 == old(link1)
      ensures d != 0 ==> link1 == x && link0 == old(link0)
    {
      if d == 0 {
        link0 := x;
      } else {
        link1 := x;
      }
    }
  }

  type NTree<C> = Tree<TreeNode<C>, C>
  type NPath<C> = seq<NFrame<C>>
  type NFrame<C> = Frame<TreeNode<C>, C>

  ghost function Top<C>(t: NTree<C>): TreeNode?<C> {
    if t.Leaf? then null else t.ref
  }

  /** The tree t lies in memory. */
  ghost predicate Shape<C>(t: NTree<C>)
    reads Refs(t)
  {
    t.Leaf? || (
      && t.ref.data == t.key && t.ref.tag == t.tag
      && t.ref.link0 == Top(t.left) && t.ref.link1 == Top(t.right) && Shape(t.left) && Shape(t.right))
  }

  ghost predicate FrameAt<C>(f: NFrame<C>, hole: TreeNode?<C>)
    reads f.ref, Refs(f.sib)
  {
    && f.ref.data == f.key && f.ref.tag == f.tag
    && f.ref.Link(f.dir) == hole && f.ref.Link(if f.dir == 0 then 1 else 0) == Top(f.sib) && Shape(f.sib)
  }

  /** The path lies in memory: it starts at the pseudo-root, whose link 0 is the root of the tree, and
      ends in the hole. */
  ghost predicate PathAt<C>(root: TreeNode<C>, cs: NPath<C>, hole: TreeNode?<C>)
    reads root, Under(cs)
    decreases |cs|
  {
    if cs == [] then root.link0 == hole
    else FrameAt(cs[|cs| - 1], hole) && PathAt(root, cs[..|cs| - 1], cs[|cs| - 1].ref)
  }

  /** A path and the tree in its hole lie in memory, without overlap. */
  ghost predicate Held<C>(root: TreeNode<C>, cs: NPath<C>, t: NTree<C>)
    reads root, Under(cs), Refs(t)
  {
    && PathAt(root, cs, Top(t)) && Shape(t) && PathSep(cs) && Sep(t) && Refs(t) !! Under(cs)
    && root !in Under(cs) && root !in Refs(t)
  }

  /** The node the hole hangs at, and the link it hangs at. */
  ghost function Above<C>(root: TreeNode<C>, cs: NPath<C>): TreeNode<C> {
    if cs == [] then root else cs[|cs| - 1].ref
  }

  /** Moving the lowest node of the path into the tree in the hole. */
  lemma {:induction false} Zip<C>(root: TreeNode<C>, cs: NPath<C>, t: NTree<C>)
    requires cs != [] && Held(root, cs, t)
    ensures Held(root, cs[..|cs| - 1], Fill(cs[|cs| - 1], t))
    ensures Refs(Fill(cs[|cs| - 1], t)) + Under(cs[..|cs| - 1]) == Refs(t) + Under(cs)
  {
  }

  /** Moving the top node of the tree in the hole onto the path. */
  lemma {:induction false} Unzip<C>(root: TreeNode<C>, cs: NPath<C>, t: NTree<C>, d: nat)
    requires t.Node? && d <= 1 && Held(root, cs, t)
    ensures Held(root, cs + [Frame(t.ref, d, t.key, t.tag, Child(t, 1 - d))], Child(t, d))
    ensures Refs(Child(t, d)) + Under(cs + [Frame(t.ref, d, t.key, t.tag, Child(t, 1 - d))]) == Refs(t) + Under(cs)
  {
    var f := Frame(t.ref, d, t.key, t.tag, Child(t, 1 - d));
    assert (cs + [f])[..|cs|] == cs;
  }

  lemma {:induction false} ZipAll<C>(root: TreeNode<C>, cs: NPath<C>, t: NTree<C>)
    requires Held(root, cs, t)
    ensures Held(root, [], Plug(cs, t)) && Refs(Plug(cs, t)) == Refs(t) + Under(cs)
    decreases |cs|
  {
    if cs != [] {
      Zip(root, cs, t);
      ZipAll(root, cs[..|cs| - 1], Fill(cs[|cs| - 1], t));
    }
  }

  /* ---- nodes and trees ---- */

  lemma {:induction false} ShapeMk<C>(r: TreeNode<C>, d: nat, a: NTree<C>, k: int, c: C, b: NTree<C>)
    requires d <= 1 && r.data == k && r.tag == c && r.Link(d) == Top(a) && r.Link(1 - d) == Top(b) && Shape(a) && Shape(b)
    ensures Shape(Mk(r, d, a, k, c, b)) && Top(Mk(r, d, a, k, c, b)) == r
  {
  }

  lemma {:induction false} ShapeOpen<C>(t: NTree<C>, d: nat)
    requires t.Node? && d <= 1 && Shape(t)
    ensures t.ref.data == t.key && t.ref.tag == t.tag
    ensures t.ref.Link(d) == Top(Child(t, d)) && t.ref.Link(1 - d) == Top(Child(t, 1 - d))
    ensures Shape(Child(t, d)) && Shape(Child(t, 1 - d))
  {
  }

  /** What a tree or a path mentions is allocated: needed to see that a call leaves it alone. */
  lemma Alive<C>(t: NTree<C>)
    ensures allocated(Refs(t))
  {
  }

  lemma PathAlive<C>(cs: NPath<C>)
    ensures allocated(Under(cs))
  {
  }

  /** A rotation: the child y of x at link e comes above x. */
  method LiftNode<C>(x: TreeNode<C>, y: TreeNode<C>, e: nat, ghost t: NTree<C>)
    requires e <= 1 && t.Node? && Child(t, e).Node? && t.ref == x && Child(t, e).ref == y && Shape(t) && Sep(t)
    modifies x`link0, x`link1, y`link0, y`link1
    ensures Shape(Lift(t, e)) && Sep(Lift(t, e)) && Refs(Lift(t, e)) == Refs(t) && Top(Lift(t, e)) == y
  {
    hide Shape, Sep, Refs;
    ghost var u := Child(t, e);
    ghost var a, b, c := Child(u, e), Child(u, 1 - e), Child(t, 1 - e);
    ShapeOpen(t, e);
    ShapeOpen(u, e);
    SepOpen(t, e);
    SepOpen(u, e);
    Alive(a);
    Alive(b);
    Alive(c);
    x.SetLink(e, y.Link(1 - e));
    y.SetLink(1 - e, x);
    ShapeMk(x, e, b, t.key, t.tag, c);
    ShapeMk(y, e, a, u.key, u.tag, Mk(x, e, b, t.key, t.tag, c));
    SepMk(x, e, b, t.key, t.tag, c);
    SepMk(y, e, a, u.key, u.tag, Mk(x, e, b, t.key, t.tag, c));
  }

  /** Colouring the top node of a tree. */
  method Paint<C>(x: TreeNode<C>, c: C, ghost t: NTree<C>)
    requires t.Node? && t.ref == x && Shape(t) && Sep(t)
    modifies x`tag
    ensures Shape(t.(tag := c)) && Sep(t.(tag := c)) && Refs(t.(tag := c)) == Refs(t)
  {
    hide Shape, Sep, Refs;
    ShapeOpen(t, 0);
    SepOpen(t, 0);
    x.tag := c;
    ShapeMk(x, 0, t.left, t.key, c, t.right);
    SepMk(x, 0, t.left, t.key, c, t.right);
  }

  /** The node t and its child at link e in other colours. */
  function Repaint<C>(t: NTree<C>, e: nat, c: C, childC: C): NTree<C>
    requires e <= 1 && t.Node? && Child(t, e).Node?
  {
    Mk(t.ref, e, Child(t, e).(tag := childC), t.key, c, Child(t, 1 - e))
  }

  /** Colours x and its child y at link e, and rotates y above x. */
  method LiftPainted<C>(x: TreeNode<C>, y: TreeNode<C>, e: nat, c: C, childC: C, ghost t: NTree<C>)
    requires e <= 1 && t.Node? && Child(t, e).Node? && t.ref == x && Child(t, e).ref == y && Shape(t) && Sep(t)
    modifies {x, y}`link0, {x, y}`link1, {x, y}`tag
    ensures var u := Lift(Repaint(t, e, c, childC), e);
      Shape(u) && Sep(u) && Refs(u) == Refs(t) && Top(u) == y
  {
    hide Shape, Sep, Refs;
    ghost var low, b := Child(t, e), Child(t, 1 - e);
    ShapeOpen(t, e);
    SepOpen(t, e);
    Alive(low);
    Alive(b);
    SepOpen(low, 0);
    Paint(y, childC, low);
    x.tag := c;
    ShapeMk(x, e, low.(tag := childC), t.key, c, b);
    SepMk(x, e, low.(tag := childC), t.key, c, b);
    LiftNode(x, y, e, Repaint(t, e, c, childC));
  }

  /* ---- paths in two parts ---- */

  /** The lower part of a path lies in memory. */
  ghost predicate SegAt<C>(ws: NPath<C>, hole: TreeNode?<C>)
    reads Under(ws)
    decreases |ws|
  {
    ws == [] || (FrameAt(ws[|ws| - 1], hole) && SegAt(ws[..|ws| - 1], ws[|ws| - 1].ref))
  }

  ghost function First<C>(ws: NPath<C>, hole: TreeNode?<C>): TreeNode?<C> {
    if ws == [] then hole else ws[0].ref
  }

  lemma {:induction false} PathSplit<C>(root: TreeNode<C>, us: NPath<C>, ws: NPath<C>, hole: TreeNode?<C>)
    ensures PathAt(root, us + ws, hole) <==> PathAt(root, us, First(ws, hole)) && SegAt(ws, hole)
    decreases |ws|
  {
    if ws == [] {
      assert us + ws == us;
    } else {
      var n := |ws| - 1;
      assert (us + ws)[..|us| + n] == us + ws[..n];
      PathSplit(root, us, ws[..n], ws[n].ref);
    }
  }

}
