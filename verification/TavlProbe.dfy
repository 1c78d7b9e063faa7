/** tavl.c: the table, find_parent and tavl_probe. */
module TavlProbe {
  import opened Seqs
  import opened SlabModel
  import opened AddModel
  import opened Trees
  import opened AvlModel
  import opened TagHeap
  import opened TagTurn

  const TAVL_MAX_HEIGHT: nat := 32

  /** struct tavl_table. The address of tavl_root serves the source as a node whose only link is the root. */
  class TavlTable {
    const tavl_root: TagNode
    var tavl_count: nat
    ghost var tree: TTree

    constructor ()
      ensures Valid() && Items(tree) == [] && fresh(tavl_root)
    {
      tavl_root := new TagNode(0);
      tavl_count, tree := 0, Leaf;
    }

    /** Search order, exact threads and balance factors, and the count. */
    ghost predicate Valid()
      reads this, tavl_root, Refs(tree)
    {
      Held(tavl_root, [], tree) && AvlOk(tree) && StrictlySorted(Items(tree)) && tavl_count == |Items(tree)|
    }
  }

  lemma Known(table: TavlTable)
    requires table.Valid()
    ensures Held(table.tavl_root, [], table.tree) && StrictlySorted(Items(table.tree)) && AvlOk(table.tree)
    ensures table.tavl_count == |Items(table.tree)|
  {
  }

  /** Every thread of the table names the predecessor or the successor, and is null at the two ends. */
  lemma {:induction false} TableThreads(table: TavlTable, i: nat)
    requires table.Valid() && i < table.tavl_count
    ensures var nodes := Nodes(table.tree); var x := nodes[i];
      && |nodes| == table.tavl_count && x.data == Items(table.tree)[i]
      && (x.tag0 == THREAD ==> x.link0 == if i == 0 then null else nodes[i - 1])
      && (x.tag1 == THREAD ==> x.link1 == if i + 1 == |nodes| then null else nodes[i + 1])
  {
    hide StrictlySorted, AvlOk, Items, Nodes;
    ThreadsAreNeighbours(table.tree, null, null, i);
  }

  /* ---- find_parent ---- */

  /** x is the top of a subtree whose neighbour at side d is near. */
  ghost predicate OnSide(x: TagNode, u: TTree, d: nat, near: TagNode?, far: TagNode?)
    reads Refs(u)
  {
    u.Node? && u.ref == x && d <= 1 && ShapeAt(u, d, near, far)
  }

  lemma SideStep(x: TagNode, u: TTree, d: nat, near: TagNode?, far: TagNode?)
    requires OnSide(x, u, d, near, far)
    ensures u.Node?
    ensures x.Tag(d) == THREAD ==> x.Link(d) == near && Extreme(u, d) == x
    ensures x.Tag(d) == CHILD ==> x.Link(d) != null && Child(u, d).Node? && OnSide(x.Link(d), Child(u, d), d, near, x)
  {
  }

  /** while (x->tavl_tag[d] == TAVL_CHILD) x = x->tavl_link[d]. */
  method Outermost(x0: TagNode, d: nat, ghost u0: TTree, ghost near: TagNode?, ghost far0: TagNode?) returns (x: TagNode)
    requires OnSide(x0, u0, d, near, far0)
    ensures x.Link(d) == near && u0.Node? && x == Extreme(u0, d)
  {
    hide OnSide;
    x := x0;
    ghost var u, far := u0, far0;
    SideStep(x, u, d, near, far);
    while x.Tag(d) == CHILD
      invariant OnSide(x, u, d, near, far) && u.Node? && u0.Node? && Extreme(u, d) == Extreme(u0, d)
      decreases u
    {
      SideStep(x, u, d, near, far);
      u, far := Child(u, d), x;
      x := x.Link(d);
    }
    SideStep(x, u, d, near, far);
  }

  /** The neighbour at side e of the hole has its link towards the hole on the path. */
  lemma {:induction false} EdgeLeads(root: TagNode, cs: TPath, hole: TagNode, e: nat)
    requires PathAt(root, cs, hole) && PathSep(cs) && e <= 1
    ensures var p := Edge(cs, e); p != null ==> p in Under(cs) && p.Link(1 - e) != null && p.Link(1 - e) in Under(cs) + {hole}
    ensures cs != [] && cs[|cs| - 1].dir == e && Edge(cs, e) != null ==> Edge(cs, e).Link(1 - e) in Under(cs)
    ensures cs != [] && cs[|cs| - 1].dir != e ==> Edge(cs, e) == cs[|cs| - 1].ref && Edge(cs, e).Link(1 - e) == hole
    decreases |cs|
  {
    if cs != [] {
      var us, f := cs[..|cs| - 1], cs[|cs| - 1];
      if f.dir == e {
        EdgeLeads(root, us, f.ref, e);
      }
    }
  }

  /** How find_parent tells on which side of its parent a node hangs. */
  lemma {:induction false} ParentAt(root: TagNode, cs: TPath, t: TTree, e: nat)
    requires Held(root, cs, t) && t.Node? && cs != [] && e <= 1
    ensures var p, f := Edge(cs, e), cs[|cs| - 1];
      if p == null || p.Link(1 - e) != t.ref then Edge(cs, 1 - e) == f.ref else p == f.ref
    ensures Above(root, cs) == cs[|cs| - 1].ref
  {
    hide Shape;
    EdgeLeads(root, cs, t.ref, e);
    assert t.ref in Refs(t);
    assert cs[|cs| - 1].dir <= 1;
  }

  /** find_parent. */
  method FindParent(root: TagNode, node: TagNode, ghost cs: TPath, ghost t: TTree) returns (p: TagNode?)
    requires Held(root, cs, t) && t.Node? && t.ref == node
    ensures p == Above(root, cs)
  {
    hide Shape, ShapeAt, Refs, Sep, Under, PathAt, PathSep, OnSide, Edge, Held;
    if node == root.link0 {
      RootIsTop(root, cs, t);
      return root;
    }
    Sides(root, cs, t);
    ParentAt(root, cs, t, 0);
    ParentAt(root, cs, t, 1);
    var x: TagNode, y: TagNode := node, node;
    ghost var lo: TagNode?, hi: TagNode? := Edge(cs, 0), Edge(cs, 1);
    assert allocated(lo) && allocated(hi);
    ghost var tx, fx, ty, fy := t, hi, t, lo;
    while true
      invariant OnSide(x, tx, 0, lo, fx) && OnSide(y, ty, 1, hi, fy)
      decreases tx
    {
      SideStep(x, tx, 0, lo, fx);
      SideStep(y, ty, 1, hi, fy);
      if y.tag1 == THREAD {
        p := y.link1;
        if p == null || p.link0 != node {
          x := Outermost(x, 0, tx, lo, fx);
          p := x.link0;
        }
        return;
      } else if x.tag0 == THREAD {
        p := x.link0;
        if p == null || p.link1 != node {
          y := Outermost(y, 1, ty, hi, fy);
          p := y.link1;
        }
        return;
      }
      tx, fx, ty, fy := tx.left, x, ty.right, y;
      x, y := x.link0, y.link1;
    }
  }

  lemma Sides(root: TagNode, cs: TPath, t: TTree)
    requires Held(root, cs, t) && t.Node?
    ensures OnSide(t.ref, t, 0, Edge(cs, 0), Edge(cs, 1)) && OnSide(t.ref, t, 1, Edge(cs, 1), Edge(cs, 0))
    ensures cs == [] ==> root.link0 == t.ref
  {
  }

  /** Only the root of the tree is the node the pseudo-root leads to. */
  lemma {:induction false} RootIsTop(root: TagNode, cs: TPath, t: TTree)
    requires Held(root, cs, t) && t.Node? && t.ref == root.link0
    ensures cs == [] && Above(root, cs) == root
  {
    TopRef(t);
    if cs != [] {
      FirstOnPath(root, cs, t.ref);
      assert false;
    }
  }

  lemma TopRef(t: TTree)
    requires t.Node?
    ensures t.ref in Refs(t)
  {
  }

  lemma {:induction false} FirstOnPath(root: TagNode, cs: TPath, hole: TagNode)
    requires PathAt(root, cs, hole) && cs != []
    ensures root.link0 != null && root.link0 in Under(cs)
    decreases |cs|
  {
    if |cs| > 1 {
      FirstOnPath(root, cs[..|cs| - 1], cs[|cs| - 1].ref);
    }
  }
}
