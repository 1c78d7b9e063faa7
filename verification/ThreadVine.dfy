/** tbst.c: tbst_balance. The vine and the balanced tree have threads to the neighbours in order wherever
    a child is missing. The field for balance factors is not used by these nodes. */
module ThreadVine {
  import opened Seqs
  import opened Powers
  import opened Trees
  import opened TagHeap
  import opened TagTurn
  import opened TavlSplice
  import opened TavlInsert
  import opened VineModel
  import VineHeap

  /** struct tbst_table. */
  class TbstTable {
    const tbst_root: TagNode
    var tbst_count: nat
    ghost var tree: TTree

    constructor ()
      ensures Valid() && Items(tree) == [] && fresh(tbst_root)
    {
      tbst_root := new TagNode(0);
      tbst_count, tree := 0, Leaf;
    }

    ghost predicate Valid()
      reads this, tbst_root, Refs(tree)
    {
      Held(tbst_root, [], tree) && tbst_count == |Items(tree)|
    }
  }

  /* ---- tree_to_vine ---- */

  /** Nodes that wait for their left links, nearest last: each with its right subtree, which lies in
      memory and whose last thread leads to the node that waits before it. */
  ghost predicate Pend(cs: TPath)
    reads Under(cs)
    decreases |cs|
  {
    cs == [] ||
    var us, f := cs[..|cs| - 1], cs[|cs| - 1];
    f.dir == 0 && f.ref.data == f.key && f.ref.balance == f.tag && Side(f.ref, 1, Top(f.sib), Edge(us, 1)) && Shape(f.sib, f.ref, Edge(us, 1))
    && Pend(us)
  }

  /** A subtree t behind lo, and the nodes that wait behind it. */
  ghost predicate Rest(lo: TagNode?, cs: TPath, t: TTree, items: seq<int>, all: set<TagNode>)
    reads Under(cs), Refs(t)
  {
    && Shape(t, lo, Edge(cs, 1)) && Pend(cs) && Sep(t) && PathSep(cs) && Refs(t) !! Under(cs)
    && Items(t) + Rights(cs) == items && Refs(t) + Under(cs) == all
  }

  /** One node down to the left. */
  lemma {:induction false} StepLeft(lo: TagNode?, cs: TPath, t: TTree, items: seq<int>, all: set<TagNode>) returns (f: TFrame)
    requires Rest(lo, cs, t, items, all) && t.Node?
    ensures f == Frame(t.ref, 0, t.key, t.tag, t.right) && Rest(lo, cs + [f], t.left, items, all) && Edge(cs + [f], 1) == t.ref
    ensures t.ref.tag0 == THREAD <==> t.left.Leaf?
    ensures t.left.Node? ==> t.ref.link0 == t.left.ref
  {
    hide Edge;
    f := Frame(t.ref, 0, t.key, t.tag, t.right);
    var ds := cs + [f];
    assert ds[..|cs|] == cs && ds[|cs|] == f;
    EdgePush(cs, f, 1);
    assert Items(t) + Rights(cs) == Items(t.left) + Rights(ds);
  }

  /** while (q->tbst_tag[0] == TBST_CHILD) q = q->tbst_link[0]. */
  method ToLeast(q0: TagNode, ghost lo: TagNode?, ghost cs0: TPath, ghost t0: TTree, ghost items: seq<int>, ghost all: set<TagNode>)
    returns (q: TagNode, ghost cs: TPath, ghost t: TTree)
    requires Rest(lo, cs0, t0, items, all) && t0.Node? && t0.ref == q0
    ensures Rest(lo, cs, t, items, all) && t.Node? && t.ref == q && t.left.Leaf?
  {
    hide Rest, Edge;
    q, cs, t := q0, cs0, t0;
    ghost var f := StepLeft(lo, cs, t, items, all);
    while q.tag0 == CHILD
      invariant Rest(lo, cs, t, items, all) && t.Node? && t.ref == q && f == Frame(t.ref, 0, t.key, t.tag, t.right)
      invariant Rest(lo, cs + [f], t.left, items, all) && (q.tag0 == THREAD <==> t.left.Leaf?)
      invariant t.left.Node? ==> q.link0 == t.left.ref
      decreases t
    {
      cs, t := cs + [f], t.left;
      q := q.link0;
      f := StepLeft(lo, cs, t, items, all);
    }
  }

  lemma RestParts(lo: TagNode?, cs: TPath, t: TTree, items: seq<int>, all: set<TagNode>)
    requires Rest(lo, cs, t, items, all)
    ensures Shape(t, lo, Edge(cs, 1)) && Pend(cs) && Sep(t) && PathSep(cs) && Refs(t) !! Under(cs)
    ensures Items(t) + Rights(cs) == items && Refs(t) + Under(cs) == all
  {
  }

  /** The right subtree of a node, as what is left behind it. */
  lemma {:induction false} OpenRight(cs: TPath, t: TTree, items: seq<int>, all: set<TagNode>)
    requires Rest(null, cs, t, items, all) && t.Node? && t.right.Node?
    ensures Rest(t.ref, cs, t.right, Items(t.right) + Rights(cs), Refs(t.right) + Under(cs))
    ensures t.ref.tag1 == CHILD && t.ref.link1 == t.right.ref
  {
    hide Edge, Pend, PathSep, Under, Rights;
  }

  /** p->tbst_tag[1] = TBST_THREAD, p->tbst_link[1] = q. */
  method CutRight(p: TagNode, q: TagNode, ghost cs: TPath, ghost ds: TPath, ghost t: TTree, ghost items: seq<int>, ghost all: set<TagNode>) returns (ghost u: TTree)
    requires Rest(null, cs, t, items, all) && t.Node? && t.ref == p && t.right.Node?
    requires Rest(p, ds, Leaf, Items(t.right) + Rights(cs), Refs(t.right) + Under(cs)) && Edge(ds, 1) == q
    modifies p`tag1, p`link1
    ensures u == Node(p, t.left, t.key, t.tag, Leaf) && Rest(null, ds, u, items, all)
  {
    hide Edge, Pend, PathSep, Under, Rights, Shape, Sep, Refs;
    RestParts(null, cs, t, items, all);
    RestParts(p, ds, Leaf, Items(t.right) + Rights(cs), Refs(t.right) + Under(cs));
    ShapeOpen(t, 0, null, Edge(cs, 1));
    SepOpen(t, 0);
    Alive(t.left);
    PathAlive(ds);
    NoRefs(Leaf);
    p.tag1 := THREAD;
    p.link1 := q;
    u := Node(p, t.left, t.key, t.tag, Leaf);
    EmptyShape(Leaf, p, q);
    ShapeMk(p, 0, t.left, t.key, t.tag, Leaf, null, q);
    SepMk(p, 0, t.left, t.key, t.tag, Leaf);
    EmptySep();
    assert Rights(ds) == Items(t.right) + Rights(cs);
    assert Items(u) == Items(t.left) + [t.key];
    assert Items(t) + Rights(cs) == Items(t.left) + [t.key] + (Items(t.right) + Rights(cs));
  }

  lemma EmptySep()
    ensures Sep<TagNode, int>(Leaf) && Items<TagNode, int>(Leaf) == [] && Refs<TagNode, int>(Leaf) == {}
  {
  }

  /** q->tbst_tag[0] = TBST_CHILD, q->tbst_link[0] = p. */
  method Attach(p: TagNode, q: TagNode, ghost cs: TPath, ghost t: TTree, ghost items: seq<int>, ghost all: set<TagNode>) returns (ghost us: TPath, ghost u: TTree)
    requires Rest(null, cs, t, items, all) && t.Node? && t.ref == p && cs != [] && cs[|cs| - 1].ref == q
    modifies q`tag0, q`link0
    ensures us == cs[..|cs| - 1] && u == Node(q, t, cs[|cs| - 1].key, cs[|cs| - 1].tag, cs[|cs| - 1].sib) && Rest(null, us, u, items, all)
  {
    hide Shape, Sep, Refs;
    ghost var f := cs[|cs| - 1];
    us := cs[..|cs| - 1];
    RestParts(null, cs, t, items, all);
    LastPends(cs, t);
    Alive(t);
    Alive(f.sib);
    PathAlive(us);
    q.tag0 := CHILD;
    q.link0 := p;
    u := Node(q, t, f.key, f.tag, f.sib);
    ShapeMk(q, 0, t, f.key, f.tag, f.sib, null, Edge(us, 1));
    SepMk(q, 0, t, f.key, f.tag, f.sib);
    assert Items(u) + Rights(us) == Items(t) + Rights(cs);
  }

  /** The nearest node that waits. */
  lemma {:induction false} LastPends(cs: TPath, t: TTree)
    requires cs != [] && Pend(cs) && PathSep(cs) && Refs(t) !! Under(cs)
    ensures var us, f := cs[..|cs| - 1], cs[|cs| - 1];
      && f.dir == 0 && f.ref.data == f.key && f.ref.balance == f.tag && Side(f.ref, 1, Top(f.sib), Edge(us, 1)) && Shape(f.sib, f.ref, Edge(us, 1))
      && Pend(us) && PathSep(us) && Sep(f.sib) && f.ref !in Refs(f.sib) && f.ref !in Under(us) && Refs(f.sib) !! Under(us)
      && f.ref !in Refs(t) && Refs(f.sib) !! Refs(t) && Refs(t) !! Under(us) && Under(cs) == Under(us) + {f.ref} + Refs(f.sib)
      && Edge(cs, 1) == f.ref
  {
    hide Shape, Sep, Refs;
  }

  /** Where the loop of tree_to_vine stands: all nodes before that of t are in the vine on its left. */
  ghost predicate Threading(cs: TPath, t: TTree, items: seq<int>, all: set<TagNode>)
    reads Under(cs), Refs(t)
  {
    Rest(null, cs, t, items, all) && t.Node? && Slim(t.left, Size(t.left), 0)
  }

  lemma {:induction false} RightSide(cs: TPath, t: TTree, items: seq<int>, all: set<TagNode>)
    requires Rest(null, cs, t, items, all) && t.Node?
    ensures t.right.Node? ==> t.ref.tag1 == CHILD && t.ref.link1 == t.right.ref
    ensures t.right.Leaf? ==> t.ref.tag1 == THREAD && t.ref.link1 == Edge(cs, 1)
    ensures Edge(cs, 1) == if cs == [] then null else cs[|cs| - 1].ref
    ensures t.ref in all && (cs != [] ==> cs[|cs| - 1].ref in all)
  {
    hide PathSep, Rights;
  }

  lemma {:induction false} VineGrows(p: TagNode, t: TTree, q: TagNode, key: int, g: int, sib: TTree)
    requires t.Node? && Slim(t.left, Size(t.left), 0)
    ensures var u := Node(p, t.left, t.key, t.tag, Leaf);
      Slim(u, Size(u), 0) && Size(Node(q, u, key, g, sib).left) == Size(t.left) + 1
  {
  }

  /** The next node takes in the vine. */
  method NextNode(p: TagNode, ghost cs: TPath, ghost t: TTree, ghost items: seq<int>, ghost all: set<TagNode>)
    returns (q: TagNode?, ghost us: TPath, ghost u: TTree)
    requires Threading(cs, t, items, all) && t.ref == p
    modifies all`link0, all`link1, all`tag0, all`tag1
    ensures q == null ==> us == [] && Threading(us, u, items, all) && u.ref == p && u.left == t.left && u.right.Leaf?
    ensures q != null ==> Threading(us, u, items, all) && u.ref == q && Size(u.left) > Size(t.left)
  {
    hide Rest, Slim, Size, Edge;
    q := p.link1;
    us, u := cs, t;
    RightSide(cs, t, items, all);
    if p.tag1 == CHILD {
      OpenRight(cs, t, items, all);
      ghost var below, part := Items(t.right) + Rights(cs), Refs(t.right) + Under(cs);
      ghost var v;
      Alive(t);
      PathAlive(cs);
      q, us, v := ToLeast(q, p, cs, t.right, below, part);
      ghost var f := StepLeft(p, us, v, below, part);
      us := us + [f];
      assert v.left == Leaf;
      u := CutRight(p, q, cs, us, t, items, all);
      RightSide(us, u, items, all);
    }
    if q != null {
      ghost var f := us[|us| - 1];
      VineGrows(p, t, q, f.key, f.tag, f.sib);
      us, u := Attach(p, q, us, u, items, all);
    }
  }

  lemma VineStart(root: TagNode, whole: TTree)
    requires Held(root, [], whole)
    ensures Top(whole) == root.link0
    ensures Rest(null, [], whole, Items(whole), Refs(whole)) && root !in Refs(whole) && |Items(whole)| == Size(whole)
    ensures whole.Leaf? ==> Slim(whole, 0, 0) && Size(whole) == 0
  {
  }

  lemma ThreadingStart(cs: TPath, t: TTree, items: seq<int>, all: set<TagNode>)
    requires Rest(null, cs, t, items, all) && t.Node? && t.left.Leaf?
    ensures Threading(cs, t, items, all)
  {
  }

  lemma ThreadingSize(cs: TPath, t: TTree, items: seq<int>, all: set<TagNode>)
    requires Threading(cs, t, items, all)
    ensures t.Node? && Size(t.left) < |items| && t.ref in all && Refs(t) + Under(cs) == all
  {
  }

  lemma VineDone(root: TagNode, t: TTree, items: seq<int>, all: set<TagNode>)
    requires Threading([], t, items, all) && t.right.Leaf? && root.link0 == t.ref && root !in all
    ensures Held(root, [], t) && Items(t) == items && Refs(t) == all && Slim(t, |items|, 0)
  {
  }

  /** tree_to_vine: the successors in turn take the vine so far as their left subtrees; a thread takes the
      place of each right link. */
  method TreeToVine(tree: TbstTable, ghost whole: TTree) returns (ghost u: TTree)
    requires Held(tree.tbst_root, [], whole)
    modifies ({tree.tbst_root} + Refs(whole))`link0, ({tree.tbst_root} + Refs(whole))`link1
    modifies ({tree.tbst_root} + Refs(whole))`tag0, ({tree.tbst_root} + Refs(whole))`tag1
    ensures Held(tree.tbst_root, [], u) && Items(u) == Items(whole) && Refs(u) == Refs(whole) && Slim(u, Size(whole), 0)
  {
    hide Threading, Rest, Refs, Items, Held, Slim, Size;
    ghost var items, all := Items(whole), Refs(whole);
    var root := tree.tbst_root;
    VineStart(root, whole);
    Alive(whole);
    u := whole;
    if root.link0 == null {
      return;
    }
    var p, q: TagNode?;
    ghost var cs: TPath, t;
    p, cs, t := ToLeast(root.link0, null, [], whole, items, all);
    ThreadingStart(cs, t, items, all);
    ThreadingSize(cs, t, items, all);
    q, cs, t := NextNode(p, cs, t, items, all);
    ThreadingSize(cs, t, items, all);
    while q != null
      invariant Threading(cs, t, items, all) && root !in all && t.Node? && Size(t.left) < |items|
      invariant q != null ==> t.ref == q
      invariant q == null ==> t.ref == p && cs == [] && t.right.Leaf?
      decreases |items| - Size(t.left), q != null
    {
      p := q;
      q, cs, t := NextNode(p, cs, t, items, all);
      ThreadingSize(cs, t, items, all);
    }
    ThreadingSize(cs, t, items, all);
    Alive(t);
    PathAlive(cs);
    root.link0 := p;
    u := t;
    VineDone(root, u, items, all);
  }

  /* ---- compress ---- */

  /** The links and tags of one transformation; black has a thread to red where it has no child. */
  method FoldLinks(red: TagNode, black: TagNode, threaded: bool, ghost a: TagNode?, ghost b: TagNode?, ghost c: TagNode?, ghost lo: TagNode?, ghost hi: TagNode?)
    requires red != black && Side(red, 0, black, lo) && Side(red, 1, c, hi) && Side(black, 0, a, lo) && Side(black, 1, b, red)
    requires threaded <==> b == null
    modifies {red, black}`link0, {red, black}`link1, {red, black}`tag0, {red, black}`tag1
    ensures Side(black, 0, a, lo) && Side(black, 1, red, hi) && Side(red, 0, b, black) && Side(red, 1, c, hi)
  {
    if threaded {
      red.link0 := black;
      red.tag0 := THREAD;
      black.tag1 := CHILD;
    } else {
      red.link0 := black.link1;
      black.link1 := red;
    }
  }

  method FoldTree(red: TagNode, black: TagNode, threaded: bool, ghost t: TTree, ghost lo: TagNode?, ghost hi: TagNode?)
    requires Shape(t, lo, hi) && Sep(t) && t.Node? && t.left.Node? && red == t.ref && black == t.left.ref
    requires threaded <==> t.left.right.Leaf?
    modifies {red, black}`link0, {red, black}`link1, {red, black}`tag0, {red, black}`tag1
    ensures Shape(Lift(t, 0), lo, hi) && Sep(Lift(t, 0)) && Refs(Lift(t, 0)) == Refs(t)
  {
    hide Shape, Sep, Refs, Side;
    ghost var y := t.left;
    ghost var a, b, c := y.left, y.right, t.right;
    ShapeOpen(t, 0, lo, hi);
    ShapeOpen(y, 0, lo, red);
    SepOpen(t, 0);
    SepOpen(y, 0);
    Alive(a);
    Alive(b);
    Alive(c);
    FoldLinks(red, black, threaded, Top(a), Top(b), Top(c), lo, hi);
    ghost var low := Mk(red, 0, b, t.key, t.tag, c);
    ShapeMk(red, 0, b, t.key, t.tag, c, black, hi);
    ShapeMk(black, 0, a, y.key, y.tag, low, lo, hi);
    SepMk(red, 0, b, t.key, t.tag, c);
    SepMk(black, 0, a, y.key, y.tag, low);
  }

  /** Where compress stands: x is the node above the rest t of the spine, of which left pairs are still to
      be folded; the first a nodes of the rest have right children. */
  ghost predicate Folding(root: TagNode, x: TagNode, cs: TPath, t: TTree, left: nat, a: nat, goal: TTree, all: set<TagNode>)
    reads root, Under(cs), Refs(t)
  {
    && Held(root, cs, t) && x == Above(root, cs) && AboveDir(cs) == 0 && SpineLength(t) >= 2 * left && Fertile(t, 2 * left, a)
    && Plug(cs, Compress(t, left)) == goal && Refs(t) + Under(cs) == all
  }

  lemma FoldReads(root: TagNode, x: TagNode, cs: TPath, t: TTree, left: nat, a: nat, goal: TTree, all: set<TagNode>)
    requires Folding(root, x, cs, t, left, a, goal, all) && left > 0
    ensures t.Node? && t.left.Node? && SpineLength(t.left.left) >= 2 * (left - 1)
    ensures x.link0 == t.ref && t.ref.link0 == t.left.ref && t.ref in Refs(t) && t.left.ref in Refs(t)
  {
    assert SpineLength(t) == 1 + SpineLength(t.left) && SpineLength(t.left) == 1 + SpineLength(t.left.left);
    assert t.left.ref in Refs(t.left);
    if cs != [] {
      assert Side(cs[|cs| - 1].ref, 0, Top(t), Edge(cs[..|cs| - 1], 0));
    }
  }

  lemma FoldParts(root: TagNode, cs: TPath, t: TTree)
    requires Held(root, cs, t)
    ensures PathAt(root, cs, Top(t)) && Shape(t, Edge(cs, 0), Edge(cs, 1)) && PathSep(cs) && Sep(t) && Refs(t) !! Under(cs)
    ensures root !in Under(cs) && root !in Refs(t)
  {
  }

  /** One transformation of compress. */
  method FoldPair(x: TagNode, threaded: bool, ghost root: TagNode, ghost cs: TPath, ghost t: TTree, ghost left: nat, ghost a: nat, ghost goal: TTree, ghost all: set<TagNode>)
    returns (black: TagNode, ghost ds: TPath, ghost u: TTree)
    requires Folding(root, x, cs, t, left, a, goal, all) && left > 0 && (threaded <==> a < 2)
    modifies ({root} + all)`link0, ({root} + all)`link1, ({root} + all)`tag0, ({root} + all)`tag1
    ensures Folding(root, black, ds, u, left - 1, if a >= 2 then a - 2 else 0, goal, all)
  {
    hide Shape, Sep, Refs, Under, PathAt, PathSep, Plug, Held, Fertile, Edge;
    FoldReads(root, x, cs, t, left, a, goal, all);
    NextPair(t, left, a);
    PathAlive(cs);
    AboveOutside(root, cs);
    ghost var v := Lift(t, 0);
    var red := x.link0;
    black := red.link0;
    FoldParts(root, cs, t);
    FoldTree(red, black, threaded, t, Edge(cs, 0), Edge(cs, 1));
    Alive(v);
    SetHole(x, 0, black, root, cs, red);
    CloseHeld(root, cs, v);
    ghost var f := Frame(v.ref, 0, v.key, v.tag, v.right);
    Unzip(root, cs, v, 0);
    ds, u := cs + [f], v.left;
    PlugPush(cs, f, Compress(u, left - 1));
  }

  lemma FoldStart(root: TagNode, whole: TTree, count: nat, a: nat)
    requires Held(root, [], whole) && SpineLength(whole) >= 2 * count && Fertile(whole, 2 * count, a)
    ensures Folding(root, root, [], whole, count, a, Compress(whole, count), Refs(whole))
  {
  }

  lemma {:induction false} FoldDone(root: TagNode, x: TagNode, cs: TPath, t: TTree, a: nat, goal: TTree, all: set<TagNode>)
    requires Folding(root, x, cs, t, 0, a, goal, all)
    ensures Held(root, [], goal) && Refs(goal) == all
  {
    hide Shape, Sep, Refs, Under, PathAt, PathSep, Plug, Held;
    ZipAll(root, cs, t);
  }

  /** compress, from the pseudo-root on: first the pairs whose lower node has a right child, then those
      whose lower node has a thread there. */
  method CompressSpine(root: TagNode, nonthread: nat, thread: nat, ghost whole: TTree, ghost a0: nat)
    requires Held(root, [], whole) && SpineLength(whole) >= 2 * (nonthread + thread) && Fertile(whole, 2 * (nonthread + thread), a0)
    requires nonthread <= a0 / 2 && (thread > 0 ==> nonthread == a0 / 2)
    modifies ({root} + Refs(whole))`link0, ({root} + Refs(whole))`link1, ({root} + Refs(whole))`tag0, ({root} + Refs(whole))`tag1
    ensures Held(root, [], Compress(whole, nonthread + thread)) && Refs(Compress(whole, nonthread + thread)) == Refs(whole)
  {
    hide Folding, Refs, Held, Compress, Fertile;
    ghost var goal, all := Compress(whole, nonthread + thread), Refs(whole);
    ghost var a: nat := a0;
    ghost var cs: TPath, t := [], whole;
    var x, n: nat := root, nonthread;
    FoldStart(root, whole, nonthread + thread, a);
    Alive(whole);
    while n > 0
      invariant Folding(root, x, cs, t, n + thread, a, goal, all) && n <= a / 2 && (thread > 0 ==> n == a / 2)
      decreases n
    {
      x, cs, t := FoldPair(x, false, root, cs, t, n + thread, a, goal, all);
      a := a - 2;
      n := n - 1;
    }
    n := thread;
    while n > 0
      invariant Folding(root, x, cs, t, n, a, goal, all) && (n > 0 ==> a < 2)
      decreases n
    {
      x, cs, t := FoldPair(x, true, root, cs, t, n, a, goal, all);
      a := 0;
      n := n - 1;
    }
    FoldDone(root, x, cs, t, a, goal, all);
  }

  /* ---- vine_to_tree ---- */

  /** What vine_to_tree has reached: a spine of vine nodes with subtrees of height h at most, of which the
      first a are not empty. */
  ghost predicate Halving(root: TagNode, t: TTree, vine: nat, h: nat, a: nat, items: seq<int>, all: set<TagNode>)
    reads root, Refs(t)
  {
    Held(root, [], t) && Slim(t, vine, h) && Fertile(t, vine, a) && Items(t) == items && Refs(t) == all
  }

  lemma HalvingParts(root: TagNode, t: TTree, vine: nat, h: nat, a: nat, items: seq<int>, all: set<TagNode>)
    requires Halving(root, t, vine, h, a, items, all)
    ensures Held(root, [], t) && Slim(t, vine, h) && Fertile(t, vine, a) && Items(t) == items && Refs(t) == all
  {
  }

  /** The first round, on the vine itself. */
  method FirstRound(root: TagNode, n: nat, leaves: nat, ghost whole: TTree)
    requires Held(root, [], whole) && Slim(whole, n, 0) && 2 * leaves <= n && SpineLength(whole) >= 2 * leaves
    modifies ({root} + Refs(whole))`link0, ({root} + Refs(whole))`link1, ({root} + Refs(whole))`tag0, ({root} + Refs(whole))`tag1
    ensures Halving(root, Compress(whole, leaves), n - leaves, if leaves > 0 then 1 else 0, leaves, Items(whole), Refs(whole))
    ensures n == 0 ==> Compress(whole, leaves).Leaf?
  {
    hide Refs, Held, Items, Compress, Fertile;
    VineBare(whole, n);
    FertileLess(whole, n, 2 * leaves, 0);
    CompressSpine(root, 0, leaves, whole, 0);
    FirstSlims(whole, n, leaves);
    FirstFertile(whole, n, leaves);
    CompressItems(whole, leaves);
    SlimSize(whole, n);
    if n == 0 {
      SizeZero(Compress(whole, leaves));
    }
  }

  /** Any other round: the pairs with a right child at the lower node come first. */
  method NextRound(root: TagNode, nonthread: nat, thread: nat, ghost t: TTree, ghost h: nat, ghost a: nat, ghost items: seq<int>, ghost all: set<TagNode>)
    requires Halving(root, t, 2 * (nonthread + thread) + 1, h, a, items, all)
    requires nonthread <= a / 2 && (thread > 0 ==> nonthread == a / 2)
    modifies ({root} + all)`link0, ({root} + all)`link1, ({root} + all)`tag0, ({root} + all)`tag1
    ensures SpineLength(t) >= 2 * (nonthread + thread)
    ensures Halving(root, Compress(t, nonthread + thread), nonthread + thread, h + 1, nonthread + thread, items, all)
  {
    hide Refs, Held, Items, Compress, Fertile;
    ghost var m := nonthread + thread;
    RoundSlims(t, m, h);
    FertileLess(t, 2 * m + 1, 2 * m, a);
    CompressSpine(root, nonthread, thread, t, a);
    RoundFertile(t, m);
    CompressItems(t, m);
  }

  lemma {:induction false} HalvingDone(root: TagNode, t: TTree, h: nat, a: nat, items: seq<int>, all: set<TagNode>)
    requires Halving(root, t, 1, h, a, items, all) && h + 1 == LeastHeight(|items|)
    ensures Height(t) == LeastHeight(|items|)
  {
    hide Refs, Held, Items, LeastHeight;
    assert Slim(t.left, 0, h);
    LeastIsLeast(t);
  }

  /** vine_to_tree: folds a vine of count nodes into a tree of the least height with exact threads. */
  method VineToTree(tree: TbstTable, ghost whole: TTree) returns (height: nat, ghost u: TTree)
    requires Held(tree.tbst_root, [], whole) && Slim(whole, tree.tbst_count, 0)
    modifies ({tree.tbst_root} + Refs(whole))`link0, ({tree.tbst_root} + Refs(whole))`link1
    modifies ({tree.tbst_root} + Refs(whole))`tag0, ({tree.tbst_root} + Refs(whole))`tag1
    ensures Held(tree.tbst_root, [], u) && Items(u) == Items(whole) && Refs(u) == Refs(whole)
    ensures Height(u) == LeastHeight(tree.tbst_count) && (tree.tbst_count > 0 ==> height == LeastHeight(tree.tbst_count))
  {
    hide Halving, Refs, Held, Compress, Slim, Items, Height, Pow2, Log2, LeastHeight;
    var root, n := tree.tbst_root, tree.tbst_count;
    ghost var items, all := Items(whole), Refs(whole);
    SlimSize(whole, n);
    Alive(whole);
    PathAlive([]);
    var leaves := VineHeap.HighestPower(n);
    ghost var r := Log2(n + 1);
    leaves := n + 1 - leaves;
    FirstFold(whole, n, leaves, r);
    FirstRound(root, n, leaves, whole);
    u := Compress(whole, leaves);
    ghost var a := leaves;
    var vine := n - leaves;
    height := 1 + if leaves > 0 then 1 else 0;
    if vine > 1 {
      HalfVine(vine, r);
      var nonleaves := vine / 2;
      leaves := leaves / 2;
      if leaves > nonleaves {
        // the bottom level never has more nodes than the vine that is left
        assert false;
      } else {
        nonleaves := nonleaves - leaves;
      }
      NextRound(root, leaves, nonleaves, u, height - 1, a, items, all);
      u := Compress(u, vine / 2);
      vine := vine / 2;
      a := vine;
      height := height + 1;
      r := r - 1;
    }
    while vine > 1
      invariant Halving(root, u, vine, height - 1, a, items, all) && height >= 1 && (n == 0 || r >= 1)
      invariant vine + 1 == Pow2(r) && (n > 0 ==> height + r == LeastHeight(n) + 1) && (vine > 1 ==> a == vine)
      invariant n == 0 ==> vine == 0 && height == 1 && u.Leaf?
      decreases vine
    {
      HalfVine(vine, r);
      NextRound(root, vine / 2, 0, u, height - 1, a, items, all);
      u := Compress(u, vine / 2);
      vine := vine / 2;
      a := vine;
      height := height + 1;
      r := r - 1;
    }
    HalvingParts(root, u, vine, height - 1, a, items, all);
    VineEnd(u, vine, r, n);
    if n > 0 {
      HalvingDone(root, u, height - 1, a, items, all);
    }
  }

  /** tbst_balance: the same items and nodes in a tree of the least height, with exact threads. */
  method Balance(tree: TbstTable) returns (height: nat)
    requires tree.Valid()
    modifies tree`tree, ({tree.tbst_root} + Refs(tree.tree))`link0, ({tree.tbst_root} + Refs(tree.tree))`link1
    modifies ({tree.tbst_root} + Refs(tree.tree))`tag0, ({tree.tbst_root} + Refs(tree.tree))`tag1
    ensures tree.Valid() && Items(tree.tree) == old(Items(tree.tree)) && Refs(tree.tree) == old(Refs(tree.tree))
    ensures Height(tree.tree) == LeastHeight(tree.tbst_count) && (tree.tbst_count > 0 ==> height == LeastHeight(tree.tbst_count))
  {
    hide Refs, Items, Slim, Height, LeastHeight, Shape, Sep;
    ghost var whole := tree.tree;
    Alive(whole);
    SizeIs(whole);
    ghost var u := TreeToVine(tree, whole);
    Alive(u);
    height, u := VineToTree(tree, u);
    ghost var nodes: set<TagNode> := Refs(u);
    tree.tree := u;
  }

  lemma SizeIs(t: TTree)
    ensures Size(t) == |Items(t)|
  {
  }
}
