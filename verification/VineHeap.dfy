/** bst.c: bst_balance, by way of a vine. */
module VineHeap {
  import opened Seqs
  import opened Powers
  import opened Trees
  import opened TreeHeap
  import opened TreeStack
  import opened VineModel

  type BstPath = NPath<()>
  type BstTree = NTree<()>

  const BST_MAX_HEIGHT: nat := 32

  /** struct bst_table. */
  class BstTable {
    const bst_root: TreeNode<()>
    var bst_count: nat
    var bst_generation: nat
    ghost var tree: BstTree

    constructor ()
      ensures Valid() && Items(tree) == [] && fresh(bst_root)
    {
      bst_root := new TreeNode<()>(0, ());
      bst_count, bst_generation, tree := 0, 0, Leaf;
    }

    ghost predicate Valid()
      reads this, bst_root, Refs(tree)
    {
      Held(bst_root, [], tree) && bst_count == |Items(tree)|
    }
  }

  /** A path down to the left along nodes without right subtrees. */
  ghost predicate Bare(cs: BstPath) {
    forall i :: 0 <= i < |cs| ==> cs[i].dir == 0 && cs[i].sib.Leaf?
  }

  /** Where tree_to_vine stands: cs is the vine so far, t what is left to do. */
  ghost predicate Vining(root: TreeNode<()>, cs: BstPath, t: BstTree, items: seq<int>, all: set<TreeNode<()>>)
    reads root, Under(cs), Refs(t)
  {
    Held(root, cs, t) && Bare(cs) && Items(Plug(cs, t)) == items && Refs(t) + Under(cs) == all
  }

  /** The rotation of tree_to_vine: the right child r comes above p, below q. */
  method RotateUp(q: TreeNode<()>, p: TreeNode<()>, r: TreeNode<()>, ghost root: TreeNode<()>, ghost cs: BstPath, ghost t: BstTree, ghost items: seq<int>, ghost all: set<TreeNode<()>>)
    requires Vining(root, cs, t, items, all) && t.Node? && t.right.Node? && t.ref == p && t.right.ref == r && q == Above(root, cs)
    modifies ({root} + all)`link0, ({root} + all)`link1
    ensures Vining(root, cs, Lift(t, 1), items, all)
  {
    hide Shape, Sep, Refs, Under, PathAt, PathSep, Items, Plug;
    AboveOutside(root, cs);
    AboveLeft(cs);
    TopsInside(t);
    PathAlive(cs);
    LiftNode(p, r, 1, t);
    Alive(Lift(t, 1));
    SetHole(q, 0, r, root, cs, p);
    LiftSame(cs, t, 1);
    HeldNew(root, cs, Lift(t, 1), Refs(t));
  }

  lemma AboveLeft(cs: BstPath)
    requires Bare(cs)
    ensures AboveDir(cs) == 0
  {
  }

  /** The next node of the vine. */
  lemma {:induction false} VineStep(root: TreeNode<()>, cs: BstPath, t: BstTree, items: seq<int>, all: set<TreeNode<()>>) returns (f: NFrame<()>)
    requires Vining(root, cs, t, items, all) && t.Node? && t.right.Leaf?
    ensures f == Frame(t.ref, 0, t.key, t.tag, t.right) && Vining(root, cs + [f], t.left, items, all) && Size(t.left) < Size(t)
  {
    hide Shape, Sep, Refs, Under, PathAt, PathSep, Plug;
    f := Frame(t.ref, 0, t.key, t.tag, t.right);
    Unzip(root, cs, t, 0);
    PlugPush(cs, f, t.left);
  }

  /** A path of bare nodes with nothing at its end is a vine. */
  lemma {:induction false} BareIsVine(cs: BstPath, t: BstTree, m: nat)
    requires Bare(cs) && Slim(t, m, 0)
    ensures Slim(Plug(cs, t), |cs| + m, 0)
    decreases |cs|
  {
    if cs != [] {
      var n := |cs| - 1;
      BareIsVine(cs[..n], Fill(cs[n], t), m + 1);
    }
  }

  /** tree_to_vine: the same items, and no node with a right child. */
  method TreeToVine(tree: BstTable, ghost whole: BstTree) returns (ghost u: BstTree)
    requires Held(tree.bst_root, [], whole)
    modifies ({tree.bst_root} + Refs(whole))`link0, ({tree.bst_root} + Refs(whole))`link1
    ensures Held(tree.bst_root, [], u) && Items(u) == Items(whole) && Refs(u) == Refs(whole) && Slim(u, Size(whole), 0)
  {
    hide Vining, Refs, Items, Held, Plug, Slim, Size;
    var root := tree.bst_root;
    ghost var cs: BstPath, t, items, all := [], whole, Items(whole), Refs(whole);
    VineStart(root, whole);
    Alive(whole);
    var q: TreeNode<()>, p := root, root.link0;
    while p != null
      invariant Vining(root, cs, t, items, all) && p == Top(t) && q == Above(root, cs)
      decreases Size(t), if t.Node? then Size(t.right) else 0
    {
      VineReads(root, cs, t, items, all);
      if p.link1 == null {
        ghost var f := VineStep(root, cs, t, items, all);
        q := p;
        p := p.link0;
        cs, t := cs + [f], t.left;
      } else {
        var r := p.link1;
        LiftSmaller(t);
        LiftSame(cs, t, 1);
        RotateUp(q, p, r, root, cs, t, items, all);
        p := r;
        t := Lift(t, 1);
      }
    }
    u := Plug(cs, t);
    VineDone(root, cs, t, items, all);
  }

  lemma VineStart(root: TreeNode<()>, whole: BstTree)
    requires Held(root, [], whole)
    ensures Vining(root, [], whole, Items(whole), Refs(whole)) && Top(whole) == root.link0
  {
  }

  lemma VineReads(root: TreeNode<()>, cs: BstPath, t: BstTree, items: seq<int>, all: set<TreeNode<()>>)
    requires Vining(root, cs, t, items, all) && t.Node?
    ensures t.ref.link0 == Top(t.left) && t.ref.link1 == Top(t.right)
  {
    HeldTops(root, cs, t);
  }

  lemma {:induction false} VineDone(root: TreeNode<()>, cs: BstPath, t: BstTree, items: seq<int>, all: set<TreeNode<()>>)
    requires Vining(root, cs, t, items, all) && t.Leaf?
    ensures var u := Plug(cs, t); Held(root, [], u) && Items(u) == items && Refs(u) == all && Slim(u, |items|, 0)
  {
    hide Shape, Sep, Refs, Under, PathAt, PathSep, Plug, Items, Held;
    ZipAll(root, cs, t);
    BareIsVine(cs, t, 0);
    SlimSize(Plug(cs, t), |cs|);
  }

  /* ---- vine_to_tree ---- */

  /** Where compress stands: x is the node above the rest t of the spine, of which left pairs are still
      to be folded. */
  ghost predicate Folding(root: TreeNode<()>, x: TreeNode<()>, cs: BstPath, t: BstTree, left: nat, goal: BstTree, all: set<TreeNode<()>>)
    reads root, Under(cs), Refs(t)
  {
    && Held(root, cs, t) && x == Above(root, cs) && AboveDir(cs) == 0 && SpineLength(t) >= 2 * left
    && Plug(cs, Compress(t, left)) == goal && Refs(t) + Under(cs) == all
  }

  /** One transformation of compress. */
  method FoldPair(x: TreeNode<()>, ghost root: TreeNode<()>, ghost cs: BstPath, ghost t: BstTree, ghost left: nat, ghost goal: BstTree, ghost all: set<TreeNode<()>>)
    returns (black: TreeNode<()>, ghost ds: BstPath, ghost u: BstTree)
    requires Folding(root, x, cs, t, left, goal, all) && left > 0
    modifies ({root} + all)`link0, ({root} + all)`link1
    ensures Folding(root, black, ds, u, left - 1, goal, all)
  {
    hide Shape, Sep, Refs, Under, PathAt, PathSep, Plug, Held;
    FoldReads(root, x, cs, t, left, goal, all);
    PathAlive(cs);
    AboveOutside(root, cs);
    ghost var v := Lift(t, 0);
    var red := x.link0;
    black := red.link0;
    FoldParts(root, cs, t);
    LiftNode(red, black, 0, t);
    Alive(v);
    SetHole(x, 0, black, root, cs, red);
    HeldNew(root, cs, v, Refs(t));
    ghost var f := Frame(v.ref, 0, v.key, v.tag, v.right);
    Unzip(root, cs, v, 0);
    ds, u := cs + [f], v.left;
    PlugPush(cs, f, Compress(u, left - 1));
  }

  lemma FoldReads(root: TreeNode<()>, x: TreeNode<()>, cs: BstPath, t: BstTree, left: nat, goal: BstTree, all: set<TreeNode<()>>)
    requires Folding(root, x, cs, t, left, goal, all) && left > 0
    ensures t.Node? && t.left.Node? && SpineLength(t.left.left) >= 2 * (left - 1)
    ensures x.link0 == t.ref && t.ref.link0 == t.left.ref && t.ref in Refs(t) && t.left.ref in Refs(t)
  {
    assert SpineLength(t) == 1 + SpineLength(t.left) && SpineLength(t.left) == 1 + SpineLength(t.left.left);
    assert t.left.ref in Refs(t.left);
    if cs != [] {
      assert FrameAt(cs[|cs| - 1], Top(t));
    }
  }

  lemma FoldParts(root: TreeNode<()>, cs: BstPath, t: BstTree)
    requires Held(root, cs, t)
    ensures PathAt(root, cs, Top(t)) && Shape(t) && PathSep(cs) && Sep(t) && Refs(t) !! Under(cs) && root !in Under(cs) && root !in Refs(t)
  {
  }

  /** compress, from the pseudo-root on. */
  method CompressSpine(root: TreeNode<()>, count: nat, ghost whole: BstTree)
    requires Held(root, [], whole) && SpineLength(whole) >= 2 * count
    modifies ({root} + Refs(whole))`link0, ({root} + Refs(whole))`link1
    ensures Held(root, [], Compress(whole, count)) && Refs(Compress(whole, count)) == Refs(whole)
  {
    hide Folding, Refs, Held, Compress;
    ghost var goal, all := Compress(whole, count), Refs(whole);
    ghost var cs: BstPath, t := [], whole;
    var x, left := root, count;
    FoldStart(root, whole, count);
    Alive(whole);
    while left > 0
      invariant Folding(root, x, cs, t, left, goal, all)
      decreases left
    {
      x, cs, t := FoldPair(x, root, cs, t, left, goal, all);
      left := left - 1;
    }
    FoldDone(root, x, cs, t, goal, all);
  }

  lemma FoldStart(root: TreeNode<()>, whole: BstTree, count: nat)
    requires Held(root, [], whole) && SpineLength(whole) >= 2 * count
    ensures Folding(root, root, [], whole, count, Compress(whole, count), Refs(whole))
  {
  }

  lemma {:induction false} FoldDone(root: TreeNode<()>, x: TreeNode<()>, cs: BstPath, t: BstTree, goal: BstTree, all: set<TreeNode<()>>)
    requires Folding(root, x, cs, t, 0, goal, all)
    ensures Held(root, [], goal) && Refs(goal) == all
  {
    hide Shape, Sep, Refs, Under, PathAt, PathSep, Plug, Held;
    ZipAll(root, cs, t);
  }

  /** The loop of vine_to_tree that finds the highest power of two in count + 1. */
  method HighestPower(count: nat) returns (leaves: nat)
    ensures leaves == Pow2(Log2(count + 1)) <= count + 1 < 2 * leaves
  {
    leaves := count + 1;
    while true
      invariant leaves > 0 && Log2(leaves) == Log2(count + 1)
      decreases leaves
    {
      ClearKeepsTop(leaves);
      var next := ClearLowest(leaves);
      if next == 0 {
        break;
      }
      leaves := next;
    }
  }

  /** What vine_to_tree has reached: a spine of 2^r - 1 nodes with subtrees of height h at most. */
  ghost predicate Halving(root: TreeNode<()>, t: BstTree, vine: nat, h: nat, items: seq<int>, all: set<TreeNode<()>>)
    reads root, Refs(t)
  {
    Held(root, [], t) && Slim(t, vine, h) && Items(t) == items && Refs(t) == all
  }

  lemma {:induction false} FirstHalving(root: TreeNode<()>, t: BstTree, n: nat, leaves: nat, u: BstTree)
    requires Slim(t, n, 0) && 2 * leaves <= n && SpineLength(t) >= 2 * leaves && u == Compress(t, leaves) && Held(root, [], u) && Refs(u) == Refs(t)
    ensures Halving(root, u, n - leaves, if leaves > 0 then 1 else 0, Items(t), Refs(t)) && (n == 0 ==> u.Leaf?)
  {
    hide Refs, Held, Items, Compress;
    FirstSlims(t, n, leaves);
    CompressItems(t, leaves);
    SlimSize(t, n);
    if n == 0 {
      SizeZero(u);
    }
  }

  lemma {:induction false} RoundFold(root: TreeNode<()>, t: BstTree, m: nat, h: nat, items: seq<int>, all: set<TreeNode<()>>)
    requires Halving(root, t, 2 * m + 1, h, items, all)
    ensures SpineLength(t) >= 2 * m && Held(root, [], t) && Refs(t) == all
  {
    RoundSlims(t, m, h);
  }

  lemma {:induction false} RoundDone(root: TreeNode<()>, t: BstTree, m: nat, h: nat, items: seq<int>, all: set<TreeNode<()>>)
    requires Slim(t, 2 * m + 1, h) && Items(t) == items && SpineLength(t) >= 2 * m
    requires Held(root, [], Compress(t, m)) && Refs(Compress(t, m)) == all
    ensures Halving(root, Compress(t, m), m, h + 1, items, all)
  {
    hide Refs, Held, Items;
    RoundSlims(t, m, h);
    CompressItems(t, m);
  }

  lemma HalvingParts(root: TreeNode<()>, t: BstTree, m: nat, h: nat, items: seq<int>, all: set<TreeNode<()>>)
    requires Halving(root, t, m, h, items, all)
    ensures Slim(t, m, h) && Items(t) == items && Held(root, [], t) && Refs(t) == all
  {
  }

  lemma {:induction false} HalvingDone(root: TreeNode<()>, t: BstTree, h: nat, items: seq<int>, all: set<TreeNode<()>>)
    requires Halving(root, t, 1, h, items, all) && h + 1 == LeastHeight(|items|)
    ensures Height(t) == LeastHeight(|items|)
  {
    hide Refs, Held, Items, LeastHeight;
    assert Slim(t.left, 0, h);
    LeastIsLeast(t);
  }

  /** vine_to_tree: folds a vine of count nodes into a tree of the least height. */
  method VineToTree(tree: BstTable, ghost whole: BstTree) returns (height: nat, ghost u: BstTree)
    requires Held(tree.bst_root, [], whole) && Slim(whole, tree.bst_count, 0)
    modifies ({tree.bst_root} + Refs(whole))`link0, ({tree.bst_root} + Refs(whole))`link1
    ensures Held(tree.bst_root, [], u) && Items(u) == Items(whole) && Refs(u) == Refs(whole)
    ensures Height(u) == LeastHeight(tree.bst_count) && (tree.bst_count > 0 ==> height == LeastHeight(tree.bst_count))
  {
    hide Halving, Refs, Held, Compress, Slim, Items, Height, Pow2, Log2, LeastHeight;
    var root, n := tree.bst_root, tree.bst_count;
    ghost var items, all := Items(whole), Refs(whole);
    SlimSize(whole, n);
    Alive(whole);
    PathAlive<()>([]);
    var leaves := HighestPower(n);
    ghost var r := Log2(n + 1);
    leaves := n + 1 - leaves;
    FirstFold(whole, n, leaves, r);
    CompressSpine(root, leaves, whole);
    u := Compress(whole, leaves);
    var vine := n - leaves;
    height := 1 + if leaves > 0 then 1 else 0;
    FirstHalving(root, whole, n, leaves, u);
    while vine > 1
      invariant Halving(root, u, vine, height - 1, items, all) && height >= 1 && (n == 0 || r >= 1)
      invariant vine + 1 == Pow2(r) && (n > 0 ==> height + r == LeastHeight(n) + 1)
      invariant n == 0 ==> vine == 0 && height == 1 && u.Leaf?
      decreases vine
    {
      HalfVine(vine, r);
      Alive(u);
      RoundFold(root, u, vine / 2, height - 1, items, all);
      HalvingParts(root, u, vine, height - 1, items, all);
      CompressSpine(root, vine / 2, u);
      RoundDone(root, u, vine / 2, height - 1, items, all);
      u := Compress(u, vine / 2);
      vine := vine / 2;
      height := height + 1;
      r := r - 1;
    }
    HalvingParts(root, u, vine, height - 1, items, all);
    VineEnd(u, vine, r, n);
    if n > 0 {
      HalvingDone(root, u, height - 1, items, all);
    }
  }

  /** bst_balance: the items stay, and no tree with as many items is lower. Trees of 2^32 items or more
      are given up by the original. */
  method Balance(tree: BstTable)
    requires tree.Valid() && tree.bst_count < Pow2(BST_MAX_HEIGHT)
    modifies tree`tree, tree`bst_generation, ({tree.bst_root} + Refs(tree.tree))`link0, ({tree.bst_root} + Refs(tree.tree))`link1
    ensures tree.Valid() && Items(tree.tree) == old(Items(tree.tree)) && Refs(tree.tree) == old(Refs(tree.tree))
    ensures Height(tree.tree) == LeastHeight(tree.bst_count) <= BST_MAX_HEIGHT
    ensures tree.bst_generation == old(tree.bst_generation) + 1
  {
    hide Refs, Items, Slim, Height, Pow2, Shape, Sep, LeastHeight;
    Alive(tree.tree);
    ghost var u := TreeToVine(tree, tree.tree);
    Alive(u);
    var height;
    height, u := VineToTree(tree, u);
    ghost var nodes: set<TreeNode<()>> := Refs(u);
    tree.tree := u;
    tree.bst_generation := tree.bst_generation + 1;
    NotTooHigh(tree.bst_count);
  }

  lemma NotTooHigh(n: nat)
    requires n < Pow2(BST_MAX_HEIGHT)
    ensures LeastHeight(n) <= BST_MAX_HEIGHT
  {
    hide Pow2;
    if n > 0 && Log2(n) >= BST_MAX_HEIGHT {
      Pow2Mono(BST_MAX_HEIGHT, Log2(n));
    }
  }
}
