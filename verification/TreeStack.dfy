/** The search for a key, and the stacks of nodes and directions it leaves behind: what rb_probe,
    rb_delete and avl_delete share. */
module TreeStack {
  import opened Seqs
  import opened SlabModel
  import opened AddModel
  import opened Trees
  import opened TreeHeap

  /** pa[k - 1]->rb_link[da[k - 1]] = x. */
  method SetHole<C>(above: TreeNode<C>, d: nat, x: TreeNode?<C>, ghost root: TreeNode<C>, ghost cs: NPath<C>, ghost hole: TreeNode?<C>)
    requires PathAt(root, cs, hole) && PathSep(cs) && root !in Under(cs) && above == Above(root, cs) && d == AboveDir(cs)
    modifies above`link0, above`link1
    ensures PathAt(root, cs, x)
  {
    hide Shape;
    if cs != [] {
      PathAlive(cs[..|cs| - 1]);
      Alive(cs[|cs| - 1].sib);
    }
    above.SetLink(d, x);
  }

  /** The stacks hold the path: the pseudo-root first, then the nodes of cs, and the directions taken. */
  ghost predicate OnStack<C>(pa: array<TreeNode<C>>, da: array<nat>, root: TreeNode<C>, cs: NPath<C>)
    reads pa, da
  {
    && |cs| + 1 <= pa.Length == da.Length && pa[0] == root && da[0] == 0
    && forall i :: 0 <= i < |cs| ==> pa[i + 1] == cs[i].ref && da[i + 1] == cs[i].dir
  }

  /** What the stacks and the memory say about the last two nodes of the path. */
  lemma {:induction false} StackTop<C>(pa: array<TreeNode<C>>, da: array<nat>, root: TreeNode<C>, cs: NPath<C>)
    requires OnStack(pa, da, root, cs)
    ensures pa[|cs|] == Above(root, cs) && da[|cs|] == AboveDir(cs)
    ensures cs != [] ==> OnStack(pa, da, root, cs[..|cs| - 1])
  {
  }

  /** pa[k] = p; da[k++] = d. */
  method Push<C>(pa: array<TreeNode<C>>, da: array<nat>, k: nat, p: TreeNode<C>, d: nat, ghost root: TreeNode<C>, ghost cs: NPath<C>, ghost f: NFrame<C>)
    requires OnStack(pa, da, root, cs) && k == |cs| + 1 < pa.Length && f.ref == p && f.dir == d
    modifies pa, da
    ensures OnStack(pa, da, root, cs + [f])
  {
    pa[k] := p;
    da[k] := d;
  }

  lemma {:induction false} ZipTwo<C>(root: TreeNode<C>, cs: NPath<C>, t: NTree<C>)
    requires |cs| >= 2 && Held(root, cs, t)
    ensures Held(root, cs[..|cs| - 2], Fill(cs[|cs| - 2], Fill(cs[|cs| - 1], t)))
    ensures Refs(Fill(cs[|cs| - 2], Fill(cs[|cs| - 1], t))) + Under(cs[..|cs| - 2]) == Refs(t) + Under(cs)
  {
    hide Refs, Sep, Shape, Under, PathAt, PathSep, Held;
    var ds, low := cs[..|cs| - 1], Fill(cs[|cs| - 1], t);
    assert ds[..|ds| - 1] == cs[..|cs| - 2];
    Zip(root, cs, t);
    Zip(root, ds, low);
  }

  lemma {:induction false} PlugTwo<R, C>(cs: seq<Frame<R, C>>, t: Tree<R, C>)
    requires |cs| >= 2
    ensures Plug(cs, t) == Plug(cs[..|cs| - 2], Fill(cs[|cs| - 2], Fill(cs[|cs| - 1], t)))
  {
    assert cs[..|cs| - 1][..|cs| - 2] == cs[..|cs| - 2];
  }

  lemma AboveOutside<C>(root: TreeNode<C>, cs: NPath<C>)
    ensures Above(root, cs) == root || Above(root, cs) in Under(cs)
  {
  }

  lemma {:induction false} UpperWithin<C>(cs: NPath<C>)
    requires |cs| >= 2
    ensures Under(cs[..|cs| - 2]) <= Under(cs)
  {
    assert cs[..|cs| - 1][..|cs| - 2] == cs[..|cs| - 2];
    assert Under(cs[..|cs| - 1]) <= Under(cs);
  }

  lemma {:induction false} StackTwo<C>(pa: array<TreeNode<C>>, da: array<nat>, root: TreeNode<C>, cs: NPath<C>)
    requires OnStack(pa, da, root, cs) && |cs| >= 2
    ensures var n := |cs|;
      && n < pa.Length == da.Length && pa[n] == cs[n - 1].ref && da[n] == cs[n - 1].dir && pa[n - 1] == cs[n - 2].ref && da[n - 1] == cs[n - 2].dir
      && pa[n - 2] == Above(root, cs[..n - 2]) && da[n - 2] == AboveDir(cs[..n - 2])
      && OnStack(pa, da, root, cs[..n - 2])
  {
  }

  lemma TopInside<C>(t: NTree<C>)
    requires t.Node?
    ensures t.ref in Refs(t)
  {
  }

  lemma HasNode<C>(t: NTree<C>)
    requires Items(t) != []
    ensures t.Node? && t.ref in Refs(t)
  {
  }

  /** What memory says about the last two nodes of the path. */
  lemma {:induction false} LastTwo<C>(root: TreeNode<C>, cs: NPath<C>, t: NTree<C>)
    requires Held(root, cs, t) && |cs| >= 2
    ensures var n := |cs|;
      && cs[n - 1].ref.tag == cs[n - 1].tag && cs[n - 1].dir <= 1 && cs[n - 2].dir <= 1
      && cs[n - 2].ref.Link(1 - cs[n - 2].dir) == Top(cs[n - 2].sib)
      && (cs[n - 2].sib.Node? ==> cs[n - 2].sib.ref.tag == cs[n - 2].sib.tag)
      && cs[n - 1].ref in Under(cs) && cs[n - 2].ref in Under(cs)
      && (cs[n - 2].sib.Node? ==> cs[n - 2].sib.ref in Under(cs))
  {
    var n := |cs|;
    assert PathAt(root, cs[..n - 1], cs[n - 1].ref) && PathSep(cs[..n - 1]);
    assert cs[..n - 1][n - 2] == cs[n - 2];
    assert FrameAt(cs[n - 2], cs[n - 1].ref);
    assert Under(cs[..n - 1]) <= Under(cs);
  }

  lemma StackAt<C>(pa: array<TreeNode<C>>, da: array<nat>, root: TreeNode<C>, cs: NPath<C>)
    requires OnStack(pa, da, root, cs)
    ensures |cs| < pa.Length == da.Length && pa[|cs|] == Above(root, cs) && da[|cs|] == AboveDir(cs)
  {
  }

  /** What memory says about the lowest node of the path, its sibling subtree and that one's children. */
  lemma {:induction false} LastOne<C>(root: TreeNode<C>, cs: NPath<C>, t: NTree<C>)
    requires Held(root, cs, t) && cs != []
    ensures var f := cs[|cs| - 1]; var w := f.sib;
      && f.dir <= 1 && f.ref.tag == f.tag && f.ref.Link(f.dir) == Top(t) && f.ref.Link(1 - f.dir) == Top(w) && f.ref in Under(cs)
      && (w.Node? ==> w.ref in Under(cs) && w.ref.tag == w.tag && w.ref.link0 == Top(w.left) && w.ref.link1 == Top(w.right))
      && (w.Node? && w.left.Node? ==> w.left.ref in Under(cs) && w.left.ref.tag == w.left.tag)
      && (w.Node? && w.right.Node? ==> w.right.ref in Under(cs) && w.right.ref.tag == w.right.tag)
  {
    var f := cs[|cs| - 1];
    var w := f.sib;
    assert FrameAt(f, Top(t));
    if w.Node? {
      assert Shape(w.left) && Shape(w.right) && Refs(w) <= Under(cs);
    }
  }

  /** The tree in the hole has been rebuilt from the same nodes and linked again. */
  lemma {:induction false} HeldNew<C>(root: TreeNode<C>, cs: NPath<C>, u: NTree<C>, refs: set<TreeNode<C>>)
    requires PathAt(root, cs, Top(u)) && PathSep(cs) && Shape(u) && Sep(u) && Refs(u) == refs && refs !! Under(cs)
    requires root !in Under(cs) && root !in refs
    ensures Held(root, cs, u)
  {
  }

  lemma DirOk<C>(cs: NPath<C>)
    requires PathSep(cs) && cs != []
    ensures cs[|cs| - 1].dir <= 1
  {
  }

  lemma TopsInside<C>(t: NTree<C>)
    requires t.Node?
    ensures t.ref in Refs(t) && (t.right.Node? ==> t.right.ref in Refs(t))
  {
  }

  lemma SiblingInside<C>(f: NFrame<C>, t: NTree<C>)
    requires f.sib.Node?
    ensures f.ref in Refs(Fill(f, t)) && f.sib.ref in Refs(Fill(f, t))
    ensures f.sib.left.Node? ==> f.sib.left.ref in Refs(Fill(f, t))
    ensures f.sib.right.Node? ==> f.sib.right.ref in Refs(Fill(f, t))
  {
    assert f.sib.ref in Refs(f.sib) && Refs(f.sib.left) <= Refs(f.sib) && Refs(f.sib.right) <= Refs(f.sib);
  }

  lemma ChildTag<C>(v: NTree<C>, d: nat)
    requires d <= 1 && v.Node? && Shape(v)
    ensures Child(v, d).Node? ==> Child(v, d).ref.tag == Child(v, d).tag && Child(v, d).ref in Refs(v)
    ensures v.ref in Refs(v)
  {
  }

  /** The links and keys of the top nodes of the tree in the hole. */
  lemma {:induction false} HeldTops<C>(root: TreeNode<C>, cs: NPath<C>, t: NTree<C>)
    requires Held(root, cs, t) && t.Node?
    ensures t.ref.link0 == Top(t.left) && t.ref.link1 == Top(t.right) && t.ref.data == t.key && t.ref.tag == t.tag
    ensures t.left.Node? ==> t.left.ref.link0 == Top(t.left.left)
    ensures t.right.Node? ==> t.right.ref.link0 == Top(t.right.left)
  {
    assert Shape(t.left) && Shape(t.right);
  }

  lemma RefsLeaf<C>(t: NTree<C>)
    requires t.Leaf?
    ensures Refs(t) == {} && Shape(t) && Sep(t)
  {
  }

  lemma PlugNothing<C>(t: NTree<C>)
    ensures Plug([], t) == t
  {
  }

  lemma {:induction false} HeldStart<C>(root: TreeNode<C>, whole: NTree<C>)
    requires Held(root, [], whole)
    ensures Plug([], whole) == whole && Top(whole) == root.link0
    ensures Lefts<TreeNode<C>, C>([]) == [] && Rights<TreeNode<C>, C>([]) == [] && Under<TreeNode<C>, C>([]) == {}
  {
  }

  /** The loop of rb_probe, rb_delete and avl_delete that looks for item, from the root down, and fills
      the stacks. Every node that is passed takes an entry, after the one of the pseudo-root. */
  method Descend<C>(root: TreeNode<C>, item: int, pa: array<TreeNode<C>>, da: array<nat>, ghost whole: NTree<C>)
    returns (k: nat, p: TreeNode?<C>, ghost cs: NPath<C>, ghost t: NTree<C>)
    requires Held(root, [], whole) && StrictlySorted(Items(whole)) && SearchDepth(whole, item) < pa.Length == da.Length
    modifies pa, da
    ensures Held(root, cs, t) && Plug(cs, t) == whole && Top(t) == p
    ensures AllBelow(Lefts(cs), item) && AllAbove(Rights(cs), item)
    ensures OnStack(pa, da, root, cs) && k == |cs| + 1
    ensures p != null ==> p.data == item && t.key == item
  {
    hide Items, Plug, Refs, Sep, Shape, Under, PathAt, PathSep, StrictlySorted, Lefts, Rights, Held, OnStack;
    HeldStart(root, whole);
    ghost var nodes := Refs(whole) + Under<TreeNode<C>, C>([]);
    pa[0] := root;
    da[0] := 0;
    k := 1;
    p := root.link0;
    cs, t := [], whole;
    StackStart(pa, da, root);
    while p != null
      invariant Held(root, cs, t) && Plug(cs, t) == whole && Top(t) == p
      invariant AllBelow(Lefts(cs), item) && AllAbove(Rights(cs), item)
      invariant OnStack(pa, da, root, cs) && k == |cs| + 1 && |cs| + SearchDepth(t, item) < pa.Length
      decreases t
    {
      HeldTops(root, cs, t);
      if item == p.data {
        return;
      }
      var d := if item > p.data then 1 else 0;
      ghost var f := Frame(t.ref, d, t.key, t.tag, Child(t, 1 - d));
      Unzip(root, cs, t, d);
      StepOrder(cs, t, item, whole);
      PathAlive(cs + [f]);
      Alive(Child(t, d));
      Push(pa, da, k, p, d, root, cs, f);
      k := k + 1;
      p := p.Link(d);
      cs, t := cs + [f], Child(t, d);
    }
  }

  lemma StackStart<C>(pa: array<TreeNode<C>>, da: array<nat>, root: TreeNode<C>)
    requires 1 <= pa.Length == da.Length && pa[0] == root && da[0] == 0
    ensures OnStack(pa, da, root, [])
  {
  }

  lemma {:induction false} Found<C>(root: TreeNode<C>, cs: NPath<C>, t: NTree<C>, whole: NTree<C>)
    requires Held(root, cs, t) && Plug(cs, t) == whole && t.Node?
    ensures t.ref in Refs(whole) && t.key in Items(whole)
  {
    ZipAll(root, cs, t);
    PlugItems(cs, t);
  }

  lemma {:induction false} Absent<C>(root: TreeNode<C>, cs: NPath<C>, whole: NTree<C>)
    requires Held(root, cs, Leaf) && Plug(cs, Leaf) == whole
    ensures Items(whole) == Lefts(cs) + Rights(cs) && Refs(whole) == Under(cs) && root !in Under(cs)
    ensures PathAt(root, cs, null) && PathSep(cs)
  {
    hide Plug, Lefts, Rights, PathSep, PathAt, Under;
    ZipAll(root, cs, Leaf);
    PlugItems(cs, Leaf);
    assert Lefts(cs) + [] + Rights(cs) == Lefts(cs) + Rights(cs);
  }

  /** A new node takes the place of the empty subtree a search has ended in. */
  lemma {:induction false} NewLeaf<C>(root: TreeNode<C>, cs: NPath<C>, n: TreeNode<C>, item: int, tag: C)
    requires PathAt(root, cs, n) && PathSep(cs) && root !in Under(cs) && n != root && n !in Under(cs)
    requires n.link0 == null && n.link1 == null && n.data == item && n.tag == tag
    ensures Held(root, cs, Node(n, Leaf, item, tag, Leaf)) && Refs(Node(n, Leaf, item, tag, Leaf)) == {n}
  {
    var t: NTree<C> := Node(n, Leaf, item, tag, Leaf);
    assert Refs(t) == {n};
    assert Held(root, cs, t);
  }

  lemma {:induction false} NotThere<C>(root: TreeNode<C>, cs: NPath<C>, whole: NTree<C>, item: int)
    requires Held(root, cs, Leaf) && Plug(cs, Leaf) == whole && AllBelow(Lefts(cs), item) && AllAbove(Rights(cs), item)
    ensures item !in Items(whole)
  {
    Absent(root, cs, whole);
  }
}
