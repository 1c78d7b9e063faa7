/** Cutting a node out of a search tree, as rb_delete and avl_delete do: the node itself, or the least
    node of its right subtree, leaves its place. */
module TreeSplice {
  import opened Seqs
  import opened SlabModel
  import opened Trees
  import opened TreeCut
  import opened TreeHeap
  import opened TreeStack

  /** The node p at the hole has no right subtree: its left one takes its place. */
  method CutLow<C>(above: TreeNode<C>, ad: nat, p: TreeNode<C>, ghost root: TreeNode<C>, ghost cs: NPath<C>, ghost t: NTree<C>)
    requires Held(root, cs, t) && t.Node? && t.ref == p && t.right.Leaf? && above == Above(root, cs) && ad == AboveDir(cs)
    modifies above`link0, above`link1
    ensures Held(root, cs, t.left) && Refs(t.left) + Under(cs) == Refs(t) + Under(cs) - {p}
  {
    hide Shape, Sep, Refs, Under, PathAt, PathSep;
    ShapeOpen(t, 0);
    SepOpen(t, 0);
    RefsLeaf(t.right);
    Alive(t.left);
    AboveOutside(root, cs);
    SetHole(above, ad, p.link0, root, cs, p);
  }

  /** The right child r of p has no left subtree: it takes the place, the left subtree and the tag
      of p. */
  method SpliceChild<C>(above: TreeNode<C>, ad: nat, p: TreeNode<C>, r: TreeNode<C>, ghost root: TreeNode<C>, ghost cs: NPath<C>, ghost t: NTree<C>)
    returns (gone: C)
    requires Held(root, cs, t) && t.Node? && t.ref == p && t.right.Node? && t.right.ref == r && t.right.left.Leaf?
    requires above == Above(root, cs) && ad == AboveDir(cs)
    modifies {above, r}`link0, {above, r}`link1, r`tag
    ensures Held(root, cs + [Frame(r, 1, t.right.key, t.tag, t.left)], t.right.right) && gone == t.right.tag
    ensures Refs(t.right.right) + Under(cs + [Frame(r, 1, t.right.key, t.tag, t.left)]) == Refs(t) + Under(cs) - {p}
  {
    hide Shape, Sep, Refs, Under, PathAt, PathSep;
    ghost var l, b := t.left, t.right.right;
    ShapeOpen(t, 0);
    ShapeOpen(t.right, 0);
    SepOpen(t, 0);
    SepOpen(t.right, 0);
    RefsLeaf(t.right.left);
    Alive(l);
    Alive(b);
    PathAlive(cs);
    AboveOutside(root, cs);
    r.link0 := p.link0;
    gone := r.tag;
    r.tag := p.tag;
    SetHole(above, ad, r, root, cs, p);
    ghost var u := Node(r, l, t.right.key, t.tag, b);
    ShapeMk(r, 0, l, t.right.key, t.tag, b);
    SepMk(r, 0, l, t.right.key, t.tag, b);
    Unzip(root, cs, u, 1);
  }

  /** Everything about a path in three parts: above a node, the node, below it. */
  lemma {:induction false} OpenAround<C>(root: TreeNode<C>, cs: NPath<C>, f: NFrame<C>, ws: NPath<C>, t: NTree<C>)
    requires Held(root, cs + [f] + ws, t)
    ensures PathAt(root, cs, f.ref) && PathSep(cs) && FrameAt(f, First(ws, Top(t))) && SegAt(ws, Top(t)) && PathSep(ws)
    ensures Sep(f.sib) && f.ref !in Refs(f.sib) && f.dir <= 1 && Shape(t) && Sep(t)
    ensures f.ref !in Under(cs) && Refs(f.sib) !! Under(cs) && ({f.ref} + Refs(f.sib)) !! Under(ws) && Under(cs) !! Under(ws)
    ensures Refs(t) !! ({f.ref} + Refs(f.sib)) && Refs(t) !! Under(cs) && Refs(t) !! Under(ws)
    ensures root !in Under(cs) && root != f.ref && root !in Refs(f.sib) && root !in Under(ws) && root !in Refs(t)
    ensures Under(cs + [f] + ws) == Under(cs) + {f.ref} + Refs(f.sib) + Under(ws)
  {
    hide Shape, Sep, Refs, Under, SegAt;
    UnderSplit(cs + [f], ws);
    UnderPush(cs, f);
    PathSplit(root, cs + [f], ws, Top(t));
    SepSplit(cs + [f], ws);
    assert (cs + [f])[..|cs|] == cs && (cs + [f])[|cs|] == f;
  }

  /** The converse: the three parts make a path. */
  lemma {:induction false} CloseAround<C>(root: TreeNode<C>, cs: NPath<C>, f: NFrame<C>, ws: NPath<C>, t: NTree<C>)
    requires PathAt(root, cs, f.ref) && PathSep(cs) && FrameAt(f, First(ws, Top(t))) && SegAt(ws, Top(t)) && PathSep(ws)
    requires Sep(f.sib) && f.ref !in Refs(f.sib) && f.dir <= 1 && Shape(t) && Sep(t)
    requires f.ref !in Under(cs) && Refs(f.sib) !! Under(cs) && ({f.ref} + Refs(f.sib)) !! Under(ws) && Under(cs) !! Under(ws)
    requires Refs(t) !! ({f.ref} + Refs(f.sib)) && Refs(t) !! Under(cs) && Refs(t) !! Under(ws)
    requires root !in Under(cs) && root != f.ref && root !in Refs(f.sib) && root !in Under(ws) && root !in Refs(t)
    ensures Held(root, cs + [f] + ws, t) && Under(cs + [f] + ws) == Under(cs) + {f.ref} + Refs(f.sib) + Under(ws)
  {
    hide Shape, Sep, Refs, Under, SegAt;
    UnderSplit(cs + [f], ws);
    UnderPush(cs, f);
    PathSplit(root, cs + [f], ws, Top(t));
    SepSplit(cs + [f], ws);
    assert (cs + [f])[..|cs|] == cs && (cs + [f])[|cs|] == f;
  }

  /** r->rb_link[0] = x at the end of a way down to the left. */
  method SetSegHole<C>(r: TreeNode<C>, x: TreeNode?<C>, ghost ws: NPath<C>, ghost hole: TreeNode?<C>)
    requires SegAt(ws, hole) && PathSep(ws) && ws != [] && ws[|ws| - 1].ref == r && ws[|ws| - 1].dir == 0
    modifies r`link0
    ensures SegAt(ws, x)
  {
    hide Shape;
    PathAlive(ws[..|ws| - 1]);
    Alive(ws[|ws| - 1].sib);
    r.link0 := x;
  }

  /** s, the least node below the right child of p, takes the place, the subtrees and the tag of p;
      its own right subtree stays where s was, below r. */
  method SpliceLeast<C>(above: TreeNode<C>, ad: nat, p: TreeNode<C>, s: TreeNode<C>, r: TreeNode<C>, ghost root: TreeNode<C>, ghost cs: NPath<C>, ghost f: NFrame<C>, ghost ws: NPath<C>, ghost t: NTree<C>)
    returns (gone: C, ghost g: NFrame<C>)
    requires Held(root, cs + [f] + ws, t) && ws != [] && t.Node? && t.ref == s && t.left.Leaf?
    requires f.ref == p && f.dir == 1 && ws[|ws| - 1].ref == r && ws[|ws| - 1].dir == 0
    requires above == Above(root, cs) && ad == AboveDir(cs)
    modifies {above, s, r}`link0, {above, s}`link1, s`tag
    ensures g == Frame(s, 1, t.key, f.tag, f.sib) && gone == t.tag
    ensures Held(root, cs + [g] + ws, t.right)
    ensures Refs(t.right) + Under(cs + [g] + ws) == Refs(t) + Under(cs + [f] + ws) - {p}
  {
    hide Shape, Sep, Refs, Under, PathAt, PathSep, SegAt, Held;
    ghost var b := t.right;
    OpenAround(root, cs, f, ws, t);
    ShapeOpen(t, 0);
    SepOpen(t, 0);
    RefsLeaf(t.left);
    LastInside(ws);
    AboveOutside(root, cs);
    Alive(b);
    Alive(f.sib);
    PathAlive(cs);
    PathAlive(ws);
    SetHole(above, ad, s, root, cs, p);
    s.link0 := p.link0;
    SetSegHole(r, s.link1, ws, s);
    s.link1 := p.link1;
    gone := s.tag;
    s.tag := p.tag;
    g := Frame(s, 1, t.key, f.tag, f.sib);
    CloseAround(root, cs, g, ws, b);
  }

  /** The stacks hold the path but for entry x, which is filled in later. */
  ghost predicate OnStackBut<C>(pa: array<TreeNode<C>>, da: array<nat>, root: TreeNode<C>, cs: NPath<C>, x: nat)
    reads pa, da
  {
    && |cs| + 1 <= pa.Length == da.Length && pa[0] == root && da[0] == 0
    && forall i :: 0 <= i < |cs| && i + 1 != x ==> pa[i + 1] == cs[i].ref && da[i + 1] == cs[i].dir
  }

  /** da[k] = 0; pa[k++] = p. */
  method PushBut<C>(pa: array<TreeNode<C>>, da: array<nat>, k: nat, p: TreeNode<C>, ghost root: TreeNode<C>, ghost cs: NPath<C>, ghost f: NFrame<C>, ghost x: nat)
    requires OnStackBut(pa, da, root, cs, x) && x < k == |cs| + 1 < pa.Length && f.ref == p && f.dir == 0
    modifies pa, da
    ensures OnStackBut(pa, da, root, cs + [f], x)
  {
    da[k] := 0;
    pa[k] := p;
  }

  /** pa[j] = s and da[j] = 1 complete the stacks. */
  method FillEntry<C>(pa: array<TreeNode<C>>, da: array<nat>, j: nat, s: TreeNode<C>, ghost root: TreeNode<C>, ghost cs: NPath<C>, ghost f: NFrame<C>, ghost g: NFrame<C>, ghost ws: NPath<C>)
    requires OnStackBut(pa, da, root, cs + [f] + ws, j) && j == |cs| + 1 && g.ref == s && g.dir == 1
    modifies pa, da
    ensures OnStack(pa, da, root, cs + [g] + ws)
  {
    ghost var a, b := cs + [f] + ws, cs + [g] + ws;
    assert |a| == |b| && forall i :: 0 <= i < |a| && i != |cs| ==> a[i] == b[i];
    assert b[|cs|] == g;
    da[j] := 1;
    pa[j] := s;
  }

  lemma {:induction false} EntryAbove<C>(pa: array<TreeNode<C>>, da: array<nat>, root: TreeNode<C>, cs: NPath<C>, ws: NPath<C>)
    requires ws != [] && (OnStack(pa, da, root, cs + ws) || OnStack(pa, da, root, cs + [ws[0]] + ws[1..]))
    ensures |cs| < pa.Length == da.Length && pa[|cs|] == Above(root, cs) && da[|cs|] == AboveDir(cs)
  {
    assert cs + [ws[0]] + ws[1..] == cs + ws;
    if cs != [] {
      assert (cs + ws)[|cs| - 1] == cs[|cs| - 1];
    }
  }

  /** The walk down to the left has come from the subtree t0 at the path us, along ws, to t. */
  ghost predicate Walk<C>(root: TreeNode<C>, whole: NTree<C>, us: NPath<C>, t0: NTree<C>, ws: NPath<C>, t: NTree<C>)
    reads root, Under(us + ws), Refs(t)
  {
    && Held(root, us + ws, t) && Plug(us + ws, t) == whole && Plug(ws, t) == t0 && AllLeft(ws) && t.Node?
    && Refs(t) + Under(us + ws) == Refs(t0) + Under(us)
  }

  lemma {:induction false} WalkStart<C>(root: TreeNode<C>, whole: NTree<C>, us: NPath<C>, t0: NTree<C>)
    requires Held(root, us, t0) && Plug(us, t0) == whole && t0.Node?
    ensures Walk(root, whole, us, t0, [], t0) && us + [] == us
  {
    assert us + [] == us;
  }

  lemma {:induction false} WalkStep<C>(root: TreeNode<C>, whole: NTree<C>, us: NPath<C>, t0: NTree<C>, ws: NPath<C>, t: NTree<C>) returns (f: NFrame<C>)
    requires Walk(root, whole, us, t0, ws, t) && t.left.Node?
    ensures f == Frame(t.ref, 0, t.key, t.tag, t.right) && us + ws + [f] == us + (ws + [f])
    ensures Walk(root, whole, us, t0, ws + [f], t.left) && |us + (ws + [f])| < Height(whole)
    ensures t.ref.link0 == t.left.ref && t.left.ref.link0 == Top(t.left.left)
  {
    hide Plug, Refs, Sep, Shape, Under, PathAt, PathSep, Held, Height;
    f := Frame(t.ref, 0, t.key, t.tag, t.right);
    assert us + ws + [f] == us + (ws + [f]);
    Unzip(root, us + ws, t, 0);
    PlugPush(us + ws, f, t.left);
    PlugPush(ws, f, t.left);
    PathShort(us + ws + [f], t.left, whole);
    HeldTops(root, us + ws, t);
  }

  /** The loop that walks from the right child r of the node to delete to the least node s below it; r
      ends as the node above s. Entry j of the stacks is left for s. */
  method WalkToLeast<C>(root: TreeNode<C>, r0: TreeNode<C>, pa: array<TreeNode<C>>, da: array<nat>, j: nat, ghost whole: NTree<C>, ghost us: NPath<C>, ghost t0: NTree<C>)
    returns (k: nat, r: TreeNode<C>, s: TreeNode<C>, ghost ws: NPath<C>, ghost t: NTree<C>)
    requires Walk(root, whole, us, t0, [], t0) && Height(whole) <= pa.Length == da.Length
    requires t0.Node? && t0.ref == r0 && t0.left.Node? && j == |us| && OnStackBut(pa, da, root, us, j) && 0 < j
    modifies pa, da
    ensures Walk(root, whole, us, t0, ws, t) && ws != [] && t.Node? && t.ref == s && t.left.Leaf? && ws[|ws| - 1].ref == r
    ensures OnStackBut(pa, da, root, us + ws, j) && k == |us + ws| + 1 && |us + ws| < Height(whole)
  {
    hide Walk, OnStackBut, Refs, Under, Height;
    r, k := r0, j + 1;
    ws, t := [], t0;
    assert us + ws == us;
    while true
      invariant Walk(root, whole, us, t0, ws, t)
      invariant t.Node? && t.ref == r && t.left.Node?
      invariant OnStackBut(pa, da, root, us + ws, j) && k == |us + ws| + 1
      decreases t
    {
      ghost var f := WalkStep(root, whole, us, t0, ws, t);
      PathAlive(us + (ws + [f]));
      Alive(t.left);
      PushBut(pa, da, k, r, root, us + ws, f, j);
      k := k + 1;
      ws := ws + [f];
      s := r.link0;
      t := t.left;
      if s.link0 == null {
        return;
      }
      r := s;
    }
  }

  /** The right child has no left subtree. */
  method UnlinkChild<C>(p: TreeNode<C>, r: TreeNode<C>, pa: array<TreeNode<C>>, da: array<nat>, k0: nat, ghost root: TreeNode<C>, ghost cs: NPath<C>, ghost t: NTree<C>)
    returns (k: nat, gone: C, ghost ds: NPath<C>)
    requires Held(root, cs, t) && t.Node? && t.ref == p && t.right.Node? && t.right.ref == r && t.right.left.Leaf?
    requires OnStack(pa, da, root, cs) && k0 == |cs| + 1 < pa.Length
    modifies pa, da, ({root} + Under(cs) + Refs(t))`link0, ({root} + Under(cs) + Refs(t))`link1, Refs(t)`tag
    ensures Spliced(cs, t, ds, [], t.right, t.right.right, gone) && |ds| == |cs| + 1
    ensures Held(root, ds, t.right.right) && OnStack(pa, da, root, ds) && k == |ds| + 1
    ensures Refs(t.right.right) + Under(ds) == Refs(t) + Under(cs) - {p}
  {
    hide Refs, Sep, Shape, Under, PathAt, PathSep, Held;
    ghost var g := Frame(r, 1, t.right.key, t.tag, t.left);
    ds := cs + [g];
    assert cs + [g] + [] == ds;
    PlugNothing(t.right);
    StackTop(pa, da, root, cs);
    AboveOutside(root, cs);
    TopsInside(t);
    gone := SpliceChild(pa[k0 - 1], da[k0 - 1], p, r, root, cs, t);
    PathAlive(ds);
    Alive(t.right.right);
    Push(pa, da, k0, r, 1, root, cs, g);
    k := k0 + 1;
  }

  /** The right child has a left subtree: its least node s is taken. */
  method UnlinkLeast<C>(p: TreeNode<C>, r0: TreeNode<C>, pa: array<TreeNode<C>>, da: array<nat>, k0: nat, ghost root: TreeNode<C>, ghost whole: NTree<C>, ghost cs: NPath<C>, ghost t: NTree<C>)
    returns (k: nat, gone: C, ghost ds: NPath<C>, ghost ws: NPath<C>, ghost low: NTree<C>)
    requires Held(root, cs, t) && Plug(cs, t) == whole && Height(whole) <= pa.Length == da.Length
    requires t.Node? && t.ref == p && t.right.Node? && t.right.ref == r0 && t.right.left.Node?
    requires OnStack(pa, da, root, cs) && k0 == |cs| + 1
    modifies pa, da, ({root} + Under(cs) + Refs(t))`link0, ({root} + Under(cs) + Refs(t))`link1, (Under(cs) + Refs(t))`tag
    ensures low.Node? && Spliced(cs, t, ds, ws, low, low.right, gone) && |ds| < Height(whole)
    ensures Held(root, ds, low.right) && OnStack(pa, da, root, ds) && k == |ds| + 1
    ensures Refs(low.right) + Under(ds) == Refs(t) + Under(cs) - {p}
  {
    hide Plug, Refs, Sep, Shape, Under, PathAt, PathSep, Held, OnStack, OnStackBut, Walk, Height;
    var j := k0;
    ghost var f := LeastStart(root, pa, da, whole, cs, t);
    var r, s: TreeNode<C>;
    k, r, s, ws, low := WalkToLeast(pa[0], r0, pa, da, j, whole, cs + [f], t.right);
    ghost var g := Frame(low.ref, 1, low.key, f.tag, f.sib);
    ds := cs + [g] + ws;
    WalkParts(root, whole, cs + [f], t.right, ws, low);
    AboveOutside(root, cs);
    TopsInside(t);
    TopsInside(low);
    assert (cs + [f] + ws)[|cs + [f] + ws| - 1] == ws[|ws| - 1];
    LastInside(cs + [f] + ws);
    Alive(t);
    Alive(low);
    PathAlive(cs);
    PathAlive(cs + [f] + ws);
    FillEntry(pa, da, j, s, root, cs, f, g, ws);
    EntryAbove(pa, da, root, cs, [g] + ws);
    gone, g := SpliceLeast(pa[j - 1], da[j - 1], p, s, r, root, cs, f, ws, low);
  }

  lemma WalkParts<C>(root: TreeNode<C>, whole: NTree<C>, us: NPath<C>, t0: NTree<C>, ws: NPath<C>, t: NTree<C>)
    requires Walk(root, whole, us, t0, ws, t)
    ensures Held(root, us + ws, t) && Plug(ws, t) == t0 && AllLeft(ws) && Refs(t) + Under(us + ws) == Refs(t0) + Under(us)
  {
  }

  /** Before the walk: the path through the node to delete. */
  lemma {:induction false} LeastStart<C>(root: TreeNode<C>, pa: array<TreeNode<C>>, da: array<nat>, whole: NTree<C>, cs: NPath<C>, t: NTree<C>)
    returns (f: NFrame<C>)
    requires Held(root, cs, t) && Plug(cs, t) == whole && t.Node? && t.right.Node? && OnStack(pa, da, root, cs)
    requires Height(whole) <= pa.Length
    ensures f == Frame(t.ref, 1, t.key, t.tag, t.left) && 0 < pa.Length && pa[0] == root
    ensures Walk(root, whole, cs + [f], t.right, [], t.right) && OnStackBut(pa, da, root, cs + [f], |cs| + 1)
    ensures Refs(t.right) + Under(cs + [f]) == Refs(t) + Under(cs)
  {
    hide Plug, Refs, Sep, Shape, Under, PathAt, PathSep, Held, Height;
    f := Frame(t.ref, 1, t.key, t.tag, t.left);
    Unzip(root, cs, t, 1);
    PlugPush(cs, f, t.right);
    PathShort(cs + [f], t.right, whole);
    WalkStart(root, whole, cs + [f], t.right);
  }

  /** Cuts the node p out of the tree; k and the stacks then describe the path to the gap. */
  method Unlink<C>(p: TreeNode<C>, pa: array<TreeNode<C>>, da: array<nat>, k0: nat, ghost root: TreeNode<C>, ghost whole: NTree<C>, ghost cs: NPath<C>, ghost t: NTree<C>)
    returns (k: nat, gone: C, ghost ds: NPath<C>, ghost ws: NPath<C>, ghost low: NTree<C>, ghost x: NTree<C>)
    requires Held(root, cs, t) && Plug(cs, t) == whole && Height(whole) <= pa.Length == da.Length
    requires t.Node? && t.ref == p && OnStack(pa, da, root, cs) && k0 == |cs| + 1
    modifies pa, da, ({root} + Under(cs) + Refs(t))`link0, ({root} + Under(cs) + Refs(t))`link1, (Under(cs) + Refs(t))`tag
    ensures Spliced(cs, t, ds, ws, low, x, gone) && |ds| < Height(whole)
    ensures Held(root, ds, x) && OnStack(pa, da, root, ds) && k == |ds| + 1
    ensures Refs(x) + Under(ds) == Refs(t) + Under(cs) - {p}
  {
    hide Plug, Refs, Sep, Shape, Under, PathAt, PathSep, Held, OnStack, Height;
    HeldTops(root, cs, t);
    PathShort(cs, t, whole);
    StackAt(pa, da, root, cs);
    AboveOutside(root, cs);
    ws, low := [], Leaf;
    var r := p.link1;
    if r == null {
      k, gone, ds, x := k0, p.tag, cs, t.left;
      CutLow(pa[k - 1], da[k - 1], p, root, cs, t);
    } else if r.link0 == null {
      low, x := t.right, t.right.right;
      ChildShort(cs, t, whole);
      k, gone, ds := UnlinkChild(p, r, pa, da, k0, root, cs, t);
    } else {
      k, gone, ds, ws, low := UnlinkLeast(p, r, pa, da, k0, root, whole, cs, t);
      x := low.right;
    }
  }

  lemma {:induction false} ChildShort<C>(cs: NPath<C>, t: NTree<C>, whole: NTree<C>)
    requires Plug(cs, t) == whole && t.Node? && t.right.Node?
    ensures |cs| + 1 < Height(whole)
  {
    hide Plug;
    PlugPush(cs, Frame(t.ref, 1, t.key, t.tag, t.left), t.right);
    PathShort(cs + [Frame(t.ref, 1, t.key, t.tag, t.left)], t.right, whole);
  }
}
