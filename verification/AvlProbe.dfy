/** avl.c: avl_probe. */
module AvlProbe {
  import opened Seqs
  import opened SlabModel
  import opened AddModel
  import opened Trees
  import opened TreeHeap
  import opened TreeStack
  import opened TreeSplice
  import opened TreeWay
  import opened AvlModel
  import opened AvlHeap

  type APathN = NPath<int>
  type ATreeN = NTree<int>

  /* ---- the search ---- */

  /** Where the search stands: y is the last node passed that leaned, or the first one, z the node above
      it, and the cached directions start at y. */
  ghost predicate Tracks(root: TreeNode<int>, cs: APathN, t: ATreeN, m: nat, y: TreeNode?<int>, z: TreeNode<int>, k: nat, da: array<nat>)
    reads da
  {
    && m <= |cs| && (cs != [] ==> m < |cs|) && z == Above(root, cs[..m]) && y == (if m < |cs| then cs[m].ref else Top(t))
    && (m < |cs| ==> cs[m].tag != 0 || m == 0) && (forall i :: m < i < |cs| ==> cs[i].tag == 0)
    && k == |cs| - m <= da.Length && (forall i :: m <= i < |cs| ==> da[i - m] == cs[i].dir)
  }

  /** The loop of avl_probe that looks for the place of item. */
  method Seek(table: AvlTable, item: int, da: array<nat>)
    returns (p: TreeNode?<int>, q: TreeNode<int>, dir: nat, y: TreeNode?<int>, z: TreeNode<int>, k: nat, ghost cs: APathN, ghost t: ATreeN, ghost m: nat)
    requires table.Valid() && Height(table.tree) <= AVL_MAX_HEIGHT == da.Length
    modifies da
    ensures Held(table.avl_root, cs, t) && Plug(cs, t) == table.tree && Top(t) == p
    ensures AllBelow(Lefts(cs), item) && AllAbove(Rights(cs), item)
    ensures p != null ==> p.data == item && t.key == item
    ensures q == Above(table.avl_root, cs) && dir == AboveDir(cs) && Tracks(table.avl_root, cs, t, m, y, z, k, da)
  {
    hide Items, Plug, Refs, Sep, Shape, Under, PathAt, PathSep, StrictlySorted, Lefts, Rights, Held, AvlOk, Height;
    ghost var whole := table.tree;
    ghost var nodes := Refs(whole) + Under<TreeNode<int>, int>([]);
    Known(table);
    HeldStart(table.avl_root, whole);
    z := table.avl_root;
    y := table.avl_root.link0;
    dir, k, m := 0, 0, 0;
    q, p := z, y;
    cs, t := [], whole;
    while p != null
      invariant Held(table.avl_root, cs, t) && Plug(cs, t) == whole && Top(t) == p
      invariant AllBelow(Lefts(cs), item) && AllAbove(Rights(cs), item)
      invariant q == Above(table.avl_root, cs) && dir == AboveDir(cs) && Tracks(table.avl_root, cs, t, m, y, z, k, da)
      decreases t
    {
      HeldTops(table.avl_root, cs, t);
      if item == p.data {
        return;
      }
      dir := if item > p.data then 1 else 0;
      ghost var f := Frame(t.ref, dir, t.key, t.tag, Child(t, 1 - dir));
      Unzip(table.avl_root, cs, t, dir);
      StepOrder(cs, t, item, whole);
      PathShort(cs, t, whole);
      Alive(Child(t, dir));
      PathAlive(cs + [f]);
      y, z, k := Track(da, p, q, y, z, k, dir, table.avl_root, cs, t, m);
      m := if t.tag != 0 then |cs| else m;
      q := p;
      p := p.Link(dir);
      cs, t := cs + [f], Child(t, dir);
    }
  }

  lemma Known(table: AvlTable)
    requires table.Valid()
    ensures Held(table.avl_root, [], table.tree) && StrictlySorted(Items(table.tree)) && AvlOk(table.tree)
    ensures table.avl_count == |Items(table.tree)|
  {
  }

  /** if (p->avl_balance != 0) z = q, y = p, k = 0; da[k++] = dir. */
  method Track(da: array<nat>, p: TreeNode<int>, q: TreeNode<int>, y0: TreeNode?<int>, z0: TreeNode<int>, k0: nat, dir: nat, ghost root: TreeNode<int>, ghost cs: APathN, ghost t: ATreeN, ghost m: nat)
    returns (y: TreeNode?<int>, z: TreeNode<int>, k: nat)
    requires Tracks(root, cs, t, m, y0, z0, k0, da) && t.Node? && t.ref == p && p.tag == t.tag && q == Above(root, cs)
    requires |cs| < da.Length && dir <= 1
    modifies da
    ensures var f := Frame(t.ref, dir, t.key, t.tag, Child(t, 1 - dir));
      Tracks(root, cs + [f], Child(t, dir), if t.tag != 0 then |cs| else m, y, z, k, da)
  {
    y, z, k := y0, z0, k0;
    if p.tag != 0 {
      z := q;
      y := p;
      k := 0;
    }
    da[k] := dir;
    k := k + 1;
    ghost var f := Frame(t.ref, dir, t.key, t.tag, Child(t, 1 - dir));
    assert (cs + [f])[..|cs|] == cs;
    assert (cs + [f])[..m] == cs[..m];
  }

  /* ---- updating balance factors ---- */

  /** One node on the path below y: if (da[k] == 0) p->avl_balance--; else p->avl_balance++. */
  method BumpOne(p: TreeNode<int>, d: nat, ghost root: TreeNode<int>, ghost us: APathN, ghost f: AFrame<TreeNode<int>>, ghost ws: APathN, ghost t: ATreeN)
    requires Held(root, us + [f] + ws, t) && f.ref == p && f.dir == d
    modifies p`tag
    ensures Held(root, us + [Bump(f)] + ws, t) && p.Link(d) == First(ws, Top(t))
    ensures Under(us + [Bump(f)] + ws) == Under(us + [f] + ws)
  {
    hide Shape, Sep, Refs, Under, PathAt, PathSep, SegAt;
    OpenAround(root, us, f, ws, t);
    Alive(t);
    Alive(f.sib);
    PathAlive(us);
    PathAlive(ws);
    if d == 0 {
      p.tag := p.tag - 1;
    } else {
      p.tag := p.tag + 1;
    }
    CloseAround(root, us, Bump(f), ws, t);
  }

  /** The loop of avl_probe that updates the balance factors from y down to the new node n. */
  method BumpDown(y: TreeNode<int>, n: TreeNode<int>, da: array<nat>, ghost root: TreeNode<int>, ghost us: APathN, ghost vs: APathN, ghost t: ATreeN)
    requires Held(root, us + vs, t) && t.Node? && t.ref == n && First(vs, n) == y && |vs| <= da.Length
    requires forall i :: 0 <= i < |vs| ==> da[i] == vs[i].dir
    modifies Under(us + vs)`tag
    ensures Held(root, us + BumpAll(vs), t) && Under(us + BumpAll(vs)) == Under(us + vs)
  {
    hide Shape, Sep, Refs, Under, PathAt, PathSep, SegAt, BumpAll;
    PathAlive(us + vs);
    ghost var all := Under(us + vs);
    var p, k := y, 0;
    BumpNone(us, vs);
    while p != n
      invariant k <= |vs| && p == First(vs[k..], n)
      invariant Held(root, us + BumpAll(vs[..k]) + vs[k..], t) && Under(us + BumpAll(vs[..k]) + vs[k..]) == all
      decreases |vs| - k
    {
      BumpNext(us, vs, k, t);
      BumpOne(p, da[k], root, us + BumpAll(vs[..k]), vs[k], vs[k + 1..], t);
      p := p.Link(da[k]);
      k := k + 1;
    }
    BumpEnd(root, us, vs, k, t);
  }

  /** The next node is on the path, and its update moves the border between new and old factors. */
  lemma {:induction false} BumpNext(us: APathN, vs: APathN, k: nat, t: ATreeN)
    requires k <= |vs| && t.Node? && First(vs[k..], t.ref) != t.ref
    ensures k < |vs| && First(vs[k..], t.ref) == vs[k].ref
    ensures us + BumpAll(vs[..k]) + vs[k..] == us + BumpAll(vs[..k]) + [vs[k]] + vs[k + 1..]
    ensures us + BumpAll(vs[..k]) + [Bump(vs[k])] + vs[k + 1..] == us + BumpAll(vs[..k + 1]) + vs[k + 1..]
    ensures vs[k].ref in Under(us + BumpAll(vs[..k]) + vs[k..])
  {
    BumpBorder(us, vs, k);
  }

  /** The loop ends below the last node of the path: no node on it is the new one. */
  lemma {:induction false} BumpEnd(root: TreeNode<int>, us: APathN, vs: APathN, k: nat, t: ATreeN)
    requires k <= |vs| && t.Node? && First(vs[k..], t.ref) == t.ref && Held(root, us + BumpAll(vs[..k]) + vs[k..], t)
    ensures us + BumpAll(vs[..k]) + vs[k..] == us + BumpAll(vs)
  {
    if k < |vs| {
      assert us + BumpAll(vs[..k]) + vs[k..] == us + BumpAll(vs[..k]) + [vs[k]] + vs[k + 1..];
      PathApart(root, us + BumpAll(vs[..k]), vs[k], vs[k + 1..], t);
      assert false;
    }
    assert vs[..k] == vs;
  }

  lemma {:induction false} PathApart(root: TreeNode<int>, us: APathN, f: AFrame<TreeNode<int>>, ws: APathN, t: ATreeN)
    requires Held(root, us + [f] + ws, t) && t.Node?
    ensures f.ref != t.ref
  {
    OpenAround(root, us, f, ws, t);
    TopInside(t);
  }

  /* ---- rebalancing and the whole of avl_probe ---- */

  /** The lower part of a path goes into the tree. */
  lemma {:induction false} ZipSome(root: TreeNode<int>, us: APathN, ws: APathN, t: ATreeN)
    requires Held(root, us + ws, t)
    ensures Held(root, us, Plug(ws, t)) && Refs(Plug(ws, t)) + Under(us) == Refs(t) + Under(us + ws)
    decreases |ws|
  {
    hide Refs, Sep, Shape, Under, PathAt, PathSep, Held;
    if ws == [] {
      assert us + ws == us;
    } else {
      var n := |ws| - 1;
      assert (us + ws)[..|us| + n] == us + ws[..n] && (us + ws)[|us| + n] == ws[n];
      Zip(root, us + ws, t);
      ZipSome(root, us, ws[..n], Fill(ws[n], t));
    }
  }

  /** What a rotation at the lowest node of the path has to work on. */
  lemma {:induction false} OpenLast(root: TreeNode<int>, us: APathN, f: AFrame<TreeNode<int>>, low: ATreeN)
    requires Held(root, us + [f], low)
    ensures PathAt(root, us, f.ref) && PathSep(us) && root !in Under(us) && root != f.ref && f.ref !in Under(us)
    ensures f.dir <= 1 && f.ref.tag == f.tag && Before(f.ref, f.key, f.dir, low, f.sib) && Before(f.ref, f.key, 1 - f.dir, f.sib, low)
    ensures ({f.ref} + Refs(low) + Refs(f.sib)) !! Under(us) && root !in Refs(low) && root !in Refs(f.sib)
    ensures Refs(low) + Under(us + [f]) == {f.ref} + Refs(low) + Refs(f.sib) + Under(us)
  {
    hide Shape, Sep, Refs;
    assert us + [f] + [] == us + [f];
    OpenAround(root, us, f, [], low);
  }

  /** z->avl_link[y != z->avl_link[0]] is the link that y hangs at. */
  lemma {:induction false} LinkOf(root: TreeNode<int>, us: APathN, y: TreeNode<int>)
    requires PathAt(root, us, y) && PathSep(us) && root !in Under(us) && y !in Under(us)
    ensures AboveDir(us) == if y != Above(root, us).link0 then 1 else 0
  {
    if us != [] {
      var f := us[|us| - 1];
      assert FrameAt(f, y);
      if f.dir == 1 && f.sib.Node? {
        assert f.sib.ref in Refs(f.sib) && f.sib.ref in Under(us);
      }
    }
  }

  lemma TopKeys(t: ATreeN, d: nat)
    requires t.Node? && d <= 1
    ensures t.key in Items(t) && (Child(t, 1 - d).Node? ==> Child(t, 1 - d).key in Items(t))
  {
    assert Items(t) == Items(t.left) + [t.key] + Items(t.right);
    assert t.left.Node? ==> t.left.key in Items(t.left);
    assert t.right.Node? ==> t.right.key in Items(t.right);
  }

  /** The rebalancing of avl_probe at y, which has come to lean by two, and the link from z to the new
      top w. */
  method RebalanceGrown(y: TreeNode<int>, z: TreeNode<int>, ghost root: TreeNode<int>, ghost us: APathN, ghost f: AFrame<TreeNode<int>>, ghost low: ATreeN)
    returns (ghost u: ATreeN)
    requires Held(root, us + [f], low) && f.ref == y && z == Above(root, us) && f.dir <= 1 && f.tag == 2 * Sign(f.dir)
    requires AvlOk(low) && AvlOk(f.sib) && Height(low) == Height(f.sib) + 2 && low.Node? && low.tag != 0
    modifies ({root} + Under(us + [f]) + Refs(low))`link0, ({root} + Under(us + [f]) + Refs(low))`link1, (Under(us + [f]) + Refs(low))`tag
    ensures Held(root, us, u) && AvlOk(u) && Height(u) == Height(low) && Items(u) == Items(Fill(f, low))
    ensures Refs(u) + Under(us) == Refs(low) + Under(us + [f])
    ensures u.Node? && u.key in Items(low)
  {
    hide Shape, Sep, Refs, Under, PathAt, PathSep, Held, AvlOk, Height, Items;
    OpenLast(root, us, f, low);
    TopKeys(low, f.dir);
    Leaning(low);
    LinkOf(root, us, y);
    AboveOutside(root, us);
    LastInside(us + [f]);
    UpperUnder(us + [f]);
    assert (us + [f])[..|us|] == us;
    TopInside(low);
    PathAlive(us);
    var d := if y.tag == -2 then 0 else 1;
    var x := y.Link(d);
    var w := x;
    TagOf(low);
    if x.tag == Sign(d) {
      u := Single(y, f.key, d, low, f.sib, 0, 0);
      SingleStep(y, f.key, d, low, f.tag, f.sib);
      RotateSingle(y, x, d, 0, 0, f.key, low, f.sib);
    } else {
      DoubleStep(y, f.key, d, low, f.tag, f.sib);
      u := Double(y, f.key, d, low, f.sib);
      InnerOk(low, 1 - d);
      w := RotateDouble(y, x, d, f.key, low, f.sib);
    }
    Alive(u);
    SetHole(z, if y != z.link0 then 1 else 0, w, root, us, y);
    HeldNew(root, us, u, {y} + Refs(low) + Refs(f.sib));
  }

  lemma TagOf(t: ATreeN)
    requires Shape(t) && t.Node?
    ensures t.ref.tag == t.tag
  {
  }

  lemma InnerOk(t: ATreeN, d: nat)
    requires d <= 1 && AvlOk(t) && t.Node? && Child(t, d).Node?
    ensures -1 <= Child(t, d).tag <= 1 && Child(t, d).ref in Refs(t)
  {
    assert Child(t, d).ref in Refs(Child(t, d));
  }

  /** The path to the new leaf in three parts: us leads to the node to update from, f is that node, and
      ws leads on from it through even nodes. */
  lemma {:induction false} PathParts(root: TreeNode<int>, cs: APathN, m: nat, y: TreeNode<int>, z: TreeNode<int>, k: nat, da: array<nat>)
    returns (us: APathN, f: AFrame<TreeNode<int>>, ws: APathN)
    requires Tracks(root, cs, Leaf, m, y, z, k, da)
    ensures cs == us + [f] + ws && (f.tag == 0 ==> us == []) && AllEven(ws)
    ensures f.ref == y && z == Above(root, us) && 1 + |ws| <= da.Length
    ensures forall i :: 0 <= i < 1 + |ws| ==> da[i] == ([f] + ws)[i].dir
  {
    us, f, ws := cs[..m], cs[m], cs[m + 1..];
    PathInThree(cs, m, da[..]);
  }

  /** Only the tree without nodes leaves no node to update from. */
  lemma TracksNothing(root: TreeNode<int>, cs: APathN, m: nat, y: TreeNode?<int>, z: TreeNode<int>, k: nat, da: array<nat>)
    requires Tracks(root, cs, Leaf, m, y, z, k, da)
    ensures y == null ==> cs == []
  {
  }

  /** The table with its new tree. */
  method Install(table: AvlTable, ghost w: ATreeN)
    requires Held(table.avl_root, [], w) && AvlOk(w) && StrictlySorted(Items(w)) && table.avl_count == |Items(w)|
    modifies table`tree
    ensures table.Valid() && table.tree == w
  {
    hide Shape, Sep, Refs, StrictlySorted, Items, AvlOk;
    table.tree := w;
  }

  /** The update of the factors, and the part of the path below y folded into the tree. */
  method UpdateFactors(y: TreeNode<int>, n: TreeNode<int>, da: array<nat>, ghost root: TreeNode<int>, ghost us: APathN, ghost f: AFrame<TreeNode<int>>, ghost ws: APathN, ghost t: ATreeN)
    requires Held(root, us + [f] + ws, t) && t.Node? && t.ref == n && f.ref == y && 1 + |ws| <= da.Length
    requires forall i :: 0 <= i < 1 + |ws| ==> da[i] == ([f] + ws)[i].dir
    modifies Under(us + [f] + ws)`tag
    ensures var low := Plug(BumpAll(ws), t);
      && Held(root, us + [Bump(f)], low) && Items(Plug(us, Fill(Bump(f), low))) == Items(Plug(us + [f] + ws, t))
      && Refs(low) + Under(us + [Bump(f)]) == Refs(t) + Under(us + [f] + ws)
  {
    hide Shape, Sep, Refs, Under, PathAt, PathSep, Held, Items, Plug, BumpAll;
    assert us + ([f] + ws) == us + [f] + ws;
    PathAlive(us + [f] + ws);
    BumpItems(us, [f] + ws, t);
    BumpCons(f, ws);
    assert us + ([Bump(f)] + BumpAll(ws)) == us + [Bump(f)] + BumpAll(ws);
    PlugSplit(us + [Bump(f)], BumpAll(ws), t);
    PlugPush(us, Bump(f), Plug(BumpAll(ws), t));
    BumpDown(y, n, da, root, us, [f] + ws, t);
    ZipSome(root, us + [Bump(f)], BumpAll(ws), t);
  }

  /** The part of avl_probe after the new node n is linked: factors from y on, and one rebalancing. The
      generation changes only with a rebalancing. */
  method Rebalance(table: AvlTable, n: TreeNode<int>, y: TreeNode<int>, z: TreeNode<int>, da: array<nat>, ghost us: APathN, ghost f: AFrame<TreeNode<int>>, ghost ws: APathN, ghost item: int)
    requires var t: ATreeN := Node(n, Leaf, item, 0, Leaf); var cs := us + [f] + ws;
      && Held(table.avl_root, cs, t) && AvlOk(Plug(cs, Leaf)) && (f.tag == 0 ==> us == []) && AllEven(ws)
      && StrictlySorted(Items(Plug(cs, t))) && table.avl_count == |Items(Plug(cs, t))| && StrictlySorted(Items(Plug(cs, Leaf)))
    requires f.ref == y && z == Above(table.avl_root, us) && 1 + |ws| <= da.Length && forall i :: 0 <= i < 1 + |ws| ==> da[i] == ([f] + ws)[i].dir
    modifies ({table.avl_root, n} + Under(us + [f] + ws))`link0, ({table.avl_root, n} + Under(us + [f] + ws))`link1, ({n} + Under(us + [f] + ws))`tag
    modifies table`tree, table`avl_generation
    ensures table.Valid() && Items(table.tree) == Items(Plug(us + [f] + ws, Node(n, Leaf, item, 0, Leaf)))
    ensures Refs(table.tree) == {n} + Under(us + [f] + ws)
    ensures table.avl_generation == old(table.avl_generation) || table.avl_generation == old(table.avl_generation) + 1
    ensures table.avl_generation == old(table.avl_generation) ==> table.tree == Plug(us, Fill(Bump(f), Plug(BumpAll(ws), Node(n, Leaf, item, 0, Leaf))))
    ensures table.avl_generation != old(table.avl_generation) ==> !WaysKept(Plug(us + [f] + ws, Leaf), table.tree)
  {
    hide Shape, Sep, Refs, Under, PathAt, PathSep, Held, AvlOk, Height, Items, StrictlySorted, Plug, Wants, AvlTable.Valid, BumpAll, WaysKept;
    ghost var t: ATreeN := Node(n, Leaf, item, 0, Leaf);
    ghost var cs := us + [f] + ws;
    LeafRefs(n, item);
    HeldSep(table.avl_root, cs, t);
    ghost var low := GrowthBelow(us, f, ws, n, item);
    PathAlive(cs);
    UpdateFactors(y, n, da, table.avl_root, us, f, ws, t);
    OpenLast(table.avl_root, us, Bump(f), low);
    ghost var u := Fill(Bump(f), low);
    if y.tag == -2 || y.tag == 2 {
      u := RebalanceGrown(y, z, table.avl_root, us, Bump(f), low);
      ItemsSwap(us, u, Fill(Bump(f), low));
      RotationMoves(us, f, ws, low, u);
      table.avl_generation := table.avl_generation + 1;
    } else {
      ZipLast(table.avl_root, us, Bump(f), low);
    }
    Close(table, us, u);
  }

  lemma LeafRefs(n: TreeNode<int>, item: int)
    ensures Refs<TreeNode<int>, int>(Node(n, Leaf, item, 0, Leaf)) == {n}
  {
  }

  lemma ZipLast(root: TreeNode<int>, us: APathN, f: AFrame<TreeNode<int>>, low: ATreeN)
    requires Held(root, us + [f], low)
    ensures Held(root, us, Fill(f, low)) && Refs(Fill(f, low)) + Under(us) == Refs(low) + Under(us + [f])
  {
    hide Shape, Sep, Refs, Under, PathAt, PathSep, Held;
    assert (us + [f])[..|us|] == us;
    Zip(root, us + [f], low);
  }

  /** The balanced subtree u in its place makes the new tree of the table. */
  method Close(table: AvlTable, ghost us: APathN, ghost u: ATreeN)
    requires Held(table.avl_root, us, u) && AvlOk(u) && Wants(us, Height(u))
    requires StrictlySorted(Items(Plug(us, u))) && table.avl_count == |Items(Plug(us, u))|
    modifies table`tree
    ensures table.Valid() && table.tree == Plug(us, u) && Refs(table.tree) == Refs(u) + Under(us)
  {
    hide Shape, Sep, Refs, Under, PathAt, PathSep, Held, AvlOk, Height, Items, StrictlySorted, Plug, Wants, AvlTable.Valid;
    PlugAvl(us, u);
    ZipAll(table.avl_root, us, u);
    Install(table, Plug(us, u));
  }

  lemma HeldSep<C>(root: TreeNode<C>, cs: NPath<C>, t: NTree<C>)
    requires Held(root, cs, t)
    ensures PathSep(cs)
  {
  }

  /** The first node of a tree. */
  method Lone(table: AvlTable, ghost cs: APathN, ghost t: ATreeN)
    requires cs == [] && Held(table.avl_root, cs, t) && AvlOk(t) && StrictlySorted(Items(Plug(cs, t)))
    requires table.avl_count == |Items(Plug(cs, t))|
    modifies table`tree
    ensures table.Valid() && table.tree == Plug(cs, t) == t
  {
    hide Shape, Sep, Refs, Under, PathAt, PathSep, Held, AvlOk, Items, StrictlySorted;
    Install(table, t);
  }

  /** The searches for the items of t go the same way in u. */
  ghost predicate WaysKept(t: ATreeN, u: ATreeN) {
    forall x :: x in Items(t) ==> Way(u, x) == Way(t, x)
  }

  /** A new leaf and new balance factors leave the way to every other item as it was. */
  lemma {:induction false} LeafKeepsWays(us: APathN, f: AFrame<TreeNode<int>>, ws: APathN, n: TreeNode<int>, item: int)
    requires StrictlySorted(Items(Plug(us + [f] + ws, Leaf)))
    ensures WaysKept(Plug(us + [f] + ws, Leaf), Plug(us, Fill(Bump(f), Plug(BumpAll(ws), Node(n, Leaf, item, 0, Leaf)))))
  {
    hide StrictlySorted, Items, Plug, Way, BumpAll;
    var leaf: ATreeN := Node(n, Leaf, item, 0, Leaf);
    var cs, ds := us + [f] + ws, us + [Bump(f)] + BumpAll(ws);
    PlugSplit(us + [Bump(f)], BumpAll(ws), leaf);
    PlugPush(us, Bump(f), Plug(BumpAll(ws), leaf));
    NoItems();
    forall x | x in Items(Plug(cs, Leaf)) ensures Way(Plug(ds, leaf), x) == Way(Plug(cs, Leaf), x) {
      WaySwap(cs, ds, Leaf, leaf, x);
    }
  }

  /** A rotation does not: the way to the item of the node that goes down gets longer. */
  lemma {:induction false} RotationMoves(us: APathN, f: AFrame<TreeNode<int>>, ws: APathN, low: ATreeN, u: ATreeN)
    requires StrictlySorted(Items(Plug(us + [f] + ws, Leaf))) && StrictlySorted(Items(Plug(us, u)))
    requires Items(u) == Items(Fill(Bump(f), low)) && u.Node? && u.key in Items(low)
    ensures !WaysKept(Plug(us + [f] + ws, Leaf), Plug(us, u))
  {
    hide StrictlySorted, Items, Plug, Way;
    var t := Fill(f, Plug(ws, Leaf));
    PlugSplit(us + [f], ws, Leaf);
    PlugPush(us, f, Plug(ws, Leaf));
    FillKey(f, Plug(ws, Leaf));
    FillKey(Bump(f), low);
    ItemsSwap(us, Fill(Bump(f), low), u);
    Sides(us, Bump(f), low);
    WayThrough(us, t, f.key);
    WayThrough(us, u, f.key);
    WayThere(u, f.key);
    PlugItems(us, t);
    assert f.key in Items(Plug(us, t));
    assert Way(Plug(us, t), f.key) == PathRefs(us) + [] != PathRefs(us) + Way(u, f.key);
  }

  lemma FillKey(f: AFrame<TreeNode<int>>, t: ATreeN)
    ensures f.key in Items(Fill(f, t)) && Way(Fill(f, t), f.key) == [] && Bump(f).key == f.key
  {
  }

  lemma WayThere(t: ATreeN, item: int)
    ensures t.Node? && t.key != item ==> Way(t, item) != []
  {
  }

  lemma NoItems()
    ensures Items<TreeNode<int>, int>(Leaf) == []
  {
  }

  /** n = q->avl_link[dir] = a new node with item. */
  method PlaceLeaf(q: TreeNode<int>, dir: nat, item: int, ghost root: TreeNode<int>, ghost cs: APathN)
    returns (n: TreeNode<int>)
    requires Held(root, cs, Leaf) && q == Above(root, cs) && dir == AboveDir(cs)
    modifies q`link0, q`link1
    ensures fresh(n) && n.data == item && Held(root, cs, Node(n, Leaf, item, 0, Leaf))
  {
    hide Shape, Sep, Refs, Under, PathAt, PathSep;
    PathAlive(cs);
    AboveOutside(root, cs);
    ghost var before := Under(cs);
    n := new TreeNode<int>(item, 0);
    assert n !in before;
    SetHole(q, dir, n, root, cs, null);
    NewLeaf(root, cs, n, item, 0);
  }

  /** The part of avl_probe after the search has ended at an empty link. */
  method Grow(table: AvlTable, item: int, da: array<nat>, q: TreeNode<int>, dir: nat, y: TreeNode?<int>, z: TreeNode<int>, k: nat, ghost cs: APathN, ghost m: nat)
    returns (n: TreeNode<int>)
    requires table.Valid() && Held(table.avl_root, cs, Leaf) && Plug(cs, Leaf) == table.tree
    requires AllBelow(Lefts(cs), item) && AllAbove(Rights(cs), item)
    requires q == Above(table.avl_root, cs) && dir == AboveDir(cs) && Tracks(table.avl_root, cs, Leaf, m, y, z, k, da)
    modifies table`tree, table`avl_count, table`avl_generation
    modifies ({table.avl_root} + Refs(table.tree))`link0, ({table.avl_root} + Refs(table.tree))`link1, Refs(table.tree)`tag
    ensures table.Valid() && fresh(n) && n.data == item && item !in old(Items(table.tree))
    ensures Items(table.tree) == InsertSorted(old(Items(table.tree)), item) && Refs(table.tree) == old(Refs(table.tree)) + {n}
    ensures table.avl_generation == old(table.avl_generation) || table.avl_generation == old(table.avl_generation) + 1
    ensures table.avl_generation == old(table.avl_generation) <==> WaysKept(old(table.tree), table.tree)
  {
    hide Shape, Sep, Refs, Under, PathAt, PathSep, Held, AvlOk, Height, Items, StrictlySorted, Plug, Wants, AvlTable.Valid, Lefts, Rights, InsertSorted;
    hide WaysKept, Tracks, AllEven;
    ghost var whole := table.tree;
    Known(table);
    TracksNothing(table.avl_root, cs, m, y, z, k, da);
    Absent(table.avl_root, cs, whole);
    AboveOutside(table.avl_root, cs);
    n := PlaceLeaf(q, dir, item, table.avl_root, cs);
    LeafRefs(n, item);
    ItemInserted(cs, item, n, 0);
    InsertSortedIsUnion(Items(whole), item);
    table.avl_count := table.avl_count + 1;
    if y == null {
      LeafFacts(n, item);
      FirstLeaf(cs, whole, n, item);
      Lone(table, cs, Node(n, Leaf, item, 0, Leaf));
      return;
    }
    ghost var us, f, ws := PathParts(table.avl_root, cs, m, y, z, k, da);
    LeafKeepsWays(us, f, ws, n, item);
    Rebalance(table, n, y, z, da, us, f, ws, item);
  }

  /** In an empty tree there is no way to keep. */
  lemma FirstLeaf(cs: APathN, whole: ATreeN, n: TreeNode<int>, item: int)
    requires cs == [] && Plug(cs, Leaf) == whole
    ensures WaysKept(whole, Plug(cs, Node(n, Leaf, item, 0, Leaf)))
  {
  }

  /** avl_probe: inserts item unless it is there; returns its node. With fewer than 9227464 items in the
      tree the 32 cached directions suffice. The generation stays exactly when the way to every item does. */
  method Probe(table: AvlTable, item: int) returns (n: TreeNode<int>)
    requires table.Valid() && |Items(table.tree)| < 9227464
    modifies table`tree, table`avl_count, table`avl_generation
    modifies ({table.avl_root} + Refs(table.tree))`link0, ({table.avl_root} + Refs(table.tree))`link1, Refs(table.tree)`tag
    ensures table.Valid() && n in Refs(table.tree) && n.data == item
    ensures item in old(Items(table.tree)) ==> table.tree == old(table.tree) && table.avl_generation == old(table.avl_generation)
    ensures item !in old(Items(table.tree)) ==> Items(table.tree) == InsertSorted(old(Items(table.tree)), item) && fresh(n)
    ensures Elements(Items(table.tree)) == Elements(old(Items(table.tree))) + {item}
    ensures Refs(table.tree) == old(Refs(table.tree)) + {n}
    ensures old(table.avl_generation) <= table.avl_generation <= old(table.avl_generation) + 1
    ensures table.avl_generation == old(table.avl_generation) <==> WaysKept(old(table.tree), table.tree)
  {
    hide Shape, Sep, Refs, Under, PathAt, PathSep, Held, AvlOk, Height, Items, StrictlySorted, Plug, Wants, AvlTable.Valid, Lefts, Rights, InsertSorted;
    hide Tracks;
    ghost var whole := table.tree;
    Alive(whole);
    var da := new nat[AVL_MAX_HEIGHT];
    Known(table);
    AvlModel.Low(whole);
    var p, q, dir, y, z, k, cs, t, m := Seek(table, item, da);
    if p != null {
      Found(table.avl_root, cs, t, whole);
      assert Elements(Items(whole)) == Elements(Items(whole)) + {item};
      n := p;
    } else {
      n := Grow(table, item, da, q, dir, y, z, k, cs, m);
      InsertSortedIsUnion(Items(whole), item);
      Alive(table.tree);
    }
  }
}
