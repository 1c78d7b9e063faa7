/** avl.c: avl_delete. */
module AvlDelete {
  import opened Seqs
  import opened SlabModel
  import opened AddModel
  import opened Trees
  import opened TreeHeap
  import opened TreeStack
  import opened TreeCut
  import opened TreeSplice
  import opened AvlModel
  import opened AvlHeap
  import opened AvlProbe

  /** The subtree in the hole is one lower than before, or as high again. */
  ghost predicate Lower(root: TreeNode<int>, cs: APathN, t: ATreeN, items: seq<int>, all: set<TreeNode<int>>)
    reads root, Under(cs), Refs(t)
  {
    Held(root, cs, t) && Shrunk(cs, t) && Items(Plug(cs, t)) == items && Refs(t) + Under(cs) == all
  }

  ghost predicate Level(root: TreeNode<int>, cs: APathN, t: ATreeN, items: seq<int>, all: set<TreeNode<int>>)
    reads root, Under(cs), Refs(t)
  {
    Held(root, cs, t) && AvlOk(t) && Wants(cs, Height(t)) && Items(Plug(cs, t)) == items && Refs(t) + Under(cs) == all
  }

  /** The factor of the lowest node of the path, which is y, has been set to c, and y joins the tree. */
  lemma {:induction false} FoldLast(root: TreeNode<int>, cs: APathN, t: ATreeN, c: int, u: ATreeN, items: seq<int>, all: set<TreeNode<int>>)
    requires cs != [] && var f := cs[|cs| - 1]; u == Fill(f.(tag := c), t)
    requires Held(root, cs[..|cs| - 1] + [cs[|cs| - 1].(tag := c)], t)
    requires Items(Plug(cs, t)) == items && Refs(t) + Under(cs) == all && Items(u) == Items(Fill(cs[|cs| - 1], t))
    ensures Held(root, cs[..|cs| - 1], u) && Items(Plug(cs[..|cs| - 1], u)) == items && Refs(u) + Under(cs[..|cs| - 1]) == all
  {
    hide Shape, Sep, Refs, PathAt, PathSep, Held, Items;
    var us, f := cs[..|cs| - 1], cs[|cs| - 1];
    ZipLast(root, us, f.(tag := c), t);
    ItemsSwap(us, u, Fill(f, t));
    UnderPush(us, f);
    UnderPush(us, f.(tag := c));
    assert cs == us + [f];
  }

  /** The new factor of y when the subtree below link d has shrunk. */
  method Tilt(y: TreeNode<int>, d: nat, ghost root: TreeNode<int>, ghost cs: APathN, ghost t: ATreeN)
    requires Held(root, cs, t) && cs != [] && cs[|cs| - 1].ref == y && cs[|cs| - 1].dir == d <= 1
    modifies y`tag
    ensures y.tag == cs[|cs| - 1].tag - Sign(d)
    ensures Held(root, cs[..|cs| - 1] + [cs[|cs| - 1].(tag := cs[|cs| - 1].tag - Sign(d))], t)
  {
    hide Shape, Sep, Refs, Under, PathAt, PathSep, SegAt;
    ghost var us, f := cs[..|cs| - 1], cs[|cs| - 1];
    ghost var g := f.(tag := f.tag - Sign(d));
    assert cs == us + [f] + [] && us + [g] + [] == us + [g];
    OpenAround(root, us, f, [], t);
    Alive(t);
    Alive(f.sib);
    PathAlive(us);
    SegNone(Top(t));
    if d == 0 {
      y.tag := y.tag + 1;
    } else {
      y.tag := y.tag - 1;
    }
    CloseAround(root, us, g, [], t);
  }

  lemma SegNone(hole: TreeNode?<int>)
    ensures SegAt<int>([], hole) && PathSep<TreeNode<int>, int>([]) && Under<TreeNode<int>, int>([]) == {}
  {
  }

  /** The rotation of avl_delete at y, which has come to lean by two towards link e; above is the node y
      hangs at. With the child even the height is as before, otherwise it shrinks. */
  method Turn(y: TreeNode<int>, above: TreeNode<int>, ad: nat, e: nat, ghost root: TreeNode<int>, ghost us: APathN, ghost g: AFrame<TreeNode<int>>, ghost t: ATreeN)
    returns (even: bool, ghost u: ATreeN)
    requires Held(root, us + [g], t) && g.ref == y && g.dir <= 1 && e == 1 - g.dir && above == Above(root, us) && ad == AboveDir(us)
    requires AvlOk(t) && AvlOk(g.sib) && g.sib.Node? && Height(g.sib) == Height(t) + 2
    modifies ({root} + Under(us + [g]))`link0, ({root} + Under(us + [g]))`link1, Under(us + [g])`tag
    ensures Held(root, us, u) && AvlOk(u) && Height(u) == Height(t) + (if even then 3 else 2) && Items(u) == Items(Fill(g, t))
    ensures Refs(u) + Under(us) == Refs(t) + Under(us + [g])
  {
    hide Shape, Sep, Refs, Under, PathAt, PathSep, Held, AvlOk, Height, Items;
    OpenLast(root, us, g, t);
    AboveOutside(root, us);
    LastUnder(us + [g]);
    assert (us + [g])[..|us|] == us && (us + [g])[|us|] == g;
    TopInside(g.sib);
    Leaning(g.sib);
    TagOf(g.sib);
    PathAlive(us);
    var x := y.Link(e);
    var w := x;
    even := false;
    if x.tag == -Sign(e) {
      DoubleStep(y, g.key, e, g.sib, g.tag, t);
      u := Double(y, g.key, e, g.sib, t);
      InnerOk(g.sib, 1 - e);
      w := RotateDouble(y, x, e, g.key, g.sib, t);
    } else {
      even := x.tag == 0;
      SingleStep(y, g.key, e, g.sib, g.tag, t);
      if even {
        u := Single(y, g.key, e, g.sib, t, -Sign(e), Sign(e));
        RotateSingle(y, x, e, -Sign(e), Sign(e), g.key, g.sib, t);
      } else {
        u := Single(y, g.key, e, g.sib, t, 0, 0);
        RotateSingle(y, x, e, 0, 0, g.key, g.sib, t);
      }
    }
    LopsidedIs(g, t, e);
    Alive(u);
    SetHole(above, ad, w, root, us, y);
    HeldNew(root, us, u, {y} + Refs(t) + Refs(g.sib));
  }

  /** One round of the loop of avl_delete at the lowest node of the path. */
  method Round(pa: array<TreeNode<int>>, da: array<nat>, k: nat, ghost root: TreeNode<int>, ghost cs: APathN, ghost t: ATreeN, ghost items: seq<int>, ghost all: set<TreeNode<int>>)
    returns (done: bool, ghost u: ATreeN)
    requires Lower(root, cs, t, items, all) && cs != [] && OnStack(pa, da, root, cs) && k == |cs|
    modifies ({root} + all)`link0, ({root} + all)`link1, all`tag
    ensures done ==> Level(root, cs[..k - 1], u, items, all)
    ensures !done ==> Lower(root, cs[..k - 1], u, items, all)
  {
    hide Shape, Sep, Refs, Under, PathAt, PathSep, Held, AvlOk, Height, Items, Wants, OnStack, Plug, Shrunk;
    ghost var us, f := cs[..k - 1], cs[k - 1];
    StackLast(pa, da, root, cs);
    LastUnder(cs);
    PathAlive(cs);
    LeanRange(cs, t);
    var y, d := pa[k], da[k];
    Tilt(y, d, root, cs, t);
    ghost var g := f.(tag := f.tag - Sign(d));
    if y.tag == -Sign(d) {
      ShrinkEven(cs, t);
      u := Fill(g, t);
      FoldLast(root, cs, t, g.tag, u, items, all);
      done := true;
    } else if y.tag == -2 * Sign(d) {
      ShrinkAway(cs, t);
      ShrunkOk(cs, t);
      UnderPush(us, f);
      UnderPush(us, g);
      assert cs == us + [f];
      AboveOutside(root, us);
      done, u := Turn(y, pa[k - 1], da[k - 1], 1 - d, root, us, g, t);
      FillItems(f, g, t);
      PlugPush(us, f, t);
      ItemsSwap(us, u, Fill(f, t));
      TurnShrunk(us, u, Height(t), done);
    } else {
      ShrinkToward(cs, t);
      u := Fill(g, t);
      FoldLast(root, cs, t, g.tag, u, items, all);
      done := false;
    }
  }

  lemma StackLast(pa: array<TreeNode<int>>, da: array<nat>, root: TreeNode<int>, cs: APathN)
    requires OnStack(pa, da, root, cs) && cs != []
    ensures var k := |cs|;
      && k < pa.Length == da.Length && pa[k] == cs[k - 1].ref && da[k] == cs[k - 1].dir
      && pa[k - 1] == Above(root, cs[..k - 1]) && da[k - 1] == AboveDir(cs[..k - 1]) && OnStack(pa, da, root, cs[..k - 1])
  {
  }

  /** The loop of avl_delete from the gap up to the root. */
  method Retrace(pa: array<TreeNode<int>>, da: array<nat>, k0: nat, ghost root: TreeNode<int>, ghost cs0: APathN, ghost t0: ATreeN, ghost items: seq<int>, ghost all: set<TreeNode<int>>)
    returns (ghost cs: APathN, ghost t: ATreeN)
    requires Lower(root, cs0, t0, items, all) && OnStack(pa, da, root, cs0) && k0 == |cs0| + 1
    modifies ({root} + all)`link0, ({root} + all)`link1, all`tag
    ensures Level(root, cs, t, items, all)
  {
    hide Lower, Level, OnStack;
    var k := k0 - 1;
    cs, t := cs0, t0;
    while k > 0
      invariant Lower(root, cs, t, items, all) && OnStack(pa, da, root, cs) && k == |cs|
    {
      StackLast(pa, da, root, cs);
      var done, u := Round(pa, da, k, root, cs, t, items, all);
      cs, t := cs[..k - 1], u;
      if done {
        return;
      }
      k := k - 1;
    }
    LowerAtRoot(root, cs, t, items, all);
  }

  /** At the root nothing above wants a height. */
  lemma LowerAtRoot(root: TreeNode<int>, cs: APathN, t: ATreeN, items: seq<int>, all: set<TreeNode<int>>)
    requires Lower(root, cs, t, items, all) && cs == []
    ensures Level(root, cs, t, items, all)
  {
    hide Held, AvlOk, Height, Items, Plug, Refs, Under;
  }

  lemma {:induction false} LevelWhole(root: TreeNode<int>, cs: APathN, t: ATreeN, items: seq<int>, all: set<TreeNode<int>>)
    requires Level(root, cs, t, items, all)
    ensures Held(root, [], Plug(cs, t)) && AvlOk(Plug(cs, t)) && Items(Plug(cs, t)) == items && Refs(Plug(cs, t)) == all
  {
    hide Shape, Sep, Refs, Under, PathAt, PathSep, Held, AvlOk, Height, Items, Plug;
    PlugAvl(cs, t);
    ZipAll(root, cs, t);
  }

  lemma SplicedLower(root: TreeNode<int>, ds: APathN, x: ATreeN, items: seq<int>, all: set<TreeNode<int>>)
    requires Held(root, ds, x) && Shrunk(ds, x) && Items(Plug(ds, x)) == items && Refs(x) + Under(ds) == all
    ensures Lower(root, ds, x, items, all)
  {
  }

  /** The table after the node is gone. */
  method Forget(table: AvlTable, ghost w: ATreeN)
    requires Held(table.avl_root, [], w) && AvlOk(w) && StrictlySorted(Items(w)) && table.avl_count == |Items(w)| + 1
    modifies table`tree, table`avl_count, table`avl_generation
    ensures table.Valid() && table.tree == w && table.avl_generation == old(table.avl_generation) + 1
  {
    hide Shape, Sep, Refs, StrictlySorted, Items, AvlOk;
    table.tree := w;
    table.avl_count := table.avl_count - 1;
    table.avl_generation := table.avl_generation + 1;
  }

  /** avl_delete: removes item if it is there. The stacks have 32 entries; StackSuffices and StackTooShort
      say when the second precondition holds. */
  method Delete(table: AvlTable, item: int) returns (found: bool)
    requires table.Valid() && |Items(table.tree)| < 9227464
    requires SearchDepth(table.tree, item) < AVL_MAX_HEIGHT
    modifies table`tree, table`avl_count, table`avl_generation
    modifies ({table.avl_root} + Refs(table.tree))`link0, ({table.avl_root} + Refs(table.tree))`link1, Refs(table.tree)`tag
    ensures table.Valid() && found == (item in old(Items(table.tree)))
    ensures !found ==> table.tree == old(table.tree) && table.avl_generation == old(table.avl_generation)
    ensures found ==> table.avl_generation == old(table.avl_generation) + 1
    ensures Elements(Items(table.tree)) == Elements(old(Items(table.tree))) - {item}
    ensures found ==> exists n :: n in old(Refs(table.tree)) && n.data == item && Refs(table.tree) == old(Refs(table.tree)) - {n}
  {
    hide Shape, Sep, Refs, Under, PathAt, PathSep, Held, AvlOk, Height, Items, StrictlySorted, Plug, Wants, AvlTable.Valid, Lefts, Rights, OnStack;
    hide SearchDepth, Lower, Level, Spliced, Shrunk, DeleteAt;
    ghost var whole := table.tree;
    ghost var items := Items(whole);
    Alive(whole);
    var pa := new TreeNode<int>[AVL_MAX_HEIGHT](_ => table.avl_root);
    var da := new nat[AVL_MAX_HEIGHT];
    Known(table);
    AvlModel.Low(whole);
    var k, p, cs, t := Descend(table.avl_root, item, pa, da, whole);
    if p == null {
      NotThere(table.avl_root, cs, whole, item);
      assert Elements(items) == Elements(items) - {item};
      return false;
    }
    ZipAll(table.avl_root, cs, t);
    HeldSep(table.avl_root, cs, t);
    TopInside(t);
    PathAlive(cs);
    Alive(t);
    ghost var ds, ws, low, x;
    var gone: int;
    k, gone, ds, ws, low, x := Unlink(p, pa, da, k, table.avl_root, whole, cs, t);
    HeldSep(table.avl_root, ds, x);
    SplicedItems(cs, t, ds, ws, low, x, gone);
    SplicedShrunk(cs, t, ds, ws, low, x, gone);
    ghost var i := |Lefts(cs) + Items(t.left)|;
    DeleteAtIsDifference(items, i);
    ghost var left, all := DeleteAt(items, i), Refs(whole) - {p};
    SplicedLower(table.avl_root, ds, x, left, all);
    ds, x := Retrace(pa, da, k, table.avl_root, ds, x, left, all);
    LevelWhole(table.avl_root, ds, x, left, all);
    Forget(table, Plug(ds, x));
    found := true;
  }
}
