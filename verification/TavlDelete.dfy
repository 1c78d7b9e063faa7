/** tavl.c: tavl_delete, which finds its way back up with find_parent. */
module TavlDelete {
  import opened Seqs
  import opened SlabModel
  import opened Trees
  import opened TreeCut
  import opened AvlModel
  import opened TagHeap
  import opened TagTurn
  import opened TavlProbe
  import opened TavlInsert
  import opened TavlSplice

  /* ---- the way back up ---- */

  /** The subtree in the hole is one lower than before, or as high again. */
  ghost predicate Lower(root: TagNode, cs: TPath, t: TTree, items: seq<int>, all: set<TagNode>)
    reads root, Under(cs), Refs(t)
  {
    Held(root, cs, t) && Shrunk(cs, t) && Items(Plug(cs, t)) == items && Refs(t) + Under(cs) == all
  }

  ghost predicate Level(root: TagNode, cs: TPath, t: TTree, items: seq<int>, all: set<TagNode>)
    reads root, Under(cs), Refs(t)
  {
    Held(root, cs, t) && AvlOk(t) && Wants(cs, Height(t)) && Items(Plug(cs, t)) == items && Refs(t) + Under(cs) == all
  }

  /** The factor of the lowest node of the path has been set to c, and the node joins the tree. */
  lemma {:induction false} FoldLast(root: TagNode, cs: TPath, t: TTree, c: int, u: TTree, items: seq<int>, all: set<TagNode>)
    requires cs != [] && var f := cs[|cs| - 1]; u == Fill(f.(tag := c), t)
    requires Held(root, cs[..|cs| - 1] + [cs[|cs| - 1].(tag := c)], t)
    requires Items(Plug(cs, t)) == items && Refs(t) + Under(cs) == all && Items(u) == Items(Fill(cs[|cs| - 1], t))
    ensures Held(root, cs[..|cs| - 1], u) && Items(Plug(cs[..|cs| - 1], u)) == items && Refs(u) + Under(cs[..|cs| - 1]) == all
  {
    hide Shape, Sep, Refs, PathAt, PathSep, Held, Items;
    var us, f := cs[..|cs| - 1], cs[|cs| - 1];
    ZipLast(root, us, f.(tag := c), t);
    ItemsSwap(us, u, Fill(f, t));
    UnderPush(us, f);
    UnderPush(us, f.(tag := c));
    assert cs == us + [f];
  }

  /** The new factor of y when the subtree below link d has shrunk. */
  method Tilt(y: TagNode, d: nat, ghost root: TagNode, ghost cs: TPath, ghost t: TTree)
    requires Held(root, cs, t) && cs != [] && cs[|cs| - 1].ref == y && cs[|cs| - 1].dir == d <= 1
    modifies y`balance
    ensures y.balance == cs[|cs| - 1].tag - Sign(d)
    ensures Held(root, cs[..|cs| - 1] + [cs[|cs| - 1].(tag := cs[|cs| - 1].tag - Sign(d))], t)
  {
    hide Shape, ShapeAt, Sep, Refs, Under, PathAt, PathSep, SegAt, EdgeIn, Edge, Held;
    ghost var us, f := cs[..|cs| - 1], cs[|cs| - 1];
    ghost var g := f.(tag := f.tag - Sign(d));
    assert cs == us + [f] + [] && us + [g] + [] == us + [g];
    OpenAround(root, us, f, [], t);
    Alive(t);
    Alive(f.sib);
    PathAlive(us);
    PathAlive([]);
    if d == 0 {
      y.balance := y.balance + 1;
    } else {
      y.balance := y.balance - 1;
    }
    CloseAround(root, us, g, [], t);
  }

  /** The rotation of tavl_delete at y, which has come to lean by two towards link e; above is the node y
      hangs at. With the child even the height is as before, otherwise it shrinks. */
  method Turn(y: TagNode, above: TagNode, ad: nat, e: nat, ghost root: TagNode, ghost us: TPath, ghost g: TFrame, ghost t: TTree)
    returns (even: bool, ghost u: TTree)
    requires Held(root, us + [g], t) && g.ref == y && g.dir <= 1 && e == 1 - g.dir && above == Above(root, us) && ad == AboveDir(us)
    requires AvlOk(t) && AvlOk(g.sib) && g.sib.Node? && Height(g.sib) == Height(t) + 2
    modifies ({root} + Under(us + [g]))`link0, ({root} + Under(us + [g]))`link1
    modifies Under(us + [g])`tag0, Under(us + [g])`tag1, Under(us + [g])`balance
    ensures Held(root, us, u) && AvlOk(u) && Height(u) == Height(t) + (if even then 3 else 2) && Items(u) == Items(Fill(g, t))
    ensures Refs(u) + Under(us) == Refs(t) + Under(us + [g])
  {
    hide Shape, ShapeAt, Sep, Refs, Under, PathAt, PathSep, Held, AvlOk, Height, Items, Edge;
    OpenLast(root, us, g, t);
    AboveOutside(root, us);
    LastUnder(us + [g]);
    assert (us + [g])[..|us|] == us && (us + [g])[|us|] == g;
    ghost var near, far := Edge(us, e), Edge(us, 1 - e);
    TopFacts(g.sib, e, near, y);
    Leaning(g.sib);
    PathAlive(us);
    var x: TagNode := y.Link(e);
    var w := x;
    even := false;
    if x.balance == -Sign(e) {
      DoubleStep(y, g.key, e, g.sib, g.tag, t);
      u := Double(y, g.key, e, g.sib, t);
      InnerOk(g.sib, 1 - e);
      w := RotateDouble(y, x, e, g.key, g.sib, t, near, far);
    } else {
      even := x.balance == 0;
      SingleStep(y, g.key, e, g.sib, g.tag, t);
      if even {
        u := Single(y, g.key, e, g.sib, t, -Sign(e), Sign(e));
        RotateSingle(y, x, e, -Sign(e), Sign(e), g.key, g.sib, t, near, far);
      } else {
        u := Single(y, g.key, e, g.sib, t, 0, 0);
        RotateSingle(y, x, e, 0, 0, g.key, g.sib, t, near, far);
      }
    }
    LopsidedIs(g, t, e);
    Alive(u);
    SetHole(above, ad, w, root, us, y);
    HeldNew(root, us, u, e, {y} + Refs(t) + Refs(g.sib));
  }

  /** The node above the gap, as the top of its subtree. */
  lemma {:induction false} GapParent(root: TagNode, cs: TPath, t: TTree)
    requires Held(root, cs, t) && cs != []
    ensures var us, f := cs[..|cs| - 1], cs[|cs| - 1];
      && Held(root, us, Fill(f, t)) && Fill(f, t).Node? && Fill(f, t).ref == f.ref && f.dir <= 1
      && PathAt(root, us, f.ref) && PathSep(us) && root !in Under(us) && f.ref !in Under(us)
  {
    Zip(root, cs, t);
  }

  /** One round of the loop of tavl_delete: y is the node above the gap, q ends as the one above y. */
  method Round(y: TagNode, dir0: nat, root: TagNode, ghost cs: TPath, ghost t: TTree, ghost items: seq<int>, ghost all: set<TagNode>)
    returns (done: bool, q: TagNode, dir: nat, ghost u: TTree)
    requires Lower(root, cs, t, items, all) && cs != [] && y == Above(root, cs) && dir0 == AboveDir(cs)
    modifies ({root} + all)`link0, ({root} + all)`link1, all`tag0, all`tag1, all`balance
    ensures done ==> Level(root, cs[..|cs| - 1], u, items, all)
    ensures !done ==> Lower(root, cs[..|cs| - 1], u, items, all) && q == Above(root, cs[..|cs| - 1]) && dir == AboveDir(cs[..|cs| - 1])
  {
    hide Shape, Sep, Refs, Under, PathAt, PathSep, Held, AvlOk, Height, Items, Wants, Plug, Shrunk;
    ghost var us, f := cs[..|cs| - 1], cs[|cs| - 1];
    LastUnder(cs);
    PathAlive(cs);
    Alive(t);
    LeanRange(cs, t);
    GapParent(root, cs, t);
    LinkOf(root, us, y);
    var above := FindParent(root, y, us, Fill(f, t));
    q := above;
    dir := if q.link0 != y then 1 else 0;
    Tilt(y, dir0, root, cs, t);
    ghost var g := f.(tag := f.tag - Sign(dir0));
    if y.balance == -Sign(dir0) {
      ShrinkEven(cs, t);
      u := Fill(g, t);
      FoldLast(root, cs, t, g.tag, u, items, all);
      done := true;
    } else if y.balance == -2 * Sign(dir0) {
      ShrinkAway(cs, t);
      ShrunkOk(cs, t);
      UnderPush(us, f);
      UnderPush(us, g);
      assert cs == us + [f];
      AboveOutside(root, us);
      done, u := Turn(y, q, dir, 1 - dir0, root, us, g, t);
      FillItems(f, g, t);
      PlugPush(us, f, t);
      ItemsSwap(us, u, Fill(f, t));
      TurnShrunk(us, u, Height(t), done);
    } else {
      ShrinkToward(cs, t);
      u := Fill(g, t);
      FoldLast(root, cs, t, g.tag, u, items, all);
      done := false;
    }
  }

  /** The loop of tavl_delete from the gap up to the root. */
  method Retrace(q0: TagNode, dir0: nat, root: TagNode, ghost cs0: TPath, ghost t0: TTree, ghost items: seq<int>, ghost all: set<TagNode>)
    returns (ghost cs: TPath, ghost t: TTree)
    requires Lower(root, cs0, t0, items, all) && q0 == Above(root, cs0) && dir0 == AboveDir(cs0)
    modifies ({root} + all)`link0, ({root} + all)`link1, all`tag0, all`tag1, all`balance
    ensures Level(root, cs, t, items, all)
  {
    hide Lower, Level;
    var q, dir := q0, dir0;
    cs, t := cs0, t0;
    RootAbove(root, cs, t, items, all);
    while q != root
      invariant Lower(root, cs, t, items, all) && q == Above(root, cs) && dir == AboveDir(cs) && (q == root <==> cs == [])
      decreases |cs|
    {
      var done;
      ghost var u;
      done, q, dir, u := Round(q, dir, root, cs, t, items, all);
      cs, t := cs[..|cs| - 1], u;
      if done {
        return;
      }
      RootAbove(root, cs, t, items, all);
    }
    LowerAtRoot(root, cs, t, items, all);
  }

  lemma RootAbove(root: TagNode, cs: TPath, t: TTree, items: seq<int>, all: set<TagNode>)
    requires Lower(root, cs, t, items, all)
    ensures Above(root, cs) == root <==> cs == []
  {
    if cs != [] {
      LastInside(cs);
    }
  }

  /** At the root nothing above wants a height. */
  lemma LowerAtRoot(root: TagNode, cs: TPath, t: TTree, items: seq<int>, all: set<TagNode>)
    requires Lower(root, cs, t, items, all) && cs == []
    ensures Level(root, cs, t, items, all)
  {
    hide Held, AvlOk, Height, Items, Plug, Refs, Under;
  }

  lemma {:induction false} LevelWhole(root: TagNode, cs: TPath, t: TTree, items: seq<int>, all: set<TagNode>)
    requires Level(root, cs, t, items, all)
    ensures Held(root, [], Plug(cs, t)) && AvlOk(Plug(cs, t)) && Items(Plug(cs, t)) == items && Refs(Plug(cs, t)) == all
  {
    hide Shape, Sep, Refs, Under, PathAt, PathSep, Held, AvlOk, Height, Items, Plug;
    PlugAvl(cs, t);
    ZipAll(root, cs, t);
  }

  lemma SplicedLower(root: TagNode, ds: TPath, x: TTree, items: seq<int>, all: set<TagNode>)
    requires Held(root, ds, x) && Shrunk(ds, x) && Items(Plug(ds, x)) == items && Refs(x) + Under(ds) == all
    ensures Lower(root, ds, x, items, all)
  {
  }

  /* ---- the whole ---- */

  lemma {:induction false} NotThere(root: TagNode, cs: TPath, whole: TTree, item: int)
    requires Held(root, cs, Leaf) && Plug(cs, Leaf) == whole && AllBelow(Lefts(cs), item) && AllAbove(Rights(cs), item)
    ensures item !in Items(whole)
  {
    Absent(root, cs, whole);
  }

  /** The loop of tavl_delete that looks for item, in a tree that is not empty. */
  method Descend(root: TagNode, item: int, ghost whole: TTree)
    returns (found: bool, p: TagNode, q: TagNode, dir: nat, ghost cs: TPath, ghost t: TTree)
    requires Held(root, [], whole) && StrictlySorted(Items(whole)) && whole.Node?
    ensures found == (item in Items(whole))
    ensures found ==> Held(root, cs, t) && Plug(cs, t) == whole && t.Node? && t.ref == p && t.key == item && q == Above(root, cs) && dir == AboveDir(cs)
  {
    hide Items, Plug, Refs, Sep, Shape, Under, PathAt, PathSep, StrictlySorted, Lefts, Rights, Held;
    HeldStart(root, whole);
    q := root;
    p := root.link0;
    dir := 0;
    cs, t := [], whole;
    while true
      invariant Held(root, cs, t) && Plug(cs, t) == whole && t.Node? && t.ref == p && q == Above(root, cs) && dir == AboveDir(cs)
      invariant AllBelow(Lefts(cs), item) && AllAbove(Rights(cs), item)
      decreases t
    {
      HeldTops(root, cs, t);
      if item == p.data {
        found := true;
        Found(root, cs, t, whole);
        return;
      }
      dir := if item > p.data then 1 else 0;
      ghost var f := Frame(t.ref, dir, t.key, t.tag, Child(t, 1 - dir));
      Unzip(root, cs, t, dir);
      StepOrder(cs, t, item, whole);
      cs, t := cs + [f], Child(t, dir);
      q := p;
      if p.Tag(dir) == THREAD {
        found := false;
        NoTree(t);
        NotThere(root, cs, whole, item);
        return;
      }
      p := p.Link(dir);
    }
  }

  /** The table after the node is gone. */
  method Forget(table: TavlTable, ghost w: TTree)
    requires Held(table.tavl_root, [], w) && AvlOk(w) && StrictlySorted(Items(w)) && table.tavl_count == |Items(w)| + 1
    modifies table`tree, table`tavl_count
    ensures table.Valid() && table.tree == w
  {
    hide Shape, Sep, Refs, StrictlySorted, Items, AvlOk;
    table.tree := w;
    table.tavl_count := table.tavl_count - 1;
  }

  /** tavl_delete: removes item if it is there, in a tree of any height. Every thread leads to the
      neighbour in order again, and every balance factor is exact. */
  method Delete(table: TavlTable, item: int) returns (found: bool)
    requires table.Valid()
    modifies table`tree, table`tavl_count
    modifies ({table.tavl_root} + Refs(table.tree))`link0, ({table.tavl_root} + Refs(table.tree))`link1
    modifies ({table.tavl_root} + Refs(table.tree))`tag0, ({table.tavl_root} + Refs(table.tree))`tag1, Refs(table.tree)`balance
    ensures table.Valid() && found == (item in old(Items(table.tree)))
    ensures !found ==> table.tree == old(table.tree)
    ensures Elements(Items(table.tree)) == Elements(old(Items(table.tree))) - {item}
    ensures found ==> exists n :: n in old(Refs(table.tree)) && n.data == item && Refs(table.tree) == old(Refs(table.tree)) - {n}
  {
    hide Shape, Sep, Refs, Under, PathAt, PathSep, Held, AvlOk, Height, Items, StrictlySorted, Plug, Wants, TavlTable.Valid, Lefts, Rights;
    hide Lower, Level, Spliced, Shrunk, DeleteAt;
    ghost var whole := table.tree;
    ghost var items := Items(whole);
    Alive(whole);
    PathAlive([]);
    Known(table);
    RootLink(table);
    if table.tavl_root.link0 == null {
      EmptyItems(whole, item);
      return false;
    }
    var p, q, dir;
    ghost var cs, t;
    found, p, q, dir, cs, t := Descend(table.tavl_root, item, whole);
    if !found {
      assert Elements(items) == Elements(items) - {item};
      return;
    }
    ZipAll(table.tavl_root, cs, t);
    HeldSep(table.tavl_root, cs, t);
    TopRef(t);
    HeldTops(table.tavl_root, cs, t);
    PathAlive(cs);
    Alive(t);
    ghost var ds, ws, low, x, gone;
    q, dir, ds, ws, low, x, gone := Unlink(p, q, dir, table.tavl_root, cs, t);
    HeldSep(table.tavl_root, ds, x);
    SplicedItems(cs, t, ds, ws, low, x, gone);
    SplicedShrunk(cs, t, ds, ws, low, x, gone);
    ghost var i := |Lefts(cs) + Items(t.left)|;
    DeleteAtIsDifference(items, i);
    ghost var left, all := DeleteAt(items, i), Refs(whole) - {p};
    SplicedLower(table.tavl_root, ds, x, left, all);
    ds, x := Retrace(q, dir, table.tavl_root, ds, x, left, all);
    LevelWhole(table.tavl_root, ds, x, left, all);
    Forget(table, Plug(ds, x));
  }
}
