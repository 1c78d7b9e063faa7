/** tavl.c: tavl_probe. */
module TavlInsert {
  import opened Seqs
  import opened SlabModel
  import opened AddModel
  import opened Trees
  import opened AvlModel
  import opened TagHeap
  import opened TagTurn
  import opened TavlProbe

  /* ---- paths in three parts ---- */

  /** Everything about a path in three parts: above a node, the node, below it. */
  ghost predicate Apart(root: TagNode, cs: TPath, f: TFrame, ws: TPath, t: TTree) {
    && PathSep(cs) && PathSep(ws) && Sep(f.sib) && f.ref !in Refs(f.sib) && f.dir <= 1 && Sep(t)
    && f.ref !in Under(cs) && Refs(f.sib) !! Under(cs) && ({f.ref} + Refs(f.sib)) !! Under(ws) && Under(cs) !! Under(ws)
    && Refs(t) !! ({f.ref} + Refs(f.sib)) && Refs(t) !! Under(cs) && Refs(t) !! Under(ws)
    && root !in Under(cs) && root != f.ref && root !in Refs(f.sib) && root !in Under(ws) && root !in Refs(t)
  }

  /** The neighbours of what hangs below f on the path cs. */
  ghost function Lo(cs: TPath, f: TFrame): TagNode? {
    if f.dir != 0 then f.ref else Edge(cs, 0)
  }

  ghost function Hi(cs: TPath, f: TFrame): TagNode? {
    if f.dir != 1 then f.ref else Edge(cs, 1)
  }

  lemma {:induction false} OpenAround(root: TagNode, cs: TPath, f: TFrame, ws: TPath, t: TTree)
    requires Held(root, cs + [f] + ws, t)
    ensures Apart(root, cs, f, ws, t) && PathAt(root, cs, f.ref) && FrameAt(f, Edge(cs, f.dir), Edge(cs, 1 - f.dir), First(ws, Top(t)))
    ensures SegAt(ws, Lo(cs, f), Hi(cs, f), Top(t)) && Shape(t, EdgeIn(ws, 0, Lo(cs, f)), EdgeIn(ws, 1, Hi(cs, f)))
    ensures Under(cs + [f] + ws) == Under(cs) + {f.ref} + Refs(f.sib) + Under(ws)
  {
    hide Shape, ShapeAt, Sep, Refs, Under, SegAt, EdgeIn, Edge;
    UnderSplit(cs + [f], ws);
    UnderPush(cs, f);
    PathSplit(root, cs + [f], ws, Top(t));
    SepSplit(cs + [f], ws);
    EdgeCat(cs + [f], ws, 0);
    EdgeCat(cs + [f], ws, 1);
    EdgePush(cs, f, 0);
    EdgePush(cs, f, 1);
    assert (cs + [f])[..|cs|] == cs && (cs + [f])[|cs|] == f;
  }

  lemma {:induction false} CloseAround(root: TagNode, cs: TPath, f: TFrame, ws: TPath, t: TTree)
    requires Apart(root, cs, f, ws, t) && PathAt(root, cs, f.ref) && FrameAt(f, Edge(cs, f.dir), Edge(cs, 1 - f.dir), First(ws, Top(t)))
    requires SegAt(ws, Lo(cs, f), Hi(cs, f), Top(t)) && Shape(t, EdgeIn(ws, 0, Lo(cs, f)), EdgeIn(ws, 1, Hi(cs, f)))
    ensures Held(root, cs + [f] + ws, t) && Under(cs + [f] + ws) == Under(cs) + {f.ref} + Refs(f.sib) + Under(ws)
  {
    hide Shape, ShapeAt, Sep, Refs, Under, SegAt, EdgeIn, Edge;
    UnderSplit(cs + [f], ws);
    UnderPush(cs, f);
    PathSplit(root, cs + [f], ws, Top(t));
    SepSplit(cs + [f], ws);
    EdgeCat(cs + [f], ws, 0);
    EdgeCat(cs + [f], ws, 1);
    EdgePush(cs, f, 0);
    EdgePush(cs, f, 1);
    assert (cs + [f])[..|cs|] == cs && (cs + [f])[|cs|] == f;
  }

  lemma AboveOutside(root: TagNode, cs: TPath)
    ensures Above(root, cs) == root || Above(root, cs) in Under(cs)
  {
  }

  /* ---- the search ---- */

  /** Where the search stands below the nodes on cs: y is the last node passed that leaned, or the first
      one, z the node above it, and the cached directions start at y. */
  ghost predicate Tracks(root: TagNode, cs: TPath, m: nat, y: TagNode, z: TagNode, k: nat, da: array<nat>)
    reads da
  {
    && m < |cs| && z == Above(root, cs[..m]) && y == cs[m].ref && (cs[m].tag != 0 || m == 0)
    && (forall i :: m < i < |cs| ==> cs[i].tag == 0)
    && k == |cs| - m <= da.Length && (forall i :: m <= i < |cs| ==> da[i - m] == cs[i].dir)
  }

  /** if (p->tavl_balance != 0) z = q, y = p, k = 0; da[k++] = dir. */
  method Track(da: array<nat>, p: TagNode, q: TagNode, y0: TagNode, z0: TagNode, k0: nat, dir: nat, ghost root: TagNode, ghost cs: TPath, ghost f: TFrame, ghost m0: nat)
    returns (y: TagNode, z: TagNode, k: nat, ghost m: nat)
    requires if cs == [] then y0 == p && z0 == q && k0 == 0 else Tracks(root, cs, m0, y0, z0, k0, da)
    requires f.ref == p && p.balance == f.tag && q == Above(root, cs) && f.dir == dir && |cs| < da.Length
    modifies da
    ensures Tracks(root, cs + [f], m, y, z, k, da)
  {
    y, z, k, m := y0, z0, k0, if cs == [] then 0 else m0;
    if p.balance != 0 {
      z := q;
      y := p;
      k := 0;
      m := |cs|;
    }
    da[k] := dir;
    k := k + 1;
    assert (cs + [f])[..|cs|] == cs;
    assert m <= |cs| && (cs + [f])[..m] == cs[..m];
  }

  lemma HeldStart(root: TagNode, whole: TTree)
    requires Held(root, [], whole)
    ensures Plug([], whole) == whole && Top(whole) == root.link0
    ensures Lefts<TagNode, int>([]) == [] && Rights<TagNode, int>([]) == []
  {
  }

  lemma HeldTops(root: TagNode, cs: TPath, t: TTree)
    requires Held(root, cs, t) && t.Node?
    ensures t.ref.data == t.key && t.ref.balance == t.tag
    ensures forall d :: 0 <= d <= 1 ==> if Child(t, d).Leaf? then t.ref.Tag(d) == THREAD else t.ref.Tag(d) == CHILD && t.ref.Link(d) == Child(t, d).ref
  {
  }

  /** The loop of tavl_probe that looks for the place of item, in a tree that is not empty. */
  method Seek(table: TavlTable, item: int, da: array<nat>)
    returns (found: bool, p: TagNode, dir: nat, y: TagNode, z: TagNode, k: nat, ghost cs: TPath, ghost t: TTree, ghost m: nat)
    requires table.Valid() && Height(table.tree) <= TAVL_MAX_HEIGHT == da.Length && table.tree.Node?
    modifies da
    ensures Held(table.tavl_root, cs, t) && Plug(cs, t) == table.tree
    ensures found ==> t.Node? && t.ref == p && p.data == item
    ensures !found ==> t.Leaf? && AllBelow(Lefts(cs), item) && AllAbove(Rights(cs), item)
    ensures !found ==> p == Above(table.tavl_root, cs) && dir == AboveDir(cs) && Tracks(table.tavl_root, cs, m, y, z, k, da)
  {
    hide Items, Plug, Refs, Sep, Shape, Under, PathAt, PathSep, StrictlySorted, Lefts, Rights, Held, AvlOk, Height, Tracks;
    ghost var whole := table.tree;
    ghost var nodes := Refs(whole) + Under<TagNode, int>([]);
    Known(table);
    HeldStart(table.tavl_root, whole);
    z := table.tavl_root;
    y := table.tavl_root.link0;
    k, m, dir, found := 0, 0, 0, false;
    var q := z;
    p := y;
    cs, t := [], whole;
    while true
      invariant Held(table.tavl_root, cs, t) && Plug(cs, t) == whole && t.Node? && t.ref == p
      invariant AllBelow(Lefts(cs), item) && AllAbove(Rights(cs), item)
      invariant q == Above(table.tavl_root, cs)
      invariant if cs == [] then y == p && z == q && k == 0 else Tracks(table.tavl_root, cs, m, y, z, k, da)
      decreases t
    {
      HeldTops(table.tavl_root, cs, t);
      if item == p.data {
        found := true;
        return;
      }
      dir := if item > p.data then 1 else 0;
      ghost var f := Frame(t.ref, dir, t.key, t.tag, Child(t, 1 - dir));
      Unzip(table.tavl_root, cs, t, dir);
      StepOrder(cs, t, item, whole);
      PathShort(cs, t, whole);
      Alive(Child(t, dir));
      PathAlive(cs + [f]);
      y, z, k, m := Track(da, p, q, y, z, k, dir, table.tavl_root, cs, f, m);
      cs, t := cs + [f], Child(t, dir);
      if p.Tag(dir) == THREAD {
        return;
      }
      q := p;
      p := p.Link(dir);
    }
  }

  /* ---- updating balance factors ---- */

  /** if (da[k] == 0) p->tavl_balance--; else p->tavl_balance++. */
  method BumpOne(p: TagNode, d: nat, ghost root: TagNode, ghost us: TPath, ghost f: TFrame, ghost ws: TPath, ghost t: TTree)
    requires Held(root, us + [f] + ws, t) && f.ref == p && f.dir == d && t.Node?
    modifies p`balance
    ensures Held(root, us + [Bump(f)] + ws, t) && p.Link(d) == First(ws, Top(t))
    ensures Under(us + [Bump(f)] + ws) == Under(us + [f] + ws)
  {
    hide Shape, ShapeAt, Sep, Refs, Under, PathAt, PathSep, SegAt, EdgeIn, Edge, Held;
    OpenAround(root, us, f, ws, t);
    Alive(t);
    Alive(f.sib);
    PathAlive(us);
    PathAlive(ws);
    FirstThere(ws, t);
    if d == 0 {
      p.balance := p.balance - 1;
    } else {
      p.balance := p.balance + 1;
    }
    CloseAround(root, us, Bump(f), ws, t);
  }

  lemma FirstThere(ws: TPath, t: TTree)
    requires t.Node?
    ensures First(ws, Top(t)) != null
  {
  }

  /** The loop of tavl_probe that updates the balance factors from y down to the new node n. */
  method BumpDown(y: TagNode, n: TagNode, da: array<nat>, ghost root: TagNode, ghost us: TPath, ghost vs: TPath, ghost t: TTree)
    requires Held(root, us + vs, t) && t.Node? && t.ref == n && First(vs, n) == y && |vs| <= da.Length
    requires forall i :: 0 <= i < |vs| ==> da[i] == vs[i].dir
    modifies Under(us + vs)`balance
    ensures Held(root, us + BumpAll(vs), t) && Under(us + BumpAll(vs)) == Under(us + vs)
  {
    hide Shape, Sep, Refs, Under, PathAt, PathSep, SegAt, BumpAll, Held;
    PathAlive(us + vs);
    ghost var all := Under(us + vs);
    var p, k := y, 0;
    BumpNone(us, vs);
    while p != n
      invariant k <= |vs| && p == First(vs[k..], n)
      invariant Held(root, us + BumpAll(vs[..k]) + vs[k..], t) && Under(us + BumpAll(vs[..k]) + vs[k..]) == all
      decreases |vs| - k
    {
      BumpNext(us, vs, k, t);
      BumpOne(p, da[k], root, us + BumpAll(vs[..k]), vs[k], vs[k + 1..], t);
      p := p.Link(da[k]);
      k := k + 1;
    }
    BumpEnd(root, us, vs, k, t);
  }

  /** The next node is on the path, and its update moves the border between new and old factors. */
  lemma {:induction false} BumpNext(us: TPath, vs: TPath, k: nat, t: TTree)
    requires k <= |vs| && t.Node? && First(vs[k..], t.ref) != t.ref
    ensures k < |vs| && First(vs[k..], t.ref) == vs[k].ref
    ensures us + BumpAll(vs[..k]) + vs[k..] == us + BumpAll(vs[..k]) + [vs[k]] + vs[k + 1..]
    ensures us + BumpAll(vs[..k]) + [Bump(vs[k])] + vs[k + 1..] == us + BumpAll(vs[..k + 1]) + vs[k + 1..]
    ensures vs[k].ref in Under(us + BumpAll(vs[..k]) + vs[k..])
  {
    BumpBorder(us, vs, k);
  }

  /** The loop ends below the last node of the path: no node on it is the new one. */
  lemma {:induction false} BumpEnd(root: TagNode, us: TPath, vs: TPath, k: nat, t: TTree)
    requires k <= |vs| && t.Node? && First(vs[k..], t.ref) == t.ref && Held(root, us + BumpAll(vs[..k]) + vs[k..], t)
    ensures us + BumpAll(vs[..k]) + vs[k..] == us + BumpAll(vs)
  {
    if k < |vs| {
      assert us + BumpAll(vs[..k]) + vs[k..] == us + BumpAll(vs[..k]) + [vs[k]] + vs[k + 1..];
      OnPathApart(root, us + BumpAll(vs[..k]), vs[k], vs[k + 1..], t);
      assert false;
    }
    assert vs[..k] == vs;
  }

  lemma {:induction false} OnPathApart(root: TagNode, us: TPath, f: TFrame, ws: TPath, t: TTree)
    requires Held(root, us + [f] + ws, t) && t.Node?
    ensures f.ref != t.ref
  {
    OpenAround(root, us, f, ws, t);
    TopRef(t);
  }

  /* ---- rebalancing ---- */

  /** The lower part of a path goes into the tree. */
  lemma {:induction false} ZipSome(root: TagNode, us: TPath, ws: TPath, t: TTree)
    requires Held(root, us + ws, t)
    ensures Held(root, us, Plug(ws, t)) && Refs(Plug(ws, t)) + Under(us) == Refs(t) + Under(us + ws)
    decreases |ws|
  {
    hide Refs, Sep, Shape, Under, PathAt, PathSep, Held;
    if ws == [] {
      assert us + ws == us;
    } else {
      var n := |ws| - 1;
      assert (us + ws)[..|us| + n] == us + ws[..n] && (us + ws)[|us| + n] == ws[n];
      Zip(root, us + ws, t);
      ZipSome(root, us, ws[..n], Fill(ws[n], t));
    }
  }

  lemma ZipLast(root: TagNode, us: TPath, f: TFrame, low: TTree)
    requires Held(root, us + [f], low)
    ensures Held(root, us, Fill(f, low)) && Refs(Fill(f, low)) + Under(us) == Refs(low) + Under(us + [f])
  {
    hide Shape, Sep, Refs, Under, PathAt, PathSep, Held;
    assert (us + [f])[..|us|] == us;
    Zip(root, us + [f], low);
  }

  /** What a rotation at the lowest node of the path, towards either side, has to work on. */
  lemma {:induction false} OpenLast(root: TagNode, us: TPath, f: TFrame, low: TTree)
    requires Held(root, us + [f], low)
    ensures PathAt(root, us, f.ref) && PathSep(us) && root !in Under(us) && root != f.ref && f.ref !in Under(us)
    ensures f.dir <= 1 && f.ref.balance == f.tag
    ensures Before(f.ref, f.key, f.dir, low, f.sib, Edge(us, f.dir), Edge(us, 1 - f.dir))
    ensures Before(f.ref, f.key, 1 - f.dir, f.sib, low, Edge(us, 1 - f.dir), Edge(us, f.dir))
    ensures ({f.ref} + Refs(low) + Refs(f.sib)) !! Under(us) && root !in Refs(low) && root !in Refs(f.sib)
    ensures Refs(low) + Under(us + [f]) == {f.ref} + Refs(low) + Refs(f.sib) + Under(us)
  {
    hide Shape, Sep, Refs, Under, PathSep, SegAt, Edge;
    assert us + [f] + [] == us + [f];
    OpenAround(root, us, f, [], low);
    UnderPush(us, f);
  }

  /** z->tavl_link[y != z->tavl_link[0]] is the link that y hangs at. */
  lemma {:induction false} LinkOf(root: TagNode, us: TPath, y: TagNode)
    requires PathAt(root, us, y) && PathSep(us) && root !in Under(us) && y !in Under(us)
    ensures AboveDir(us) == if y != Above(root, us).link0 then 1 else 0
  {
    hide Shape;
    if us != [] {
      var f := us[|us| - 1];
      if f.dir == 1 {
        if f.sib.Node? {
          assert f.sib.ref in Refs(f.sib) && f.sib.ref in Under(us);
        } else {
          EdgeLeads(root, us[..|us| - 1], f.ref, 0);
          UpperUnder(us);
        }
      }
    }
  }

  /** The tree in the hole has been rebuilt from the same nodes and linked again. */
  lemma {:induction false} HeldNew(root: TagNode, cs: TPath, u: TTree, d: nat, refs: set<TagNode>)
    requires PathAt(root, cs, Top(u)) && PathSep(cs) && d <= 1 && ShapeAt(u, d, Edge(cs, d), Edge(cs, 1 - d)) && Sep(u) && Refs(u) == refs
    requires refs !! Under(cs) && root !in Under(cs) && root !in refs
    ensures Held(root, cs, u)
  {
  }

  lemma TopFacts(t: TTree, d: nat, near: TagNode?, far: TagNode?)
    requires t.Node? && ShapeAt(t, d, near, far)
    ensures t.ref.balance == t.tag && t.ref in Refs(t)
  {
  }

  lemma InnerOk(t: TTree, d: nat)
    requires d <= 1 && AvlOk(t) && t.Node? && Child(t, d).Node?
    ensures -1 <= Child(t, d).tag <= 1 && Child(t, d).ref in Refs(t)
  {
    assert Child(t, d).ref in Refs(Child(t, d));
  }

  /** The rebalancing of tavl_probe at y, which has come to lean by two, and the link from z to the new
      top w. */
  method RebalanceGrown(y: TagNode, z: TagNode, ghost root: TagNode, ghost us: TPath, ghost f: TFrame, ghost low: TTree)
    returns (ghost u: TTree)
    requires Held(root, us + [f], low) && f.ref == y && z == Above(root, us) && f.dir <= 1 && f.tag == 2 * Sign(f.dir)
    requires AvlOk(low) && AvlOk(f.sib) && Height(low) == Height(f.sib) + 2 && low.Node? && low.tag != 0
    modifies ({root} + Under(us + [f]) + Refs(low))`link0, ({root} + Under(us + [f]) + Refs(low))`link1
    modifies (Under(us + [f]) + Refs(low))`tag0, (Under(us + [f]) + Refs(low))`tag1, (Under(us + [f]) + Refs(low))`balance
    ensures Held(root, us, u) && AvlOk(u) && Height(u) == Height(low) && Items(u) == Items(Fill(f, low))
    ensures Refs(u) + Under(us) == Refs(low) + Under(us + [f])
  {
    hide Shape, ShapeAt, Sep, Refs, Under, PathAt, PathSep, Held, AvlOk, Height, Items, Edge;
    OpenLast(root, us, f, low);
    Leaning(low);
    LinkOf(root, us, y);
    AboveOutside(root, us);
    LastInside(us + [f]);
    UpperUnder(us + [f]);
    assert (us + [f])[..|us|] == us;
    PathAlive(us);
    var d := if y.balance == -2 then 0 else 1;
    ghost var near, far := Edge(us, d), Edge(us, 1 - d);
    TopFacts(low, d, near, y);
    var x: TagNode := y.Link(d);
    var w := x;
    if x.balance == Sign(d) {
      u := Single(y, f.key, d, low, f.sib, 0, 0);
      SingleStep(y, f.key, d, low, f.tag, f.sib);
      RotateSingle(y, x, d, 0, 0, f.key, low, f.sib, near, far);
    } else {
      DoubleStep(y, f.key, d, low, f.tag, f.sib);
      u := Double(y, f.key, d, low, f.sib);
      InnerOk(low, 1 - d);
      w := RotateDouble(y, x, d, f.key, low, f.sib, near, far);
    }
    Alive(u);
    SetHole(z, if y != z.link0 then 1 else 0, w, root, us, y);
    HeldNew(root, us, u, d, {y} + Refs(low) + Refs(f.sib));
  }

  /** The path to the new leaf in three parts: us leads to the node to update from, f is that node, and
      ws leads on from it through even nodes. */
  lemma {:induction false} PathParts(root: TagNode, cs: TPath, m: nat, y: TagNode, z: TagNode, k: nat, da: array<nat>)
    returns (us: TPath, f: TFrame, ws: TPath)
    requires Tracks(root, cs, m, y, z, k, da)
    ensures cs == us + [f] + ws && (f.tag == 0 ==> us == []) && AllEven(ws)
    ensures f.ref == y && z == Above(root, us) && 1 + |ws| <= da.Length
    ensures forall i :: 0 <= i < 1 + |ws| ==> da[i] == ([f] + ws)[i].dir
  {
    us, f, ws := cs[..m], cs[m], cs[m + 1..];
    PathInThree(cs, m, da[..]);
  }

  /** The table with its new tree. */
  method Install(table: TavlTable, ghost w: TTree)
    requires Held(table.tavl_root, [], w) && AvlOk(w) && StrictlySorted(Items(w)) && table.tavl_count == |Items(w)|
    modifies table`tree
    ensures table.Valid() && table.tree == w
  {
    hide Shape, Sep, Refs, StrictlySorted, Items, AvlOk;
    table.tree := w;
  }

  /** The update of the factors, and the part of the path below y folded into the tree. */
  method UpdateFactors(y: TagNode, n: TagNode, da: array<nat>, ghost root: TagNode, ghost us: TPath, ghost f: TFrame, ghost ws: TPath, ghost t: TTree)
    requires Held(root, us + [f] + ws, t) && t.Node? && t.ref == n && f.ref == y && 1 + |ws| <= da.Length
    requires forall i :: 0 <= i < 1 + |ws| ==> da[i] == ([f] + ws)[i].dir
    modifies Under(us + [f] + ws)`balance
    ensures var low := Plug(BumpAll(ws), t);
      && Held(root, us + [Bump(f)], low) && Items(Plug(us, Fill(Bump(f), low))) == Items(Plug(us + [f] + ws, t))
      && Refs(low) + Under(us + [Bump(f)]) == Refs(t) + Under(us + [f] + ws)
  {
    hide Shape, Sep, Refs, Under, PathAt, PathSep, Held, Items, Plug, BumpAll;
    assert us + ([f] + ws) == us + [f] + ws;
    PathAlive(us + [f] + ws);
    BumpItems(us, [f] + ws, t);
    BumpCons(f, ws);
    assert us + ([Bump(f)] + BumpAll(ws)) == us + [Bump(f)] + BumpAll(ws);
    PlugSplit(us + [Bump(f)], BumpAll(ws), t);
    PlugPush(us, Bump(f), Plug(BumpAll(ws), t));
    BumpDown(y, n, da, root, us, [f] + ws, t);
    ZipSome(root, us + [Bump(f)], BumpAll(ws), t);
  }

  lemma LeafRefs(n: TagNode, item: int)
    ensures Refs<TagNode, int>(Node(n, Leaf, item, 0, Leaf)) == {n}
  {
  }

  lemma HeldSep(root: TagNode, cs: TPath, t: TTree)
    requires Held(root, cs, t)
    ensures PathSep(cs)
  {
  }

  /** The balanced subtree u in its place makes the new tree of the table. */
  method Close(table: TavlTable, ghost us: TPath, ghost u: TTree)
    requires Held(table.tavl_root, us, u) && AvlOk(u) && Wants(us, Height(u))
    requires StrictlySorted(Items(Plug(us, u))) && table.tavl_count == |Items(Plug(us, u))|
    modifies table`tree
    ensures table.Valid() && table.tree == Plug(us, u) && Refs(table.tree) == Refs(u) + Under(us)
  {
    hide Shape, Sep, Refs, Under, PathAt, PathSep, Held, AvlOk, Height, Items, StrictlySorted, Plug, Wants, TavlTable.Valid;
    PlugAvl(us, u);
    ZipAll(table.tavl_root, us, u);
    Install(table, Plug(us, u));
  }

  /** The part of tavl_probe after the new node n is linked: factors from y on, and one rebalancing. */
  method Rebalance(table: TavlTable, n: TagNode, y: TagNode, z: TagNode, da: array<nat>, ghost us: TPath, ghost f: TFrame, ghost ws: TPath, ghost item: int)
    requires var t: TTree := Node(n, Leaf, item, 0, Leaf); var cs := us + [f] + ws;
      && Held(table.tavl_root, cs, t) && AvlOk(Plug(cs, Leaf)) && (f.tag == 0 ==> us == []) && AllEven(ws)
      && StrictlySorted(Items(Plug(cs, t))) && table.tavl_count == |Items(Plug(cs, t))|
    requires f.ref == y && z == Above(table.tavl_root, us) && 1 + |ws| <= da.Length && forall i :: 0 <= i < 1 + |ws| ==> da[i] == ([f] + ws)[i].dir
    modifies ({table.tavl_root, n} + Under(us + [f] + ws))`link0, ({table.tavl_root, n} + Under(us + [f] + ws))`link1
    modifies ({n} + Under(us + [f] + ws))`tag0, ({n} + Under(us + [f] + ws))`tag1, ({n} + Under(us + [f] + ws))`balance
    modifies table`tree
    ensures table.Valid() && Items(table.tree) == Items(Plug(us + [f] + ws, Node(n, Leaf, item, 0, Leaf)))
    ensures Refs(table.tree) == {n} + Under(us + [f] + ws)
  {
    hide Shape, Sep, Refs, Under, PathAt, PathSep, Held, AvlOk, Height, Items, StrictlySorted, Plug, Wants, TavlTable.Valid, BumpAll;
    ghost var t: TTree := Node(n, Leaf, item, 0, Leaf);
    ghost var cs := us + [f] + ws;
    LeafRefs(n, item);
    HeldSep(table.tavl_root, cs, t);
    ghost var low := GrowthBelow(us, f, ws, n, item);
    PathAlive(cs);
    UpdateFactors(y, n, da, table.tavl_root, us, f, ws, t);
    OpenLast(table.tavl_root, us, Bump(f), low);
    ghost var u := Fill(Bump(f), low);
    if y.balance == -2 || y.balance == 2 {
      u := RebalanceGrown(y, z, table.tavl_root, us, Bump(f), low);
      ItemsSwap(us, u, Fill(Bump(f), low));
    } else {
      ZipLast(table.tavl_root, us, Bump(f), low);
    }
    Close(table, us, u);
  }

  /* ---- the new node ---- */

  /** The new node n takes the thread of its parent p at side dir, and its other thread leads to p. */
  method PlaceLeaf(p: TagNode, dir: nat, item: int, root: TagNode, ghost cs: TPath) returns (n: TagNode)
    requires Held(root, cs, Leaf) && p == Above(root, cs) && dir == AboveDir(cs)
    modifies p`link0, p`link1, p`tag0, p`tag1
    ensures fresh(n) && n.data == item && Held(root, cs, Node(n, Leaf, item, 0, Leaf))
  {
    hide Shape, Sep, Refs, Under, PathSep, EdgeIn;
    PathAlive(cs);
    AboveOutside(root, cs);
    ghost var before := Under(cs);
    n := new TagNode(item);
    assert n !in before;
    LeafEdges(root, cs);
    n.SetLink(dir, p.Link(dir));
    if p != root {
      n.SetLink(1 - dir, p);
    } else {
      n.SetLink(1, null);
    }
    FillHole(p, dir, n, root, cs);
    LeafHeld(root, cs, n, item);
  }

  /** The neighbours of an empty place: the parent, and where its thread leads. */
  lemma {:induction false} LeafEdges(root: TagNode, cs: TPath)
    requires Held(root, cs, Leaf)
    ensures PathAt(root, cs, null) && PathSep(cs) && root !in Under(cs) && AboveDir(cs) <= 1
    ensures var p, d := Above(root, cs), AboveDir(cs);
      && Edge(cs, d) == p.Link(d) && (cs != [] ==> Edge(cs, 1 - d) == p && p != root) && (cs == [] ==> Edge(cs, 1) == null && p == root)
  {
  }

  lemma {:induction false} LeafHeld(root: TagNode, cs: TPath, n: TagNode, item: int)
    requires PathAt(root, cs, n) && PathSep(cs) && root !in Under(cs) && n != root && n !in Under(cs)
    requires n.tag0 == n.tag1 == THREAD && n.link0 == Edge(cs, 0) && n.link1 == Edge(cs, 1) && n.data == item && n.balance == 0
    ensures Held(root, cs, Node(n, Leaf, item, 0, Leaf))
  {
    hide PathAt, PathSep, Under;
    var t: TTree := Node(n, Leaf, item, 0, Leaf);
    var none: TTree := Leaf;
    assert Refs(none) == {} && Refs(t) == {n};
    assert Shape(none, Edge(cs, 0), n) && Shape(none, n, Edge(cs, 1)) && Sep(none);
    assert Shape(t, Edge(cs, 0), Edge(cs, 1)) && Sep(t);
  }

  lemma {:induction false} Absent(root: TagNode, cs: TPath, whole: TTree)
    requires Held(root, cs, Leaf) && Plug(cs, Leaf) == whole
    ensures Items(whole) == Lefts(cs) + Rights(cs) && Refs(whole) == Under(cs) && root !in Under(cs)
  {
    hide Plug, Lefts, Rights, PathSep, PathAt, Under;
    ZipAll(root, cs, Leaf);
    PlugItems(cs, Leaf);
    assert Lefts(cs) + [] + Rights(cs) == Lefts(cs) + Rights(cs);
  }

  lemma {:induction false} Found(root: TagNode, cs: TPath, t: TTree, whole: TTree)
    requires Held(root, cs, t) && Plug(cs, t) == whole && t.Node?
    ensures t.ref in Refs(whole) && t.key in Items(whole) && t.ref.data == t.key
  {
    ZipAll(root, cs, t);
    PlugItems(cs, t);
  }

  /** The first node of a tree. */
  method ProbeEmpty(table: TavlTable, item: int) returns (n: TagNode)
    requires table.Valid() && table.tree.Leaf?
    modifies table`tree, table`tavl_count, {table.tavl_root}`link0, {table.tavl_root}`link1, {table.tavl_root}`tag0, {table.tavl_root}`tag1
    ensures table.Valid() && fresh(n) && n.data == item && Items(table.tree) == [item] && Refs(table.tree) == {n}
  {
    hide AvlOk, Shape, PathAt;
    n := PlaceLeaf(table.tavl_root, 0, item, table.tavl_root, []);
    table.tavl_count := table.tavl_count + 1;
    LeafFacts(n, item);
    LeafRefs(n, item);
    Install(table, Node(n, Leaf, item, 0, Leaf));
  }

  /** The part of tavl_probe after the search has ended at a thread of p. */
  method Grow(table: TavlTable, item: int, da: array<nat>, p: TagNode, dir: nat, y: TagNode, z: TagNode, k: nat, ghost cs: TPath, ghost m: nat)
    returns (n: TagNode)
    requires table.Valid() && Held(table.tavl_root, cs, Leaf) && Plug(cs, Leaf) == table.tree
    requires AllBelow(Lefts(cs), item) && AllAbove(Rights(cs), item)
    requires p == Above(table.tavl_root, cs) && dir == AboveDir(cs) && Tracks(table.tavl_root, cs, m, y, z, k, da)
    modifies table`tree, table`tavl_count
    modifies ({table.tavl_root} + Refs(table.tree))`link0, ({table.tavl_root} + Refs(table.tree))`link1
    modifies ({table.tavl_root} + Refs(table.tree))`tag0, ({table.tavl_root} + Refs(table.tree))`tag1, Refs(table.tree)`balance
    ensures table.Valid() && fresh(n) && n.data == item && item !in old(Items(table.tree))
    ensures Items(table.tree) == InsertSorted(old(Items(table.tree)), item) && Refs(table.tree) == old(Refs(table.tree)) + {n}
  {
    hide Shape, Sep, Refs, Under, PathAt, PathSep, Held, AvlOk, Height, Items, StrictlySorted, Plug, Wants, TavlTable.Valid, Lefts, Rights, InsertSorted;
    hide Tracks, AllEven;
    ghost var whole := table.tree;
    Known(table);
    Absent(table.tavl_root, cs, whole);
    AboveOutside(table.tavl_root, cs);
    n := PlaceLeaf(p, dir, item, table.tavl_root, cs);
    LeafRefs(n, item);
    ItemInserted(cs, item, n, 0);
    InsertSortedIsUnion(Items(whole), item);
    table.tavl_count := table.tavl_count + 1;
    ghost var us, f, ws := PathParts(table.tavl_root, cs, m, y, z, k, da);
    Rebalance(table, n, y, z, da, us, f, ws, item);
  }

  /** tavl_probe: inserts item unless it is there; returns its node. Every thread leads to the neighbour
      in order again, and every balance factor is exact. */
  method Probe(table: TavlTable, item: int) returns (n: TagNode)
    requires table.Valid() && |Items(table.tree)| < 9227464
    modifies table`tree, table`tavl_count
    modifies ({table.tavl_root} + Refs(table.tree))`link0, ({table.tavl_root} + Refs(table.tree))`link1
    modifies ({table.tavl_root} + Refs(table.tree))`tag0, ({table.tavl_root} + Refs(table.tree))`tag1, Refs(table.tree)`balance
    ensures table.Valid() && n in Refs(table.tree) && n.data == item
    ensures item in old(Items(table.tree)) ==> table.tree == old(table.tree)
    ensures item !in old(Items(table.tree)) ==> Items(table.tree) == InsertSorted(old(Items(table.tree)), item) && fresh(n)
    ensures Elements(Items(table.tree)) == Elements(old(Items(table.tree))) + {item}
    ensures Refs(table.tree) == old(Refs(table.tree)) + {n}
  {
    hide Shape, Sep, Refs, Under, PathAt, PathSep, Held, AvlOk, Height, Items, StrictlySorted, Plug, Wants, TavlTable.Valid, Lefts, Rights, InsertSorted;
    hide Tracks;
    ghost var whole := table.tree;
    Alive(whole);
    var da := new nat[TAVL_MAX_HEIGHT];
    Known(table);
    AvlModel.Low(whole);
    RootLink(table);
    if table.tavl_root.link0 == null {
      n := ProbeEmpty(table, item);
      EmptyItems(whole, item);
      return;
    }
    var found, p, dir, y, z, k, cs, t, m := Seek(table, item, da);
    if found {
      Found(table.tavl_root, cs, t, whole);
      assert Elements(Items(whole)) == Elements(Items(whole)) + {item};
      n := p;
    } else {
      NoTree(t);
      n := Grow(table, item, da, p, dir, y, z, k, cs, m);
      InsertSortedIsUnion(Items(whole), item);
      Alive(table.tree);
    }
  }

  lemma NoTree(t: TTree)
    requires t.Leaf?
    ensures t == Leaf
  {
  }

  lemma RootLink(table: TavlTable)
    requires table.Valid()
    ensures table.tavl_root.link0 == Top(table.tree)
  {
  }

  lemma EmptyItems(t: TTree, item: int)
    requires t.Leaf?
    ensures Items(t) == [] && Refs(t) == {} && InsertSorted([], item) == [item] && Elements([item]) == {item} && Elements([]) == {}
  {
  }
}
