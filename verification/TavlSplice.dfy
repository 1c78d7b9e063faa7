/** tavl.c: how tavl_delete cuts a node out and mends the threads that led to it. */
module TavlSplice {
  import opened Seqs
  import opened SlabModel
  import opened Trees
  import opened TreeCut
  import opened AvlModel
  import opened TagHeap
  import opened TagTurn
  import opened TavlProbe
  import opened TavlInsert

  /* ---- the thread behind the last node of a subtree ---- */

  /** The tree t lies in memory, but for the thread that leads on from its last node. */
  ghost predicate OpenEnd(t: TTree, lo: TagNode?)
    requires t.Node? && Sep(t)
    reads Refs(t) - {Extreme(t, 1)}
    reads Extreme(t, 1)`link0, Extreme(t, 1)`tag0, Extreme(t, 1)`tag1, Extreme(t, 1)`data, Extreme(t, 1)`balance
    decreases t
  {
    && t.ref.data == t.key && t.ref.balance == t.tag && Shape(t.left, lo, t.ref)
    && t.ref.tag0 == (if t.left.Leaf? then THREAD else CHILD) && t.ref.link0 == (if t.left.Leaf? then lo else t.left.ref)
    && if t.right.Leaf? then t.ref.tag1 == THREAD
       else t.ref.tag1 == CHILD && t.ref.link1 == t.right.ref && OpenEnd(t.right, t.ref)
  }

  lemma {:induction false} LeaveEnd(t: TTree, lo: TagNode?, hi: TagNode?)
    requires t.Node? && Sep(t) && Shape(t, lo, hi)
    ensures OpenEnd(t, lo)
  {
    if t.right.Node? {
      LeaveEnd(t.right, t.ref, hi);
    }
  }

  lemma {:induction false} JoinEnd(t: TTree, lo: TagNode?, hi: TagNode?)
    requires t.Node? && Sep(t) && OpenEnd(t, lo) && Extreme(t, 1).link1 == hi
    ensures Shape(t, lo, hi)
  {
    if t.right.Node? {
      JoinEnd(t.right, t.ref, hi);
    }
  }

  /** while (t->tavl_tag[1] == TAVL_CHILD) t = t->tavl_link[1]; t->tavl_link[1] = target. */
  method Rethread(x: TagNode, target: TagNode?, ghost t: TTree, ghost lo: TagNode?, ghost hi: TagNode?)
    requires t.Node? && t.ref == x && Sep(t) && Shape(t, lo, hi)
    modifies {Extreme(t, 1)}`link1
    ensures Shape(t, lo, target)
  {
    hide Shape, Sep, Refs, OpenEnd;
    TopOnSide(t, lo, hi);
    Alive(t);
    ghost var nodes: set<TagNode> := Refs(t);
    var last := Outermost(x, 1, t, hi, lo);
    LeaveEnd(t, lo, hi);
    last.link1 := target;
    JoinEnd(t, lo, target);
  }

  lemma TopOnSide(t: TTree, lo: TagNode?, hi: TagNode?)
    requires t.Node? && Shape(t, lo, hi)
    ensures OnSide(t.ref, t, 1, hi, lo)
  {
  }

  /* ---- the node to delete has no right subtree ---- */

  /** What memory says about the node in the hole. */
  lemma {:induction false} NodeParts(root: TagNode, cs: TPath, t: TTree)
    requires Held(root, cs, t) && t.Node?
    ensures PathAt(root, cs, t.ref) && PathSep(cs) && root !in Under(cs) && root !in Refs(t) && Refs(t) !! Under(cs) && AboveDir(cs) <= 1
    ensures Side(t.ref, 0, Top(t.left), Edge(cs, 0)) && Side(t.ref, 1, Top(t.right), Edge(cs, 1)) && t.ref.data == t.key && t.ref.balance == t.tag
    ensures Shape(t.left, Edge(cs, 0), t.ref) && Shape(t.right, t.ref, Edge(cs, 1))
    ensures Sep(t.left) && Sep(t.right) && t.ref !in Refs(t.left) && t.ref !in Refs(t.right) && Refs(t.left) !! Refs(t.right)
    ensures Refs(t) == {t.ref} + Refs(t.left) + Refs(t.right)
  {
  }

  lemma NoRefs(t: TTree)
    requires t.Leaf?
    ensures Refs(t) == {} && Sep(t) && t == Leaf
  {
  }

  /** Without a right subtree the left one takes the place of p; its last node threads on to where p did. */
  method CutLow(q: TagNode, dir: nat, p: TagNode, root: TagNode, ghost cs: TPath, ghost t: TTree)
    requires Held(root, cs, t) && t.Node? && t.ref == p && t.right.Leaf? && q == Above(root, cs) && dir == AboveDir(cs)
    modifies {q}`link0, {q}`link1, {q}`tag0, {q}`tag1, Refs(t)`link1
    ensures Held(root, cs, t.left) && Refs(t.left) + Under(cs) == Refs(t) + Under(cs) - {p}
  {
    hide Shape, Sep, Refs, Under, PathAt, PathSep, Edge, Held;
    NodeParts(root, cs, t);
    NoRefs(t.right);
    AboveOutside(root, cs);
    PathAlive(cs);
    Alive(t.left);
    if p.tag0 == CHILD {
      Rethread(p.link0, p.link1, t.left, Edge(cs, 0), p);
      Alive(t.left);
      SetHole(q, dir, p.link0, root, cs, p);
    } else {
      NoRefs(t.left);
      ClearHole(q, dir, p.Link(dir), root, cs, p);
    }
    CloseHeld(root, cs, t.left);
  }

  lemma {:induction false} CloseHeld(root: TagNode, cs: TPath, u: TTree)
    requires PathAt(root, cs, Top(u)) && PathSep(cs) && Sep(u) && root !in Under(cs) && root !in Refs(u) && Refs(u) !! Under(cs)
    requires u.Node? ==> Shape(u, Edge(cs, 0), Edge(cs, 1))
    ensures Held(root, cs, u)
  {
  }

  /* ---- the right child, or the least node below it, takes the place ---- */

  /** The links at which the child r takes over the left subtree of p. */
  method TakeLeft(p: TagNode, r: TagNode, ghost l: TTree, ghost b: TagNode?, ghost lo: TagNode?, ghost hi: TagNode?)
    requires p != r && Side(r, 1, b, hi) && r.tag0 == THREAD && Side(p, 0, Top(l), lo) && Shape(l, lo, p) && Sep(l) && p !in Refs(l) && r !in Refs(l)
    modifies r`link0, r`tag0, Refs(l)`link1
    ensures Side(r, 0, Top(l), lo) && Side(r, 1, b, hi) && Shape(l, lo, r)
  {
    hide Shape, Sep, Refs;
    r.link0 := p.link0;
    Alive(l);
    if p.tag0 == CHILD {
      Rethread(p.link0, r, l, lo, p);
      r.tag0 := CHILD;
    } else {
      NoRefs(l);
      EmptyShape(l, lo, r);
    }
  }

  lemma EmptyShape(t: TTree, lo: TagNode?, hi: TagNode?)
    requires t.Leaf?
    ensures Shape(t, lo, hi)
  {
  }

  lemma {:induction false} MkShape(r: TagNode, l: TTree, k: int, c: int, b: TTree, lo: TagNode?, hi: TagNode?)
    requires r.data == k && r.balance == c && Side(r, 0, Top(l), lo) && Side(r, 1, Top(b), hi) && Shape(l, lo, r) && Shape(b, r, hi)
    ensures Shape(Node(r, l, k, c, b), lo, hi)
  {
  }

  lemma SideParts(t: TTree, lo: TagNode?, hi: TagNode?)
    requires t.Node? && Shape(t, lo, hi)
    ensures Side(t.ref, 0, Top(t.left), lo) && Side(t.ref, 1, Top(t.right), hi) && Shape(t.left, lo, t.ref) && Shape(t.right, t.ref, hi)
    ensures t.ref.data == t.key && t.ref.balance == t.tag
  {
  }

  /** The right child r of p has no left subtree: it takes the place, the left subtree and the factor
      of p. */
  method SpliceChild(q: TagNode, dir: nat, p: TagNode, r: TagNode, root: TagNode, ghost cs: TPath, ghost t: TTree)
    requires Held(root, cs, t) && t.Node? && t.ref == p && t.right.Node? && t.right.ref == r && t.right.left.Leaf?
    requires q == Above(root, cs) && dir == AboveDir(cs)
    modifies {q}`link0, {q}`link1, Refs(t)`link0, Refs(t)`link1, Refs(t)`tag0, Refs(t)`balance
    ensures var g := Frame(r, 1, t.right.key, t.tag, t.left);
      Held(root, cs + [g], t.right.right) && Refs(t.right.right) + Under(cs + [g]) == Refs(t) + Under(cs) - {p}
  {
    hide Shape, Sep, Refs, Under, PathAt, PathSep, Edge, Held, Side;
    ghost var l, b := t.left, t.right.right;
    ghost var lo, hi := Edge(cs, 0), Edge(cs, 1);
    NodeParts(root, cs, t);
    SideParts(t.right, p, hi);
    SepOpen(t.right, 0);
    NoRefs(t.right.left);
    ThreadOf(r, p);
    AboveOutside(root, cs);
    PathAlive(cs);
    Alive(l);
    Alive(b);
    TakeLeft(p, r, l, Top(b), lo, hi);
    r.balance := p.balance;
    ghost var u := Node(r, l, t.right.key, t.tag, b);
    MkShape(r, l, t.right.key, t.tag, b, lo, hi);
    SepMk(r, 0, l, t.right.key, t.tag, b);
    Alive(u);
    SetHole(q, dir, r, root, cs, p);
    CloseHeld(root, cs, u);
    Unzip(root, cs, u, 1);
  }

  lemma ThreadOf(r: TagNode, p: TagNode)
    requires Side(r, 0, null, p)
    ensures r.tag0 == THREAD && r.link0 == p
  {
  }

  /** The lower end of a way to the left does not matter to the nodes on it, only to what hangs below. */
  lemma {:induction false} SegLeft(ws: TPath, lo: TagNode?, lo': TagNode?, hi: TagNode?, hole: TagNode)
    requires AllLeft(ws) && SegAt(ws, lo, hi, hole)
    ensures SegAt(ws, lo', hi, hole)
    decreases |ws|
  {
    if ws != [] {
      EdgeRight(ws[..|ws| - 1], lo, lo', hi);
      SegLeft(ws[..|ws| - 1], lo, lo', hi, ws[|ws| - 1].ref);
    }
  }

  lemma {:induction false} EdgeRight(ws: TPath, lo: TagNode?, lo': TagNode?, hi: TagNode?)
    requires AllLeft(ws)
    ensures EdgeIn(ws, 0, lo) == lo && EdgeIn(ws, 0, lo') == lo'
    ensures ws != [] ==> EdgeIn(ws, 1, hi) == ws[|ws| - 1].ref
    decreases |ws|
  {
    if ws != [] {
      EdgeRight(ws[..|ws| - 1], lo, lo', hi);
    }
  }

  /** if (s->tavl_tag[1] == TAVL_CHILD) r->tavl_link[0] = s->tavl_link[1]; else r gets a thread to s. */
  method CloseGap(r: TagNode, s: TagNode, ghost ws: TPath, ghost b: TTree, ghost lo: TagNode?, ghost hi: TagNode?)
    requires AllLeft(ws) && ws != [] && ws[|ws| - 1].ref == r && PathSep(ws) && SegAt(ws, lo, hi, s) && Side(s, 1, Top(b), r) && s !in Under(ws)
    modifies r`link0, r`tag0
    ensures SegAt(ws, s, hi, Top(b))
  {
    hide Shape, SegAt;
    SegLeft(ws, lo, s, hi, s);
    LastSeg(ws, s, hi, s);
    EdgeRight(ws[..|ws| - 1], s, s, hi);
    PathAlive(ws[..|ws| - 1]);
    Alive(ws[|ws| - 1].sib);
    LastInside(ws);
    if s.tag1 == CHILD {
      r.link0 := s.link1;
    } else {
      r.link0 := s;
      r.tag0 := THREAD;
    }
    JoinSeg(ws, s, hi, Top(b));
  }

  lemma LastSeg(ws: TPath, lo: TagNode?, hi: TagNode?, hole: TagNode?)
    requires SegAt(ws, lo, hi, hole) && ws != []
    ensures var us, f := ws[..|ws| - 1], ws[|ws| - 1];
      && f.dir <= 1 && FrameAt(f, EdgeIn(us, f.dir, if f.dir == 0 then lo else hi), EdgeIn(us, 1 - f.dir, if f.dir == 0 then hi else lo), hole)
      && SegAt(us, lo, hi, f.ref)
  {
  }

  lemma JoinSeg(ws: TPath, lo: TagNode?, hi: TagNode?, hole: TagNode?)
    requires ws != []
    requires var us, f := ws[..|ws| - 1], ws[|ws| - 1];
      && f.dir <= 1 && FrameAt(f, EdgeIn(us, f.dir, if f.dir == 0 then lo else hi), EdgeIn(us, 1 - f.dir, if f.dir == 0 then hi else lo), hole)
      && SegAt(us, lo, hi, f.ref)
    ensures SegAt(ws, lo, hi, hole)
  {
  }

  /** What a path through p, its right child and on to the left says about its parts. */
  lemma {:induction false} LeastParts(root: TagNode, cs: TPath, f: TFrame, ws: TPath, low: TTree)
    requires Held(root, cs + [f] + ws, low) && AllLeft(ws) && ws != [] && low.Node? && f.dir == 1
    ensures Apart(root, cs, f, ws, low) && PathAt(root, cs, f.ref) && f.ref.data == f.key && f.ref.balance == f.tag
    ensures Side(f.ref, 1, ws[0].ref, Edge(cs, 1)) && Side(f.ref, 0, Top(f.sib), Edge(cs, 0)) && Shape(f.sib, Edge(cs, 0), f.ref)
    ensures SegAt(ws, f.ref, Edge(cs, 1), low.ref) && Shape(low, f.ref, ws[|ws| - 1].ref)
    ensures Under(cs + [f] + ws) == Under(cs) + {f.ref} + Refs(f.sib) + Under(ws)
  {
    hide Shape, SegAt, Edge, EdgeIn, Under, Refs, Sep, PathAt;
    OpenAround(root, cs, f, ws, low);
    EdgeRight(ws, f.ref, f.ref, Edge(cs, 1));
  }

  lemma {:induction false} LeastJoin(root: TagNode, cs: TPath, g: TFrame, ws: TPath, b: TTree)
    requires Apart(root, cs, g, ws, b) && AllLeft(ws) && ws != [] && g.dir == 1 && PathAt(root, cs, g.ref) && g.ref.data == g.key && g.ref.balance == g.tag
    requires Side(g.ref, 1, ws[0].ref, Edge(cs, 1)) && Side(g.ref, 0, Top(g.sib), Edge(cs, 0)) && Shape(g.sib, Edge(cs, 0), g.ref)
    requires SegAt(ws, g.ref, Edge(cs, 1), Top(b)) && Shape(b, g.ref, ws[|ws| - 1].ref)
    ensures Held(root, cs + [g] + ws, b) && Under(cs + [g] + ws) == Under(cs) + {g.ref} + Refs(g.sib) + Under(ws)
  {
    hide Shape, SegAt, Edge, EdgeIn, Under, Refs, Sep, PathAt;
    EdgeRight(ws, g.ref, g.ref, Edge(cs, 1));
    CloseAround(root, cs, g, ws, b);
  }

  lemma {:induction false} ApartMoves(root: TagNode, cs: TPath, f: TFrame, g: TFrame, ws: TPath, low: TTree)
    requires Apart(root, cs, f, ws, low) && low.Node? && low.left.Leaf? && g == Frame(low.ref, 1, low.key, f.tag, f.sib)
    ensures Apart(root, cs, g, ws, low.right) && f.ref !in Under(ws) && f.ref != low.ref && low.ref !in Under(ws) && low.ref !in Under(cs)
    ensures low.ref !in Refs(f.sib) && f.ref !in Refs(low.right) && low.ref !in Refs(low.right)
    ensures Refs(low) == {low.ref} + Refs(low.right)
  {
    SepOpen(low, 0);
  }

  /** s->tavl_link[1] = p->tavl_link[1]; s->tavl_tag[1] = TAVL_CHILD. */
  method TakeRight(p: TagNode, s: TagNode, ghost c: TagNode, ghost l: TagNode?, ghost lo: TagNode?, ghost hi: TagNode?)
    requires p != s && Side(p, 1, c, hi) && Side(s, 0, l, lo)
    modifies s`link1, s`tag1
    ensures Side(s, 1, c, hi) && Side(s, 0, l, lo)
  {
    s.link1 := p.link1;
    s.tag1 := CHILD;
  }

  /** s, the least node below the right child of p, takes the place, the subtrees and the factor of p. */
  method SpliceLeast(q: TagNode, dir: nat, p: TagNode, s: TagNode, r: TagNode, root: TagNode, ghost cs: TPath, ghost f: TFrame, ghost ws: TPath, ghost low: TTree)
    requires Held(root, cs + [f] + ws, low) && AllLeft(ws) && ws != [] && low.Node? && low.ref == s && low.left.Leaf?
    requires f.ref == p && f.dir == 1 && ws[|ws| - 1].ref == r && q == Above(root, cs) && dir == AboveDir(cs)
    modifies {q, s, r}`link0, {q, s}`link1, {s, r}`tag0, {s}`tag1, {s}`balance, Refs(f.sib)`link1
    ensures var g := Frame(s, 1, low.key, f.tag, f.sib);
      Held(root, cs + [g] + ws, low.right) && Refs(low.right) + Under(cs + [g] + ws) == Refs(low) + Under(cs + [f] + ws) - {p}
  {
    hide Shape, ShapeAt, Sep, Refs, Under, PathAt, PathSep, SegAt, Edge, EdgeIn, Held, Side;
    ghost var b, l := low.right, f.sib;
    ghost var lo, hi := Edge(cs, 0), Edge(cs, 1);
    ghost var g := Frame(s, 1, low.key, f.tag, f.sib);
    LeastParts(root, cs, f, ws, low);
    SideParts(low, p, r);
    ApartMoves(root, cs, f, g, ws, low);
    LastInside(ws);
    ThreadOf(s, p);
    AboveOutside(root, cs);
    PathAlive(cs);
    PathAlive(ws);
    Alive(b);
    Alive(l);
    CloseGap(r, s, ws, b, p, hi);
    TakeLeft(p, s, l, Top(b), lo, r);
    TakeRight(p, s, ws[0].ref, Top(l), lo, hi);
    SetHole(q, dir, s, root, cs, p);
    s.balance := p.balance;
    LeastJoin(root, cs, g, ws, b);
  }

  /** The walk down to the left has come from the subtree t0 at the path us, along ws, to t. */
  ghost predicate Walk(root: TagNode, us: TPath, t0: TTree, ws: TPath, t: TTree)
    reads root, Under(us + ws), Refs(t)
  {
    Held(root, us + ws, t) && Plug(ws, t) == t0 && AllLeft(ws) && t.Node? && Refs(t) + Under(us + ws) == Refs(t0) + Under(us)
  }

  lemma {:induction false} WalkStep(root: TagNode, us: TPath, t0: TTree, ws: TPath, t: TTree) returns (f: TFrame)
    requires Walk(root, us, t0, ws, t) && t.left.Node?
    ensures f == Frame(t.ref, 0, t.key, t.tag, t.right) && Walk(root, us, t0, ws + [f], t.left)
    ensures t.ref.link0 == t.left.ref && (t.left.ref.tag0 == THREAD <==> t.left.left.Leaf?)
  {
    hide Plug, Refs, Sep, Shape, Under, PathAt, PathSep, Held;
    f := Frame(t.ref, 0, t.key, t.tag, t.right);
    assert us + ws + [f] == us + (ws + [f]);
    HeldTops(root, us + ws, t);
    Unzip(root, us + ws, t, 0);
    HeldTops(root, us + ws + [f], t.left);
    assert Child(t, 0) == t.left && Child(t.left, 0) == t.left.left;
    PlugPush(ws, f, t.left);
  }

  lemma WalkStart(root: TagNode, us: TPath, t0: TTree)
    requires Held(root, us, t0) && t0.Node?
    ensures Walk(root, us, t0, [], t0)
  {
    assert us + [] == us;
  }

  lemma WalkParts(root: TagNode, us: TPath, t0: TTree, ws: TPath, t: TTree)
    requires Walk(root, us, t0, ws, t)
    ensures Held(root, us + ws, t) && Plug(ws, t) == t0 && AllLeft(ws) && Refs(t) + Under(us + ws) == Refs(t0) + Under(us)
  {
  }

  /** The loop that walks from the right child r of the node to delete to the least node s below it; r
      ends as the node above s. */
  method WalkToLeast(r0: TagNode, ghost root: TagNode, ghost us: TPath, ghost t0: TTree)
    returns (r: TagNode, s: TagNode, ghost ws: TPath, ghost t: TTree)
    requires Held(root, us, t0) && t0.Node? && t0.ref == r0 && t0.left.Node?
    ensures Walk(root, us, t0, ws, t) && ws != [] && t.Node? && t.ref == s && t.left.Leaf? && ws[|ws| - 1].ref == r
  {
    hide Walk, Refs, Under, Held;
    r := r0;
    ws, t := [], t0;
    WalkStart(root, us, t0);
    while true
      invariant Walk(root, us, t0, ws, t) && t.Node? && t.ref == r && t.left.Node?
      decreases t
    {
      ghost var f := WalkStep(root, us, t0, ws, t);
      ws, t := ws + [f], t.left;
      s := r.link0;
      if s.tag0 == THREAD {
        return;
      }
      r := s;
    }
  }

  /** Before the walk: the path through the node to delete. */
  lemma {:induction false} LeastStart(root: TagNode, cs: TPath, t: TTree) returns (f: TFrame)
    requires Held(root, cs, t) && t.Node?
    ensures f == Frame(t.ref, 1, t.key, t.tag, t.left) && Held(root, cs + [f], t.right)
    ensures Refs(t.right) + Under(cs + [f]) == Refs(t) + Under(cs)
  {
    hide Plug, Refs, Sep, Shape, Under, PathAt, PathSep, Held;
    f := Frame(t.ref, 1, t.key, t.tag, t.left);
    Unzip(root, cs, t, 1);
  }

  lemma {:induction false} SegEnd(cs: TPath, f: TFrame, ws: TPath)
    requires ws != []
    ensures ws[|ws| - 1].ref in Under(cs + [f] + ws) && Refs(f.sib) <= Under(cs + [f] + ws)
  {
    hide Under, Refs;
    LastInside(ws);
    UnderSplit(cs + [f], ws);
    UnderPush(cs, f);
  }

  /** Cuts the node p out of the tree; q and dir then describe the gap. */
  method Unlink(p: TagNode, q0: TagNode, dir0: nat, root: TagNode, ghost cs: TPath, ghost t: TTree)
    returns (q: TagNode, dir: nat, ghost ds: TPath, ghost ws: TPath, ghost low: TTree, ghost x: TTree, ghost gone: int)
    requires Held(root, cs, t) && t.Node? && t.ref == p && q0 == Above(root, cs) && dir0 == AboveDir(cs)
    modifies ({root} + Under(cs) + Refs(t))`link0, ({root} + Under(cs) + Refs(t))`link1
    modifies ({root} + Under(cs) + Refs(t))`tag0, ({root} + Under(cs) + Refs(t))`tag1, (Under(cs) + Refs(t))`balance
    ensures Spliced(cs, t, ds, ws, low, x, gone) && Held(root, ds, x) && q == Above(root, ds) && dir == AboveDir(ds)
    ensures Refs(x) + Under(ds) == Refs(t) + Under(cs) - {p}
  {
    hide Plug, Refs, Sep, Shape, Under, PathAt, PathSep, Held, Edge;
    HeldTops(root, cs, t);
    AboveOutside(root, cs);
    ws, low := [], Leaf;
    if p.Tag(1) == THREAD {
      CutLow(q0, dir0, p, root, cs, t);
      q, dir, ds, x, gone := q0, dir0, cs, t.left, t.tag;
    } else {
      var r: TagNode := p.Link(1);
      ghost var f := LeastStart(root, cs, t);
      HeldTops(root, cs + [f], t.right);
      if r.Tag(0) == THREAD {
        ghost var g := Frame(r, 1, t.right.key, t.tag, t.left);
        SpliceChild(q0, dir0, p, r, root, cs, t);
        low, x, gone := t.right, t.right.right, t.right.tag;
        ds := cs + [g];
        assert cs + [g] + [] == ds;
        PlugEmptyTree(t.right);
        q, dir := r, 1;
      } else {
        var s;
        q, s, ws, low := WalkToLeast(r, root, cs + [f], t.right);
        WalkParts(root, cs + [f], t.right, ws, low);
        SegEnd(cs, f, ws);
        TopRef(low);
        PathAlive(cs + [f] + ws);
        Alive(low);
        SpliceLeast(q0, dir0, p, s, q, root, cs, f, ws, low);
        ghost var g := Frame(s, 1, low.key, f.tag, f.sib);
        ds, x, gone := cs + [g] + ws, low.right, low.tag;
        assert ds[|ds| - 1] == ws[|ws| - 1];
        dir := 0;
      }
    }
  }

  lemma PlugEmptyTree(t: TTree)
    ensures Plug([], t) == t
  {
  }
}
