/** tavl.c: the rotations, which turn threads into child links and back, and the writes to a link on
    the path. */
module TagTurn {
  import opened Seqs
  import opened Trees
  import opened AvlModel
  import opened TagHeap

  lemma {:induction false} ShapeMk(r: TagNode, d: nat, a: TTree, k: int, c: int, b: TTree, near: TagNode?, far: TagNode?)
    requires d <= 1 && r.data == k && r.balance == c && Side(r, d, Top(a), near) && Side(r, 1 - d, Top(b), far)
    requires ShapeAt(a, d, near, r) && ShapeAt(b, d, r, far)
    ensures ShapeAt(Mk(r, d, a, k, c, b), d, near, far) && Top(Mk(r, d, a, k, c, b)) == r
  {
  }

  lemma {:induction false} ShapeOpen(t: TTree, d: nat, near: TagNode?, far: TagNode?)
    requires t.Node? && d <= 1 && ShapeAt(t, d, near, far)
    ensures t.ref.data == t.key && t.ref.balance == t.tag
    ensures Side(t.ref, d, Top(Child(t, d)), near) && Side(t.ref, 1 - d, Top(Child(t, 1 - d)), far)
    ensures ShapeAt(Child(t, d), d, near, t.ref) && ShapeAt(Child(t, 1 - d), d, t.ref, far)
  {
  }

  /** What a node and its two subtrees look like before a rotation; the balance factor does not matter. */
  ghost predicate Before(y: TagNode, k: int, d: nat, x: TTree, b: TTree, near: TagNode?, far: TagNode?)
    reads y, Refs(x), Refs(b)
  {
    && d <= 1 && y.data == k && Side(y, d, Top(x), near) && Side(y, 1 - d, Top(b), far)
    && ShapeAt(x, d, near, y) && ShapeAt(b, d, y, far)
    && Sep(x) && Sep(b) && y !in Refs(x) && y !in Refs(b) && Refs(x) !! Refs(b)
  }

  /** The links and tags of a single rotation: c is what x holds at its inner link. */
  method RelinkSingle(y: TagNode, x: TagNode, d: nat, ghost a: TagNode?, ghost c: TagNode?, ghost b: TagNode?, ghost near: TagNode?, ghost far: TagNode?)
    requires d <= 1 && y != x && Side(y, d, x, near) && Side(x, 1 - d, c, y) && Side(x, d, a, near) && Side(y, 1 - d, b, far)
    modifies {x, y}`link0, {x, y}`link1, {x, y}`tag0, {x, y}`tag1
    ensures Side(x, d, a, near) && Side(y, 1 - d, b, far) && Side(x, 1 - d, y, far) && Side(y, d, c, x)
  {
    if x.Tag(1 - d) == THREAD {
      x.SetTag(1 - d, CHILD);
      y.SetTag(d, THREAD);
      y.SetLink(d, x);
    } else {
      y.SetLink(d, x.Link(1 - d));
    }
    x.SetLink(1 - d, y);
  }

  /** The single rotation. */
  method RotateSingle(y: TagNode, x: TagNode, d: nat, cx: int, cy: int, ghost k: int, ghost xt: TTree, ghost b: TTree, ghost near: TagNode?, ghost far: TagNode?)
    requires Before(y, k, d, xt, b, near, far) && xt.Node? && xt.ref == x
    modifies {x, y}`link0, {x, y}`link1, {x, y}`tag0, {x, y}`tag1, {x, y}`balance
    ensures var u := Single(y, k, d, xt, b, cx, cy);
      ShapeAt(u, d, near, far) && Sep(u) && Refs(u) == {y} + Refs(xt) + Refs(b) && Top(u) == x
  {
    hide Shape, ShapeAt, Sep, Refs, Side;
    ghost var a, c := Child(xt, d), Child(xt, 1 - d);
    ShapeOpen(xt, d, near, y);
    SepOpen(xt, d);
    Alive(a);
    Alive(b);
    Alive(c);
    RelinkSingle(y, x, d, Top(a), Top(c), Top(b), near, far);
    x.balance := cx;
    y.balance := cy;
    ghost var low := Mk(y, d, c, k, cy, b);
    ShapeMk(y, d, c, k, cy, b, x, far);
    ShapeMk(x, d, a, xt.key, cx, low, near, far);
    SepMk(y, d, c, k, cy, b);
    SepMk(x, d, a, xt.key, cx, low);
  }

  /** The new factors of a double rotation. */
  method SetFactors(y: TagNode, x: TagNode, w: TagNode, d: nat)
    requires y != x && y != w && x != w && -1 <= w.balance <= 1
    modifies {x, y, w}`balance
    ensures x.balance == if old(w.balance) == -Sign(d) then Sign(d) else 0
    ensures y.balance == if old(w.balance) == Sign(d) then -Sign(d) else 0
    ensures w.balance == 0
  {
    if w.balance == Sign(d) {
      x.balance := 0;
      y.balance := -Sign(d);
    } else if w.balance == 0 {
      x.balance := 0;
      y.balance := 0;
    } else {
      x.balance := Sign(d);
      y.balance := 0;
    }
    w.balance := 0;
  }

  /** The links and tags of a double rotation. */
  method Relink(y: TagNode, x: TagNode, w: TagNode, d: nat, ghost a: TagNode?, ghost p: TagNode?, ghost q: TagNode?, ghost b: TagNode?, ghost near: TagNode?, ghost far: TagNode?)
    requires d <= 1 && y != x && y != w && x != w && Side(x, 1 - d, w, y) && Side(y, d, x, near) && Side(x, d, a, near) && Side(y, 1 - d, b, far)
    requires Side(w, d, p, x) && Side(w, 1 - d, q, y)
    modifies {x, y, w}`link0, {x, y, w}`link1, {x, y, w}`tag0, {x, y, w}`tag1
    ensures Side(x, d, a, near) && Side(y, 1 - d, b, far)
    ensures Side(w, d, x, near) && Side(w, 1 - d, y, far) && Side(x, 1 - d, p, w) && Side(y, d, q, w)
  {
    x.SetLink(1 - d, w.Link(d));
    w.SetLink(d, x);
    y.SetLink(d, w.Link(1 - d));
    w.SetLink(1 - d, y);
    if w.Tag(d) == THREAD {
      x.SetTag(1 - d, THREAD);
      x.SetLink(1 - d, w);
      w.SetTag(d, CHILD);
    }
    if w.Tag(1 - d) == THREAD {
      y.SetTag(d, THREAD);
      y.SetLink(d, w);
      w.SetTag(1 - d, CHILD);
    }
  }

  /** The double rotation: w = x->tavl_link[1 - d] comes above x and y. */
  method RotateDouble(y: TagNode, x: TagNode, d: nat, ghost k: int, ghost xt: TTree, ghost b: TTree, ghost near: TagNode?, ghost far: TagNode?) returns (w: TagNode)
    requires Before(y, k, d, xt, b, near, far) && xt.Node? && xt.ref == x && Child(xt, 1 - d).Node? && -1 <= Child(xt, 1 - d).tag <= 1
    modifies {x, y, Child(xt, 1 - d).ref}`link0, {x, y, Child(xt, 1 - d).ref}`link1
    modifies {x, y, Child(xt, 1 - d).ref}`tag0, {x, y, Child(xt, 1 - d).ref}`tag1, {x, y, Child(xt, 1 - d).ref}`balance
    ensures var u := Double(y, k, d, xt, b);
      ShapeAt(u, d, near, far) && Sep(u) && Refs(u) == {y} + Refs(xt) + Refs(b) && Top(u) == w
  {
    hide Shape, ShapeAt, Sep, Refs, Side;
    ghost var wt, a := Child(xt, 1 - d), Child(xt, d);
    ghost var p, q := Child(wt, d), Child(wt, 1 - d);
    ShapeOpen(xt, d, near, y);
    ShapeOpen(wt, d, x, y);
    SepOpen(xt, d);
    SepOpen(wt, d);
    Alive(a);
    Alive(b);
    Alive(p);
    Alive(q);
    w := x.Link(1 - d);
    Relink(y, x, w, d, Top(a), Top(p), Top(q), Top(b), near, far);
    SetFactors(y, x, w, d);
    ghost var l, r := Mk(x, d, a, xt.key, x.balance, p), Mk(y, d, q, k, y.balance, b);
    ShapeMk(x, d, a, xt.key, x.balance, p, near, w);
    ShapeMk(y, d, q, k, y.balance, b, w, far);
    ShapeMk(w, d, l, wt.key, 0, r, near, far);
    SepMk(x, d, a, xt.key, x.balance, p);
    SepMk(y, d, q, k, y.balance, b);
    SepMk(w, d, l, wt.key, 0, r);
  }

  /** q->tavl_link[dir] = x where a subtree hung before. */
  method SetHole(above: TagNode, d: nat, x: TagNode, ghost root: TagNode, ghost cs: TPath, ghost hole: TagNode)
    requires PathAt(root, cs, hole) && PathSep(cs) && root !in Under(cs) && above == Above(root, cs) && d == AboveDir(cs)
    modifies above`link0, above`link1
    ensures PathAt(root, cs, x)
  {
    hide Shape;
    if cs != [] {
      PathAlive(cs[..|cs| - 1]);
      Alive(cs[|cs| - 1].sib);
    }
    above.SetLink(d, x);
  }

  /** A new node takes the place of a thread. */
  method FillHole(above: TagNode, d: nat, x: TagNode, root: TagNode, ghost cs: TPath)
    requires PathAt(root, cs, null) && PathSep(cs) && root !in Under(cs) && above == Above(root, cs) && d == AboveDir(cs)
    modifies above`link0, above`link1, above`tag0, above`tag1
    ensures PathAt(root, cs, x)
  {
    hide Shape;
    if cs != [] {
      PathAlive(cs[..|cs| - 1]);
      Alive(cs[|cs| - 1].sib);
    }
    if above != root {
      above.SetTag(d, CHILD);
    }
    above.SetLink(d, x);
  }

  /** A thread takes the place of a node. */
  method ClearHole(above: TagNode, d: nat, thread: TagNode?, root: TagNode, ghost cs: TPath, ghost hole: TagNode)
    requires PathAt(root, cs, hole) && PathSep(cs) && root !in Under(cs) && above == Above(root, cs) && d == AboveDir(cs) && thread == Edge(cs, d)
    modifies above`link0, above`link1, above`tag0, above`tag1
    ensures PathAt(root, cs, null)
  {
    hide Shape;
    if cs != [] {
      PathAlive(cs[..|cs| - 1]);
      Alive(cs[|cs| - 1].sib);
    }
    above.SetLink(d, thread);
    if above != root {
      above.SetTag(d, THREAD);
    }
  }
}
