/** tavl.c: nodes whose unused links are threads to the neighbours in order, and how a tree of them, or a
    path into it, lies in memory. */
module TagHeap {
  import opened Seqs
  import opened Trees
  import opened AvlModel

  /** TAVL_CHILD and TAVL_THREAD. */
  datatype Tag = CHILD | THREAD

  /** struct tavl_node. The two entries of the link array and of the tag array are two fields each. */
  class TagNode {
    var link0: TagNode?
    var link1: TagNode?
    var tag0: Tag
    var tag1: Tag
    var data: int
    var balance: int

    constructor (data: int)
      ensures link0 == null && link1 == null && tag0 == THREAD && tag1 == THREAD && this.data == data && balance == 0
    {
      link0, link1, tag0, tag1, this.data, balance := null, null, THREAD, THREAD, data, 0;
    }

    function Link(d: nat): TagNode?
      reads `link0, `link1
    {
      if d == 0 then link0 else link1
    }

    function Tag(d: nat): Tag
      reads `tag0, `tag1
    {
      if d == 0 then tag0 else tag1
    }

    method SetLink(d: nat, x: TagNode?)
      modifies `link0, `link1
      ensures d == 0 ==> link0 == x && link1 == old(link1)
      ensures d != 0 ==> link1 == x && link0 == old(link0)
    {
      if d == 0 {
        link0 := x;
      } else {
        link1 := x;
      }
    }

    method SetTag(d: nat, g: Tag)
      modifies `tag0, `tag1
      ensures d == 0 ==> tag0 == g && tag1 == old(tag1)
      ensures d != 0 ==> tag1 == g && tag0 == old(tag0)
    {
      if d == 0 {
        tag0 := g;
      } else {
        tag1 := g;
      }
    }
  }

  type TTree = Tree<TagNode, int>
  type TFrame = Frame<TagNode, int>
  type TPath = seq<TFrame>

  ghost function Top(t: TTree): TagNode? {
    if t.Leaf? then null else t.ref
  }

  /** Link d of x leads to the child c, or, when there is none, is a thread to bound. */
  ghost predicate Side(x: TagNode, d: nat, c: TagNode?, bound: TagNode?)
    reads x`link0, x`link1, x`tag0, x`tag1
  {
    if c == null then x.Tag(d) == THREAD && x.Link(d) == bound else x.Tag(d) == CHILD && x.Link(d) == c
  }

  /** The tree t lies in memory; lo and hi are the nodes just before and just behind it in order. */
  ghost predicate Shape(t: TTree, lo: TagNode?, hi: TagNode?)
    reads Refs(t)
  {
    t.Leaf? || (
      && t.ref.data == t.key && t.ref.balance == t.tag && Side(t.ref, 0, Top(t.left), lo) && Side(t.ref, 1, Top(t.right), hi)
      && Shape(t.left, lo, t.ref) && Shape(t.right, t.ref, hi))
  }

  /** The same, by directions: near is the neighbour at side d, far the one at the other side. */
  ghost predicate ShapeAt(t: TTree, d: nat, near: TagNode?, far: TagNode?)
    reads Refs(t)
  {
    if d == 0 then Shape(t, near, far) else Shape(t, far, near)
  }

  /** The neighbour, at side d, of whatever hangs at the end of the path ws: the lowest node that the
      path leaves to the other side; base, if there is none. */
  ghost function EdgeIn(ws: TPath, d: nat, base: TagNode?): TagNode? {
    if ws == [] then base else
    if ws[|ws| - 1].dir != d then ws[|ws| - 1].ref else EdgeIn(ws[..|ws| - 1], d, base)
  }

  ghost function Edge(cs: TPath, d: nat): TagNode? {
    EdgeIn(cs, d, null)
  }

  /** A node on a path with its other subtree, and the hole below it; near and far are the neighbours of
      all that at the side of the hole and at the other side. */
  ghost predicate FrameAt(f: TFrame, near: TagNode?, far: TagNode?, hole: TagNode?)
    reads f.ref, Refs(f.sib)
  {
    && f.dir <= 1 && f.ref.data == f.key && f.ref.balance == f.tag && Side(f.ref, f.dir, hole, near)
    && Side(f.ref, 1 - f.dir, Top(f.sib), far) && ShapeAt(f.sib, f.dir, f.ref, far)
  }

  /** The path lies in memory, from link 0 of the pseudo-root, whose tags are not used, to the hole. */
  ghost predicate PathAt(root: TagNode, cs: TPath, hole: TagNode?)
    reads root, Under(cs)
    decreases |cs|
  {
    if cs == [] then root.link0 == hole else
    var us, f := cs[..|cs| - 1], cs[|cs| - 1];
    f.dir <= 1 && FrameAt(f, Edge(us, f.dir), Edge(us, 1 - f.dir), hole) && PathAt(root, us, f.ref)
  }

  /** A path and the tree in its hole lie in memory, without overlap, and every thread leads to the
      neighbour in order. */
  ghost predicate Held(root: TagNode, cs: TPath, t: TTree)
    reads root, Under(cs), Refs(t)
  {
    && PathAt(root, cs, Top(t)) && Shape(t, Edge(cs, 0), Edge(cs, 1)) && PathSep(cs) && Sep(t) && Refs(t) !! Under(cs)
    && root !in Under(cs) && root !in Refs(t)
  }

  ghost function Above(root: TagNode, cs: TPath): TagNode {
    if cs == [] then root else cs[|cs| - 1].ref
  }

  lemma {:induction false} EdgePush(cs: TPath, f: TFrame, d: nat)
    ensures Edge(cs + [f], d) == if f.dir != d then f.ref else Edge(cs, d)
  {
    assert (cs + [f])[..|cs|] == cs;
  }

  lemma {:induction false} EdgeCat(us: TPath, ws: TPath, d: nat)
    ensures Edge(us + ws, d) == EdgeIn(ws, d, Edge(us, d))
    decreases |ws|
  {
    if ws == [] {
      assert us + ws == us;
    } else {
      var n := |ws| - 1;
      assert (us + ws)[..|us| + n] == us + ws[..n] && (us + ws)[|us| + n] == ws[n];
      EdgeCat(us, ws[..n], d);
    }
  }

  /** The lower part of a path lies in memory, between lo and hi. */
  ghost predicate SegAt(ws: TPath, lo: TagNode?, hi: TagNode?, hole: TagNode?)
    reads Under(ws)
    decreases |ws|
  {
    ws == [] ||
    var us, f := ws[..|ws| - 1], ws[|ws| - 1];
    f.dir <= 1 && FrameAt(f, EdgeIn(us, f.dir, if f.dir == 0 then lo else hi), EdgeIn(us, 1 - f.dir, if f.dir == 0 then hi else lo), hole)
    && SegAt(us, lo, hi, f.ref)
  }

  ghost function First(ws: TPath, hole: TagNode?): TagNode? {
    if ws == [] then hole else ws[0].ref
  }

  lemma {:induction false} PathSplit(root: TagNode, us: TPath, ws: TPath, hole: TagNode?)
    ensures PathAt(root, us + ws, hole) <==> PathAt(root, us, First(ws, hole)) && SegAt(ws, Edge(us, 0), Edge(us, 1), hole)
    decreases |ws|
  {
    hide Edge, EdgeIn, FrameAt;
    if ws == [] {
      assert us + ws == us;
    } else {
      var n := |ws| - 1;
      assert (us + ws)[..|us| + n] == us + ws[..n] && (us + ws)[|us| + n] == ws[n];
      EdgeCat(us, ws[..n], 0);
      EdgeCat(us, ws[..n], 1);
      PathSplit(root, us, ws[..n], ws[n].ref);
    }
  }

  lemma {:induction false} Zip(root: TagNode, cs: TPath, t: TTree)
    requires cs != [] && Held(root, cs, t)
    ensures Held(root, cs[..|cs| - 1], Fill(cs[|cs| - 1], t))
    ensures Refs(Fill(cs[|cs| - 1], t)) + Under(cs[..|cs| - 1]) == Refs(t) + Under(cs)
  {
  }

  lemma {:induction false} Unzip(root: TagNode, cs: TPath, t: TTree, d: nat)
    requires t.Node? && d <= 1 && Held(root, cs, t)
    ensures var f := Frame(t.ref, d, t.key, t.tag, Child(t, 1 - d));
      Held(root, cs + [f], Child(t, d)) && Refs(Child(t, d)) + Under(cs + [f]) == Refs(t) + Under(cs)
  {
    var f := Frame(t.ref, d, t.key, t.tag, Child(t, 1 - d));
    assert (cs + [f])[..|cs|] == cs;
  }

  lemma {:induction false} ZipAll(root: TagNode, cs: TPath, t: TTree)
    requires Held(root, cs, t)
    ensures Held(root, [], Plug(cs, t)) && Refs(Plug(cs, t)) == Refs(t) + Under(cs)
    decreases |cs|
  {
    if cs != [] {
      Zip(root, cs, t);
      ZipAll(root, cs[..|cs| - 1], Fill(cs[|cs| - 1], t));
    }
  }

  lemma Alive(t: TTree)
    ensures allocated(Refs(t))
  {
  }

  lemma PathAlive(cs: TPath)
    ensures allocated(Under(cs))
  {
  }

  /* ---- what the threads mean ---- */

  /** The outermost node at side d. */
  ghost function Extreme(t: TTree, d: nat): (x: TagNode)
    requires t.Node?
    ensures x in Refs(t)
  {
    if Child(t, d).Leaf? then t.ref else Extreme(Child(t, d), d)
  }

  /** The nodes of a tree in order. */
  ghost function Nodes(t: TTree): (s: seq<TagNode>)
    ensures |s| == Size(t)
  {
    if t.Leaf? then [] else Nodes(t.left) + [t.ref] + Nodes(t.right)
  }

  /** The node before nodes[i], where lo stands before all of them. */
  ghost function Previous(nodes: seq<TagNode>, lo: TagNode?, i: nat): TagNode?
    requires i <= |nodes|
  {
    if i == 0 then lo else nodes[i - 1]
  }

  ghost function Following(nodes: seq<TagNode>, hi: TagNode?, i: nat): TagNode?
    requires i < |nodes|
  {
    if i + 1 == |nodes| then hi else nodes[i + 1]
  }

  lemma {:induction false} NodesAt(t: TTree, i: nat)
    requires t.Node? && i < Size(t)
    ensures Size(t) == Size(t.left) + 1 + Size(t.right) && Nodes(t) == Nodes(t.left) + [t.ref] + Nodes(t.right)
    ensures var n := Size(t.left);
      && (i < n ==> Nodes(t)[i] == Nodes(t.left)[i] && Items(t)[i] == Items(t.left)[i])
      && (i == n ==> Nodes(t)[i] == t.ref && Items(t)[i] == t.key)
      && (i > n ==> Nodes(t)[i] == Nodes(t.right)[i - n - 1] && Items(t)[i] == Items(t.right)[i - n - 1])
  {
  }

  lemma {:induction false} NeighboursInside(a: seq<TagNode>, x: TagNode, b: seq<TagNode>, lo: TagNode?, hi: TagNode?)
    ensures var s := a + [x] + b;
      && (forall i :: 0 <= i < |a| ==> Previous(s, lo, i) == Previous(a, lo, i) && Following(s, hi, i) == Following(a, x, i))
      && (forall i :: 0 <= i < |b| ==> Previous(s, lo, |a| + 1 + i) == Previous(b, x, i) && Following(s, hi, |a| + 1 + i) == Following(b, hi, i))
      && (a == [] ==> Previous(s, lo, |a|) == lo) && (b == [] ==> Following(s, hi, |a|) == hi)
  {
  }

  lemma NoNodes(t: TTree)
    ensures t.Leaf? ==> Nodes(t) == []
  {
  }

  lemma ShapeParts(t: TTree, lo: TagNode?, hi: TagNode?)
    requires Shape(t, lo, hi) && t.Node?
    ensures t.ref.data == t.key && t.ref.balance == t.tag && Shape(t.left, lo, t.ref) && Shape(t.right, t.ref, hi)
    ensures t.ref.tag0 == (if t.left.Leaf? then THREAD else CHILD) && t.ref.link0 == (if t.left.Leaf? then lo else t.left.ref)
    ensures t.ref.tag1 == (if t.right.Leaf? then THREAD else CHILD) && t.ref.link1 == (if t.right.Leaf? then hi else t.right.ref)
  {
  }

  /** In a tree that lies in memory the nodes stand in the order of the items, and a link that is a
      thread names exactly the predecessor or the successor. */
  lemma {:induction false} ThreadsAreNeighbours(t: TTree, lo: TagNode?, hi: TagNode?, i: nat)
    requires Shape(t, lo, hi) && i < Size(t)
    ensures var nodes := Nodes(t); var x := nodes[i];
      && x.data == Items(t)[i]
      && (x.tag0 == THREAD ==> x.link0 == Previous(nodes, lo, i))
      && (x.tag1 == THREAD ==> x.link1 == Following(nodes, hi, i))
    decreases t
  {
    hide Shape, Items, Nodes, Previous, Following;
    var n := Size(t.left);
    ShapeParts(t, lo, hi);
    NodesAt(t, i);
    NoNodes(t.left);
    NoNodes(t.right);
    NeighboursInside(Nodes(t.left), t.ref, Nodes(t.right), lo, hi);
    if i < n {
      ThreadsAreNeighbours(t.left, lo, t.ref, i);
    } else if i > n {
      ThreadsAreNeighbours(t.right, t.ref, hi, i - n - 1);
    }
  }
}
