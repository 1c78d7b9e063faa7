/** Binary trees whose nodes carry a reference, a key and a tag (a colour or a balance factor), and
    paths into them: what the balanced trees of drv/ have in common. */
module Trees {
  import opened Seqs
  import opened SlabModel
  import opened AddModel

  datatype Tree<R, C> = Leaf | Node(ref: R, left: Tree<R, C>, key: int, tag: C, right: Tree<R, C>)

  /** A node above the current subtree, which hangs at its link dir; sib hangs at the other link. */
  datatype Frame<R, C> = Frame(ref: R, dir: nat, key: int, tag: C, sib: Tree<R, C>)

  /** The node with subtree a at link d and b at the other link. */
  function Mk<R, C>(ref: R, d: nat, a: Tree<R, C>, key: int, tag: C, b: Tree<R, C>): Tree<R, C> {
    if d == 0 then Node(ref, a, key, tag, b) else Node(ref, b, key, tag, a)
  }

  function Child<R, C>(t: Tree<R, C>, d: nat): Tree<R, C>
    requires t.Node?
  {
    if d == 0 then t.left else t.right
  }

  function Fill<R, C>(f: Frame<R, C>, t: Tree<R, C>): Tree<R, C> {
    Mk(f.ref, f.dir, t, f.key, f.tag, f.sib)
  }

  /** The tree around the hole that the path cs leads to, with t in the hole. */
  function Plug<R, C>(cs: seq<Frame<R, C>>, t: Tree<R, C>): Tree<R, C>
    decreases |cs|
  {
    if cs == [] then t else Plug(cs[..|cs| - 1], Fill(cs[|cs| - 1], t))
  }

  /** The rotation that brings the child at link e above the root of t. */
  function Lift<R, C>(t: Tree<R, C>, e: nat): Tree<R, C>
    requires e <= 1 && t.Node? && Child(t, e).Node?
  {
    var y := Child(t, e);
    Mk(y.ref, e, Child(y, e), y.key, y.tag, Mk(t.ref, e, Child(y, 1 - e), t.key, t.tag, Child(t, 1 - e)))
  }

  function Items<R, C>(t: Tree<R, C>): seq<int> {
    if t.Leaf? then [] else Items(t.left) + [t.key] + Items(t.right)
  }

  ghost function Refs<R, C>(t: Tree<R, C>): set<R> {
    if t.Leaf? then {} else {t.ref} + Refs(t.left) + Refs(t.right)
  }

  /** No reference occurs twice. */
  ghost predicate Sep<R, C>(t: Tree<R, C>) {
    t.Leaf? || (Sep(t.left) && Sep(t.right) && t.ref !in Refs(t.left) && t.ref !in Refs(t.right) && Refs(t.left) !! Refs(t.right))
  }

  function Height<R, C>(t: Tree<R, C>): nat {
    if t.Leaf? then 0 else 1 + if Height(t.left) > Height(t.right) then Height(t.left) else Height(t.right)
  }

  /** The keys to the left of the hole. */
  function Lefts<R, C>(cs: seq<Frame<R, C>>): seq<int> {
    if cs == [] then [] else
    var f := cs[|cs| - 1];
    Lefts(cs[..|cs| - 1]) + if f.dir == 0 then [] else Items(f.sib) + [f.key]
  }

  /** The keys to the right of the hole. */
  function Rights<R, C>(cs: seq<Frame<R, C>>): seq<int> {
    if cs == [] then [] else
    var f := cs[|cs| - 1];
    (if f.dir == 0 then [f.key] + Items(f.sib) else []) + Rights(cs[..|cs| - 1])
  }

  lemma {:induction false} PlugItems<R, C>(cs: seq<Frame<R, C>>, t: Tree<R, C>)
    ensures Items(Plug(cs, t)) == Lefts(cs) + Items(t) + Rights(cs)
    decreases |cs|
  {
    if cs != [] {
      var f := cs[|cs| - 1];
      PlugItems(cs[..|cs| - 1], Fill(f, t));
    }
  }

  lemma {:induction false} PlugPush<R, C>(cs: seq<Frame<R, C>>, f: Frame<R, C>, t: Tree<R, C>)
    ensures Plug(cs + [f], t) == Plug(cs, Fill(f, t))
    ensures Lefts(cs + [f]) == Lefts(cs) + if f.dir == 0 then [] else Items(f.sib) + [f.key]
    ensures Rights(cs + [f]) == (if f.dir == 0 then [f.key] + Items(f.sib) else []) + Rights(cs)
  {
    assert (cs + [f])[..|cs|] == cs;
  }

  lemma {:induction false} PlugHeight<R, C>(cs: seq<Frame<R, C>>, t: Tree<R, C>)
    ensures Height(Plug(cs, t)) >= |cs| + Height(t)
    decreases |cs|
  {
    if cs != [] {
      PlugHeight(cs[..|cs| - 1], Fill(cs[|cs| - 1], t));
    }
  }

  /** What is in the hole matters to the whole tree only through its items. */
  lemma {:induction false} ItemsSwap<R, C>(cs: seq<Frame<R, C>>, t: Tree<R, C>, u: Tree<R, C>)
    requires Items(t) == Items(u)
    ensures Items(Plug(cs, t)) == Items(Plug(cs, u))
  {
    PlugItems(cs, t);
    PlugItems(cs, u);
  }

  function Size<R, C>(t: Tree<R, C>): (n: nat)
    ensures n == |Items(t)|
  {
    if t.Leaf? then 0 else Size(t.left) + 1 + Size(t.right)
  }

  lemma {:induction false} PlugSplit<R, C>(us: seq<Frame<R, C>>, ws: seq<Frame<R, C>>, t: Tree<R, C>)
    ensures Plug(us + ws, t) == Plug(us, Plug(ws, t))
    decreases |ws|
  {
    if ws == [] {
      assert us + ws == us;
    } else {
      var n := |ws| - 1;
      assert (us + ws)[..|us| + n] == us + ws[..n];
      PlugSplit(us, ws[..n], Fill(ws[n], t));
    }
  }

  /** A path that always turns left has nothing to its left. */
  lemma {:induction false} LeftsNone<R, C>(ws: seq<Frame<R, C>>)
    requires forall i :: 0 <= i < |ws| ==> ws[i].dir == 0
    ensures Lefts(ws) == []
    decreases |ws|
  {
    if ws != [] {
      LeftsNone(ws[..|ws| - 1]);
    }
  }

  lemma {:induction false} SortedAround(a: seq<int>, k: int, b: seq<int>)
    requires StrictlySorted(a + [k] + b)
    ensures StrictlySorted(a) && StrictlySorted(b) && AllBelow(a, k) && AllAbove(b, k)
  {
    SortedParts(a, [k], b);
  }

  /** The number of nodes a search for item passes before it stops. */
  ghost function SearchDepth<R, C>(t: Tree<R, C>, item: int): nat {
    if t.Leaf? || t.key == item then 0 else 1 + SearchDepth(if item > t.key then t.right else t.left, item)
  }

  /** A search passes no more nodes than the tree is high, and fewer when it finds the item. */
  lemma {:induction false} SearchDepthBound<R, C>(t: Tree<R, C>, item: int)
    requires StrictlySorted(Items(t))
    ensures SearchDepth(t, item) <= Height(t)
    ensures item in Items(t) ==> SearchDepth(t, item) < Height(t)
  {
    if t.Node? && t.key != item {
      SortedAround(Items(t.left), t.key, Items(t.right));
      SearchDepthBound(if item > t.key then t.right else t.left, item);
    }
  }

  /* ---- what a path is made of ---- */

  ghost function Under<R, C>(cs: seq<Frame<R, C>>): set<R> {
    if cs == [] then {} else Under(cs[..|cs| - 1]) + {cs[|cs| - 1].ref} + Refs(cs[|cs| - 1].sib)
  }

  /** Nothing on or beside the path occurs twice. */
  ghost predicate PathSep<R, C>(cs: seq<Frame<R, C>>) {
    cs == [] ||
    var n := |cs| - 1;
    PathSep(cs[..n]) && Sep(cs[n].sib) && cs[n].ref !in Refs(cs[n].sib) && cs[n].dir <= 1
    && cs[n].ref !in Under(cs[..n]) && Refs(cs[n].sib) !! Under(cs[..n])
  }

  ghost function AboveDir<R, C>(cs: seq<Frame<R, C>>): nat {
    if cs == [] then 0 else cs[|cs| - 1].dir
  }

  lemma {:induction false} UnderPush<R, C>(cs: seq<Frame<R, C>>, f: Frame<R, C>)
    ensures Under(cs + [f]) == Under(cs) + {f.ref} + Refs(f.sib)
  {
    assert (cs + [f])[..|cs|] == cs;
  }

  /** Reference sets and separation of a node and its subtrees. */
  lemma {:induction false} SepMk<R, C>(r: R, d: nat, a: Tree<R, C>, k: int, c: C, b: Tree<R, C>)
    requires d <= 1
    ensures Refs(Mk(r, d, a, k, c, b)) == {r} + Refs(a) + Refs(b)
    ensures Sep(Mk(r, d, a, k, c, b)) <==> Sep(a) && Sep(b) && r !in Refs(a) && r !in Refs(b) && Refs(a) !! Refs(b)
  {
  }

  lemma {:induction false} SepOpen<R, C>(t: Tree<R, C>, d: nat)
    requires t.Node? && d <= 1
    ensures Refs(t) == {t.ref} + Refs(Child(t, d)) + Refs(Child(t, 1 - d))
    ensures Sep(t) <==> Sep(Child(t, d)) && Sep(Child(t, 1 - d)) && t.ref !in Refs(Child(t, d)) && t.ref !in Refs(Child(t, 1 - d))
                        && Refs(Child(t, d)) !! Refs(Child(t, 1 - d))
  {
  }

  lemma {:induction false} UnderSplit<R, C>(us: seq<Frame<R, C>>, ws: seq<Frame<R, C>>)
    ensures Under(us + ws) == Under(us) + Under(ws)
    decreases |ws|
  {
    if ws == [] {
      assert us + ws == us;
    } else {
      assert (us + ws)[..|us| + |ws| - 1] == us + ws[..|ws| - 1];
      UnderSplit(us, ws[..|ws| - 1]);
    }
  }

  lemma {:induction false} SepSplit<R, C>(us: seq<Frame<R, C>>, ws: seq<Frame<R, C>>)
    ensures PathSep(us + ws) <==> PathSep(us) && PathSep(ws) && Under(us) !! Under(ws)
    decreases |ws|
  {
    if ws == [] {
      assert us + ws == us;
    } else {
      var n := |ws| - 1;
      assert (us + ws)[..|us| + n] == us + ws[..n] && (us + ws)[|us| + n] == ws[n];
      SepSplit(us, ws[..n]);
      UnderSplit(us, ws[..n]);
    }
  }

  lemma UpperUnder<R, C>(cs: seq<Frame<R, C>>)
    requires cs != []
    ensures Under(cs[..|cs| - 1]) <= Under(cs) && cs[|cs| - 1].ref in Under(cs)
  {
  }

  lemma LastUnder<R, C>(cs: seq<Frame<R, C>>)
    requires cs != []
    ensures cs[|cs| - 1].ref in Under(cs) && Refs(cs[|cs| - 1].sib) <= Under(cs) && Under(cs[..|cs| - 1]) <= Under(cs)
  {
  }

  lemma LastInside<R, C>(ws: seq<Frame<R, C>>)
    requires ws != []
    ensures ws[|ws| - 1].ref in Under(ws)
  {
  }

  lemma {:induction false} DirsOk<R, C>(cs: seq<Frame<R, C>>)
    requires PathSep(cs)
    ensures forall i :: 0 <= i < |cs| ==> cs[i].dir <= 1
    decreases |cs|
  {
    if cs != [] {
      DirsOk(cs[..|cs| - 1]);
    }
  }

  /* ---- searches ---- */

  /** The way down keeps smaller items to the left and larger ones to the right. */
  lemma {:induction false} StepOrder<R, C>(cs: seq<Frame<R, C>>, t: Tree<R, C>, item: int, whole: Tree<R, C>)
    requires t.Node? && item != t.key && Plug(cs, t) == whole && StrictlySorted(Items(whole))
    requires AllBelow(Lefts(cs), item) && AllAbove(Rights(cs), item)
    ensures var d := if item > t.key then 1 else 0;
      var f := Frame(t.ref, d, t.key, t.tag, Child(t, 1 - d));
      && Plug(cs + [f], Child(t, d)) == whole
      && AllBelow(Lefts(cs + [f]), item) && AllAbove(Rights(cs + [f]), item)
  {
    hide StrictlySorted, Plug, Lefts, Rights;
    var d := if item > t.key then 1 else 0;
    var f := Frame(t.ref, d, t.key, t.tag, Child(t, 1 - d));
    PlugPush(cs, f, Child(t, d));
    PlugItems(cs, t);
    SortedParts(Lefts(cs), Items(t), Rights(cs));
    SortedAround(Items(t.left), t.key, Items(t.right));
  }

  /** A path to a node is shorter than the tree is high. */
  lemma {:induction false} PathShort<R, C>(cs: seq<Frame<R, C>>, t: Tree<R, C>, whole: Tree<R, C>)
    requires Plug(cs, t) == whole && t.Node?
    ensures |cs| + 1 <= Height(whole)
  {
    PlugHeight(cs, t);
  }

  lemma {:induction false} ItemInserted<R, C>(cs: seq<Frame<R, C>>, item: int, n: R, tag: C)
    requires StrictlySorted(Lefts(cs) + Rights(cs)) && AllBelow(Lefts(cs), item) && AllAbove(Rights(cs), item)
    ensures Items(Plug(cs, Node(n, Leaf, item, tag, Leaf))) == InsertSorted(Lefts(cs) + Rights(cs), item)
    ensures item !in Lefts(cs) + Rights(cs)
    ensures |InsertSorted(Lefts(cs) + Rights(cs), item)| == |Lefts(cs) + Rights(cs)| + 1
  {
    hide StrictlySorted, Lefts, Rights, Plug;
    PlugItems(cs, Node(n, Leaf, item, tag, Leaf));
    assert Items(Node(n, Leaf, item, tag, Leaf)) == [item];
    assert Lefts(cs) + [] + Rights(cs) == Lefts(cs) + Rights(cs);
    assert InsertAt([], 0, item) == [item];
    InsertInParts(Lefts(cs), [], Rights(cs), item);
  }
}
