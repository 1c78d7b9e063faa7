/** What a search tree looks like when a node is cut out of it: the node itself, or the least node of its
    right subtree, leaves its place. */
module TreeCut {
  import opened Seqs
  import opened SlabModel
  import opened Trees

  /** All turns of the path are to the left. */
  ghost predicate AllLeft<R, C>(ws: seq<Frame<R, C>>) {
    forall i :: 0 <= i < |ws| ==> ws[i].dir == 0
  }

  /** The items without the key of the node at the hole. */
  ghost function Without<R, C>(cs: seq<Frame<R, C>>, t: Tree<R, C>): seq<int>
    requires t.Node?
  {
    Lefts(cs) + Items(t.left) + Items(t.right) + Rights(cs)
  }

  lemma {:induction false} WithoutLow<R, C>(cs: seq<Frame<R, C>>, t: Tree<R, C>)
    requires t.Node? && t.right.Leaf?
    ensures Items(Plug(cs, t.left)) == Without(cs, t)
  {
    PlugItems(cs, t.left);
  }

  /** The least node of the right subtree, with key k and right subtree x, has moved up. */
  lemma {:induction false} WithoutLeast<R, C>(cs: seq<Frame<R, C>>, t: Tree<R, C>, g: Frame<R, C>, ws: seq<Frame<R, C>>, low: Tree<R, C>)
    requires t.Node? && Plug(ws, low) == t.right && AllLeft(ws) && low.Node? && low.left.Leaf?
    requires g.dir == 1 && g.key == low.key && g.sib == t.left
    ensures Items(Plug(cs + [g] + ws, low.right)) == Without(cs, t)
  {
    hide Plug, Lefts, Rights;
    var x := low.right;
    PlugSplit(cs + [g], ws, x);
    PlugPush(cs, g, Plug(ws, x));
    PlugItems(cs, Fill(g, Plug(ws, x)));
    PlugItems(ws, x);
    PlugItems(ws, low);
    LeftsNone(ws);
  }

  /** The node t on path cs is cut out: ds is the path to the gap, x the subtree in it, and gone the tag
      of the node that has left its place. */
  ghost predicate Spliced<R, C>(cs: seq<Frame<R, C>>, t: Tree<R, C>, ds: seq<Frame<R, C>>, ws: seq<Frame<R, C>>, low: Tree<R, C>, x: Tree<R, C>, gone: C) {
    t.Node? &&
    if t.right.Leaf? then ds == cs && x == t.left && gone == t.tag
    else
      && low.Node? && low.left.Leaf? && Plug(ws, low) == t.right && AllLeft(ws) && x == low.right && gone == low.tag
      && ds == cs + [Frame(low.ref, 1, low.key, t.tag, t.left)] + ws
  }

  /** Cutting out drops the key of the node and nothing else. */
  lemma {:induction false} SplicedItems<R, C>(cs: seq<Frame<R, C>>, t: Tree<R, C>, ds: seq<Frame<R, C>>, ws: seq<Frame<R, C>>, low: Tree<R, C>, x: Tree<R, C>, gone: C)
    requires Spliced(cs, t, ds, ws, low, x, gone)
    ensures var i := |Lefts(cs) + Items(t.left)|; var all := Items(Plug(cs, t));
      i < |all| && all[i] == t.key && Items(Plug(ds, x)) == DeleteAt(all, i)
  {
    hide Plug, Lefts, Rights;
    PlugItems(cs, t);
    if t.right.Leaf? {
      WithoutLow(cs, t);
    } else {
      WithoutLeast(cs, t, Frame(low.ref, 1, low.key, t.tag, t.left), ws, low);
    }
  }
}
