/** The nodes a search passes on its way down, and what leaves them as they are. */
module TreeWay {
  import opened Seqs
  import opened SlabModel
  import opened Trees

  /** The nodes a search for item passes before it stops. */
  ghost function Way<R, C>(t: Tree<R, C>, item: int): (w: seq<R>)
    ensures |w| == SearchDepth(t, item)
  {
    if t.Leaf? || t.key == item then [] else [t.ref] + Way(if item > t.key then t.right else t.left, item)
  }

  /** The nodes on a path. */
  ghost function PathRefs<R, C>(cs: seq<Frame<R, C>>): (r: seq<R>)
    ensures |r| == |cs| && forall i :: 0 <= i < |cs| ==> r[i] == cs[i].ref
  {
    if cs == [] then [] else PathRefs(cs[..|cs| - 1]) + [cs[|cs| - 1].ref]
  }

  lemma {:induction false} PathRefsPush<R, C>(cs: seq<Frame<R, C>>, f: Frame<R, C>)
    ensures PathRefs(cs + [f]) == PathRefs(cs) + [f.ref]
  {
    assert (cs + [f])[..|cs|] == cs;
  }

  /** Which side of a node an item is on, in a sorted tree. */
  lemma {:induction false} Sides<R, C>(cs: seq<Frame<R, C>>, f: Frame<R, C>, t: Tree<R, C>)
    requires StrictlySorted(Items(Plug(cs, Fill(f, t))))
    ensures forall x :: x in Items(t) ==> x != f.key && (x > f.key <==> f.dir != 0)
    ensures forall x :: x in Items(f.sib) ==> x != f.key && (x > f.key <==> f.dir == 0)
    ensures forall x :: x in Items(Fill(f, t)) <==> x == f.key || x in Items(t) || x in Items(f.sib)
  {
    hide StrictlySorted, Plug, Lefts, Rights;
    var a := Fill(f, t);
    PlugItems(cs, a);
    SortedParts(Lefts(cs), Items(a), Rights(cs));
    SortedAround(Items(a.left), f.key, Items(a.right));
  }

  lemma {:induction false} PlugLast<R, C>(cs: seq<Frame<R, C>>, t: Tree<R, C>)
    requires cs != []
    ensures Plug(cs, t) == Plug(cs[..|cs| - 1], Fill(cs[|cs| - 1], t))
  {
  }

  /** One step of a search. */
  lemma {:induction false} WayStep<R, C>(f: Frame<R, C>, t: Tree<R, C>, item: int)
    ensures item == f.key ==> Way(Fill(f, t), item) == []
    ensures item != f.key && (item > f.key <==> f.dir != 0) ==> Way(Fill(f, t), item) == [f.ref] + Way(t, item)
    ensures item != f.key && (item > f.key <==> f.dir == 0) ==> Way(Fill(f, t), item) == [f.ref] + Way(f.sib, item)
  {
  }

  /** In a sorted tree the search for an item of the subtree in the hole goes along the path. */
  lemma {:induction false} WayThrough<R, C>(cs: seq<Frame<R, C>>, t: Tree<R, C>, item: int)
    requires StrictlySorted(Items(Plug(cs, t))) && item in Items(t)
    ensures Way(Plug(cs, t), item) == PathRefs(cs) + Way(t, item)
    decreases |cs|
  {
    hide StrictlySorted, Items, Plug, Way;
    if cs == [] {
      assert Plug(cs, t) == t by { PlugEmpty(t); }
    } else {
      var us, f := cs[..|cs| - 1], cs[|cs| - 1];
      PlugLast(cs, t);
      Sides(us, f, t);
      WayStep(f, t, item);
      WayThrough(us, Fill(f, t), item);
      assert PathRefs(us) + ([f.ref] + Way(t, item)) == PathRefs(us) + [f.ref] + Way(t, item);
    }
  }

  lemma {:induction false} PlugEmpty<R, C>(t: Tree<R, C>)
    ensures Plug([], t) == t
  {
  }

  /** The same nodes under other tags. */
  ghost predicate Retagged<R, C>(cs: seq<Frame<R, C>>, ds: seq<Frame<R, C>>) {
    |cs| == |ds| && forall i :: 0 <= i < |cs| ==> ds[i] == cs[i].(tag := ds[i].tag)
  }

  /** The way to an item depends neither on tags nor on what hangs in a hole it does not lead to. */
  lemma {:induction false} WaySwap<R, C>(cs: seq<Frame<R, C>>, ds: seq<Frame<R, C>>, t: Tree<R, C>, u: Tree<R, C>, item: int)
    requires Retagged(cs, ds) && StrictlySorted(Items(Plug(cs, t)))
    requires item in Items(Plug(cs, t)) && (item !in Items(t) || Way(t, item) == Way(u, item))
    ensures Way(Plug(cs, t), item) == Way(Plug(ds, u), item)
    decreases |cs|
  {
    hide StrictlySorted, Items, Plug, Way;
    if cs == [] {
      PlugEmpty(t);
      PlugEmpty(u);
    } else {
      var n := |cs| - 1;
      var f, g := cs[n], ds[n];
      PlugLast(cs, t);
      PlugLast(ds, u);
      Sides(cs[..n], f, t);
      WayStep(f, t, item);
      WayStep(g, u, item);
      WaySwap(cs[..n], ds[..n], Fill(f, t), Fill(g, u), item);
    }
  }
}
