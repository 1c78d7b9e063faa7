/** avl.c: the traverser, which walks over the items of a table with a stack of the nodes above its own,
    and rebuilds that stack only when the generation of the table has changed. */
module AvlTraverser {
  import opened Seqs
  import opened Options
  import opened SlabModel
  import opened Trees
  import opened TreeHeap
  import opened TreeStack
  import opened TreeWay
  import opened AvlModel
  import opened AvlHeap
  import opened AvlProbe

  /** A place among the sorted items: that of items[i], or the null item behind the last one. */
  ghost predicate At(items: seq<int>, i: nat, x: TreeNode?<int>)
    reads x
  {
    i <= |items| && if i == |items| then x == null else x != null && x.data == items[i]
  }

  /** The next place in direction d, around the circle of n items and the null item. */
  function Turned(i: nat, n: nat, d: nat): (j: nat)
    requires i <= n
    ensures j <= n && (i != j || n == 0)
  {
    if d == 0 then (if i == 0 then n else i - 1) else (if i == n then 0 else i + 1)
  }

  /** Forth and back. */
  lemma TurnedBack(i: nat, n: nat, d: nat)
    requires i <= n && d <= 1
    ensures Turned(Turned(i, n, d), n, 1 - d) == i
  {
  }

  /** What follows a among the items by their order: the least one above it, where the null item is below
      all of them; the null item if there is none. */
  ghost predicate Follows(items: seq<int>, a: Option<int>, b: Option<int>) {
    match b
    case Some(y) => y in items && (a.Some? ==> a.value < y) && forall z :: z in items && (a.Some? ==> a.value < z) ==> y <= z
    case None => forall z :: z in items ==> a.Some? && z <= a.value
  }

  /** What precedes a: the greatest item below it, where the null item is above all of them. */
  ghost predicate Precedes(items: seq<int>, a: Option<int>, b: Option<int>) {
    match b
    case Some(y) => y in items && (a.Some? ==> y < a.value) && forall z :: z in items && (a.Some? ==> z < a.value) ==> z <= y
    case None => forall z :: z in items ==> a.Some? && a.value <= z
  }

  /** The item at place i. */
  function ItemAt(items: seq<int>, i: nat): Option<int> {
    if i < |items| then Some(items[i]) else None
  }

  /** The next place holds the item that follows by order, the other way round the one that precedes. */
  lemma {:induction false} TurnedLeads(items: seq<int>, i: nat)
    requires StrictlySorted(items) && i <= |items|
    ensures Follows(items, ItemAt(items, i), ItemAt(items, Turned(i, |items|, 1)))
    ensures Precedes(items, ItemAt(items, i), ItemAt(items, Turned(i, |items|, 0)))
  {
  }

  /** What follows an item, or the null item, is preceded by it, and the other way round. */
  lemma {:induction false} LeadsBack(items: seq<int>, a: Option<int>, b: Option<int>)
    requires (a.Some? ==> a.value in items) && (b.Some? ==> b.value in items)
    ensures Follows(items, a, b) <==> Precedes(items, b, a)
  {
  }

  /** A node that stands at a place holds the item there. */
  lemma AtItem(items: seq<int>, i: nat, x: TreeNode?<int>)
    requires At(items, i, x)
    ensures i <= |items| && ItemAt(items, i) == if x == null then None else Some(x.data)
  {
  }

  /** The index of the key of the node in the hole. */
  ghost function Index(cs: APathN, t: ATreeN): nat
    requires t.Node?
  {
    |Lefts(cs)| + |Items(t.left)|
  }

  /** The index of the outermost item at side d of the subtree in the hole. */
  ghost function Border(cs: APathN, t: ATreeN, d: nat): nat
    requires t.Node?
  {
    if d == 0 then |Lefts(cs)| else |Lefts(cs)| + |Items(t)| - 1
  }

  lemma {:induction false} IndexIs(cs: APathN, t: ATreeN)
    requires t.Node?
    ensures var items := Items(Plug(cs, t)); Index(cs, t) < |items| && items[Index(cs, t)] == t.key
    ensures cs == [] ==> Border(cs, t, 0) == 0 && Border(cs, t, 1) == |Items(Plug(cs, t))| - 1
  {
    hide Plug;
    PlugItems(cs, t);
  }

  /** Walking down at side d does not change the outermost item, and ends at it. */
  lemma {:induction false} BorderDown(cs: APathN, t: ATreeN, d: nat)
    requires t.Node? && d <= 1
    ensures Child(t, d).Leaf? ==> Index(cs, t) == Border(cs, t, d)
    ensures Child(t, d).Node? ==> Border(cs + [Frame(t.ref, d, t.key, t.tag, Child(t, 1 - d))], Child(t, d), d) == Border(cs, t, d)
    ensures Child(t, 1 - d).Node? ==>
      var i := Border(cs + [Frame(t.ref, 1 - d, t.key, t.tag, Child(t, d))], Child(t, 1 - d), d);
      i == Index(cs, t) - Sign(d)
  {
    hide Plug, Rights;
    if Child(t, d).Node? {
      PlugPush(cs, Frame(t.ref, d, t.key, t.tag, Child(t, 1 - d)), Child(t, d));
    }
    if Child(t, 1 - d).Node? {
      PlugPush(cs, Frame(t.ref, 1 - d, t.key, t.tag, Child(t, d)), Child(t, 1 - d));
    }
  }

  /** Walking up from side d of a node does not change the outermost item at that side; from the other
      side it leads to the item next to it. */
  lemma {:induction false} BorderUp(cs: APathN, t: ATreeN, d: nat)
    requires t.Node? && d <= 1 && cs != [] && cs[|cs| - 1].dir <= 1
    ensures var us, f := cs[..|cs| - 1], cs[|cs| - 1];
      && (f.dir == d ==> Border(us, Fill(f, t), d) == Border(cs, t, d))
      && (f.dir != d ==> Index(us, Fill(f, t)) == Border(cs, t, d) + Sign(d))
  {
  }

  /** Which link of the node above leads to the hole. */
  lemma {:induction false} LinkSide(root: TreeNode<int>, cs: APathN, t: ATreeN, d: nat)
    requires Held(root, cs, t) && cs != [] && t.Node? && d <= 1
    ensures cs[|cs| - 1].dir <= 1 && (cs[|cs| - 1].ref.Link(d) == t.ref <==> cs[|cs| - 1].dir == d)
  {
    var f := cs[|cs| - 1];
    LastOne(root, cs, t);
    if f.sib.Node? {
      assert f.sib.ref in Under(cs) && t.ref in Refs(t);
    }
  }

  /** A node of a tree is reached by a path. */
  lemma {:induction false} PathTo(root: TreeNode<int>, cs0: APathN, t0: ATreeN, x: TreeNode<int>) returns (cs: APathN, t: ATreeN)
    requires Held(root, cs0, t0) && x in Refs(t0)
    ensures Held(root, cs, t) && Plug(cs, t) == Plug(cs0, t0) && t.Node? && t.ref == x
    decreases t0
  {
    hide Shape, Sep, Under, PathAt, PathSep, Held, Plug;
    if t0.ref == x {
      cs, t := cs0, t0;
    } else {
      var d := if x in Refs(t0.left) then 0 else 1;
      var f := Frame(t0.ref, d, t0.key, t0.tag, Child(t0, 1 - d));
      Unzip(root, cs0, t0, d);
      PlugPush(cs0, f, Child(t0, d));
      cs, t := PathTo(root, cs0 + [f], Child(t0, d), x);
    }
  }

  /** Every node holds an item of its tree. */
  lemma {:induction false} NodeItem(t: ATreeN, x: TreeNode<int>)
    requires Shape(t) && x in Refs(t)
    ensures x.data in Items(t)
  {
    if x != t.ref {
      NodeItem(if x in Refs(t.left) then t.left else t.right, x);
    }
  }

  /** Comparing keys leads towards a node. */
  lemma {:induction false} Toward(t: ATreeN, x: TreeNode<int>)
    requires Shape(t) && StrictlySorted(Items(t)) && x in Refs(t) && x != t.ref
    ensures var d := if x.data > t.key then 1 else 0; Child(t, d).Node? && x in Refs(Child(t, d)) && StrictlySorted(Items(Child(t, d)))
  {
    hide StrictlySorted;
    SortedAround(Items(t.left), t.key, Items(t.right));
    if x in Refs(t.left) {
      NodeItem(t.left, x);
    } else {
      NodeItem(t.right, x);
    }
  }

  /** struct avl_traverser. */
  class Traverser {
    var avl_table: AvlTable
    var avl_node: TreeNode?<int>
    const avl_stack: array<TreeNode<int>>
    var avl_height: nat
    var avl_generation: int

    /** avl_t_init. */
    constructor (tree: AvlTable)
      requires tree.Valid()
      ensures Valid() && avl_table == tree && avl_node == null && fresh(avl_stack)
    {
      avl_table, avl_node, avl_height, avl_generation := tree, null, 0, tree.avl_generation;
      avl_stack := new TreeNode<int>[AVL_MAX_HEIGHT](_ => tree.avl_root);
    }

    /** The node is one of the tree; and while the generation is that of the table, the stack holds the
        way from the root to it. */
    ghost predicate Valid()
      reads this, avl_stack, avl_table, avl_table.avl_root, Refs(avl_table.tree)
    {
      && avl_table.Valid() && avl_stack.Length == AVL_MAX_HEIGHT && avl_generation <= avl_table.avl_generation
      && avl_height <= AVL_MAX_HEIGHT && (avl_node != null ==> avl_node in Refs(avl_table.tree))
      && (avl_node != null && avl_generation == avl_table.avl_generation ==>
            avl_stack[..avl_height] == Way(avl_table.tree, avl_node.data))
    }

    /** The stack holds the nodes on the path cs, and x is the top of the tree t at its end. */
    ghost predicate Stands(x: TreeNode?<int>, cs: APathN, t: ATreeN)
      reads this, avl_stack, avl_table, avl_table.avl_root, Under(cs), Refs(t)
    {
      && Held(avl_table.avl_root, cs, t) && Plug(cs, t) == avl_table.tree && Top(t) == x
      && avl_stack.Length == AVL_MAX_HEIGHT && avl_height <= AVL_MAX_HEIGHT && avl_stack[..avl_height] == PathRefs(cs)
    }

    /** trav->avl_stack[trav->avl_height++] = x; x = x->avl_link[d]. */
    method Down(x: TreeNode<int>, d: nat, ghost cs: APathN, ghost t: ATreeN)
      returns (y: TreeNode?<int>, ghost ds: APathN, ghost u: ATreeN)
      requires Stands(x, cs, t) && t.Node? && d <= 1 && Height(avl_table.tree) <= AVL_MAX_HEIGHT
      modifies this`avl_height, avl_stack
      ensures ds == cs + [Frame(t.ref, d, t.key, t.tag, Child(t, 1 - d))] && u == Child(t, d)
      ensures Stands(y, ds, u)
    {
      hide Items, Plug, Refs, Sep, Shape, Under, PathAt, PathSep, Held, Height, PathRefs;
      ghost var f := Frame(t.ref, d, t.key, t.tag, Child(t, 1 - d));
      ds, u := cs + [f], Child(t, d);
      Unzip(avl_table.avl_root, cs, t, d);
      PlugPush(cs, f, u);
      PathShort(cs, t, avl_table.tree);
      PathRefsPush(cs, f);
      HeldTops(avl_table.avl_root, cs, t);
      ghost var nodes := Refs(u) + Under(ds);
      y := x.Link(d);
      avl_stack[avl_height] := x;
      avl_height := avl_height + 1;
    }

    /** while (x->avl_link[d] != NULL) push x and go down. */
    method Plunge(x0: TreeNode<int>, d: nat, ghost cs0: APathN, ghost t0: ATreeN)
      returns (x: TreeNode<int>, ghost cs: APathN, ghost t: ATreeN)
      requires Stands(x0, cs0, t0) && t0.Node? && d <= 1 && Height(avl_table.tree) <= AVL_MAX_HEIGHT
      modifies this`avl_height, avl_stack
      ensures Stands(x, cs, t) && t.Node? && Index(cs, t) == Border(cs0, t0, d)
    {
      hide Stands, Height, Index, Border;
      StandsNode(x0, cs0, t0);
      x, cs, t := x0, cs0, t0;
      while x.Link(d) != null
        invariant Stands(x, cs, t) && t.Node? && Border(cs, t, d) == Border(cs0, t0, d)
        decreases t
      {
        LinkIs(x, d, cs, t);
        BorderDown(cs, t, d);
        ghost var ds, u;
        var y;
        y, ds, u := Down(x, d, cs, t);
        StandsNode(y, ds, u);
        x, cs, t := y, ds, u;
      }
      LinkIs(x, d, cs, t);
      BorderDown(cs, t, d);
    }

    lemma LinkIs(x: TreeNode<int>, d: nat, cs: APathN, t: ATreeN)
      requires Stands(x, cs, t) && d <= 1
      ensures t.Node? && x == t.ref && x.Link(d) == Top(Child(t, d)) && x.data == t.key
    {
    }

    lemma StandsNode(x: TreeNode?<int>, cs: APathN, t: ATreeN)
      requires Stands(x, cs, t)
      ensures Top(t) == x
    {
    }

    /** x = trav->avl_stack[--trav->avl_height]. */
    method Up(y: TreeNode<int>, d: nat, ghost cs: APathN, ghost t: ATreeN)
      returns (x: TreeNode<int>, ghost us: APathN, ghost u: ATreeN)
      requires Stands(y, cs, t) && t.Node? && d <= 1 && avl_height > 0
      modifies this`avl_height
      ensures Stands(x, us, u) && u.Node? && |us| < |cs| && avl_height == old(avl_height) - 1
      ensures y == x.Link(d) ==> Border(us, u, d) == Border(cs, t, d)
      ensures y != x.Link(d) ==> Index(us, u) == Border(cs, t, d) + Sign(d)
    {
      hide Items, Plug, Refs, Sep, Shape, Under, PathAt, PathSep, Held, PathRefs, Index, Border;
      us, u := cs[..|cs| - 1], Fill(cs[|cs| - 1], t);
      assert cs == us + [cs[|cs| - 1]];
      Zip(avl_table.avl_root, cs, t);
      PlugPush(us, cs[|cs| - 1], t);
      PathRefsPush(us, cs[|cs| - 1]);
      LinkSide(avl_table.avl_root, cs, t, d);
      BorderUp(cs, t, d);
      x := avl_stack[avl_height - 1];
      avl_height := avl_height - 1;
    }

    /** do { y = x; x = trav->avl_stack[--trav->avl_height]; } while (y == x->avl_link[d]), and null at the
        root. */
    method Climb(x0: TreeNode<int>, d: nat, ghost cs0: APathN, ghost t0: ATreeN)
      returns (x: TreeNode?<int>, ghost cs: APathN, ghost t: ATreeN)
      requires Stands(x0, cs0, t0) && t0.Node? && d <= 1
      modifies this`avl_height
      ensures avl_height <= old(avl_height)
      ensures x == null ==> Border(cs0, t0, d) == if d == 0 then 0 else |Items(avl_table.tree)| - 1
      ensures x != null ==> Stands(x, cs, t) && t.Node? && Index(cs, t) == Border(cs0, t0, d) + Sign(d)
    {
      hide Stands, Index, Border;
      StandsNode(x0, cs0, t0);
      x, cs, t := x0, cs0, t0;
      while true
        invariant avl_height <= old(avl_height) && x != null && Stands(x, cs, t) && t.Node? && Border(cs, t, d) == Border(cs0, t0, d)
        decreases |cs|
      {
        StackSize(x, cs, t);
        if avl_height == 0 {
          AtRoot(x, cs, t);
          x := null;
          return;
        }
        var y := x;
        x, cs, t := Up(x, d, cs, t);
        if y != x.Link(d) {
          return;
        }
      }
    }

    lemma StackSize(x: TreeNode?<int>, cs: APathN, t: ATreeN)
      requires Stands(x, cs, t)
      ensures avl_height == |cs|
    {
    }

    lemma AtRoot(x: TreeNode<int>, cs: APathN, t: ATreeN)
      requires Stands(x, cs, t) && t.Node? && cs == []
      ensures Border(cs, t, 0) == 0 && Border(cs, t, 1) == |Items(avl_table.tree)| - 1
    {
      IndexIs(cs, t);
    }

    /* ---- from the way to a path and back ---- */

    lemma {:induction false} StandsSorted(x: TreeNode<int>, cs: APathN, t: ATreeN)
      requires Stands(x, cs, t) && avl_table.Valid()
      ensures Shape(t) && StrictlySorted(Items(t))
    {
      hide StrictlySorted, Plug, Shape, Sep, AvlOk;
      PlugItems(cs, t);
      SortedParts(Lefts(cs), Items(t), Rights(cs));
    }

    /** The stack is the way to the node it stands above. */
    lemma {:induction false} StandsWay(x: TreeNode<int>, cs: APathN, t: ATreeN)
      requires Stands(x, cs, t) && t.Node? && avl_table.Valid()
      ensures x in Refs(avl_table.tree) && avl_height <= AVL_MAX_HEIGHT && avl_stack[..avl_height] == Way(avl_table.tree, x.data)
      ensures At(Items(avl_table.tree), Index(cs, t), x)
    {
      hide StrictlySorted, Plug, Sep, AvlOk, Index;
      Found(avl_table.avl_root, cs, t, avl_table.tree);
      WayThrough(cs, t, t.key);
      IndexIs(cs, t);
      assert PathRefs(cs) + [] == PathRefs(cs);
    }

    /** The way to the current node is the stack above it. */
    lemma {:induction false} ValidStands() returns (cs: APathN, t: ATreeN)
      requires Valid() && avl_node != null && avl_generation == avl_table.avl_generation
      ensures Stands(avl_node, cs, t) && t.Node? && At(Items(avl_table.tree), Index(cs, t), avl_node)
    {
      hide StrictlySorted, Plug, Sep, AvlOk, Index, Refs, Shape, PathAt, PathSep, Under, Items, Way, PathRefs;
      cs, t := PathTo(avl_table.avl_root, [], avl_table.tree, avl_node);
      PlugNothing(avl_table.tree);
      Found(avl_table.avl_root, cs, t, avl_table.tree);
      HeldTops(avl_table.avl_root, cs, t);
      OwnItem(t);
      WayThrough(cs, t, t.key);
      IndexIs(cs, t);
      assert PathRefs(cs) + [] == PathRefs(cs);
    }

    static lemma OwnItem(t: ATreeN)
      requires t.Node?
      ensures t.key in Items(t) && Way(t, t.key) == []
    {
    }

    lemma StandsPlug(x: TreeNode?<int>, cs: APathN, t: ATreeN)
      requires Stands(x, cs, t)
      ensures Plug(cs, t) == avl_table.tree && avl_height <= avl_stack.Length == AVL_MAX_HEIGHT
    {
    }

    /* ---- the operations ---- */

    /** The loop of trav_refresh. */
    method Follow() returns (ghost cs: APathN, ghost t: ATreeN)
      requires avl_table.Valid() && avl_stack.Length == AVL_MAX_HEIGHT && Height(avl_table.tree) <= AVL_MAX_HEIGHT
      requires avl_node != null && avl_node in Refs(avl_table.tree)
      modifies this`avl_height, avl_stack
      ensures avl_table.Valid() && Stands(avl_node, cs, t) && t.Node?
    {
      hide Stands, Height, StrictlySorted, Items, Refs, AvlTable.Valid;
      Alive(avl_table.tree);
      ghost var nodes: set<TreeNode<int>> := Refs(avl_table.tree);
      avl_height := 0;
      var i := avl_table.avl_root.link0;
      cs, t := [], avl_table.tree;
      Begin();
      HasTop(t, avl_node);
      while i != avl_node
        invariant t.Node? && t.ref == i && Stands(i, cs, t) && avl_node in Refs(t) && avl_table.Valid()
        decreases t
      {
        LinkIs(i, 0, cs, t);
        StandsSorted(i, cs, t);
        Toward(t, avl_node);
        Alive(avl_table.tree);
        ghost var u;
        var d := if avl_node.data > i.data then 1 else 0;
        i, cs, u := Down(i, d, cs, t);
        StandsNode(i, cs, u);
        t := u;
      }
    }

    static lemma HasTop(t: ATreeN, x: TreeNode<int>)
      requires x in Refs(t)
      ensures t.Node?
    {
    }

    /** trav_refresh. */
    method Refresh()
      requires Valid() && |Items(avl_table.tree)| < 9227464
      modifies this`avl_height, this`avl_generation, avl_stack
      ensures Valid() && avl_generation == avl_table.avl_generation
    {
      hide Stands, Height, StrictlySorted, Items, Refs, Way, AvlTable.Valid;
      Known(avl_table);
      AvlModel.Low(avl_table.tree);
      Alive(avl_table.tree);
      ghost var nodes: set<TreeNode<int>> := Refs(avl_table.tree);
      avl_generation := avl_table.avl_generation;
      if avl_node != null {
        ghost var cs, t := Follow();
        StandsWay(avl_node, cs, t);
      }
    }

    /** At the root with an empty stack. */
    lemma Begin()
      requires avl_height == 0 && avl_table.Valid() && avl_stack.Length == AVL_MAX_HEIGHT
      ensures Stands(avl_table.avl_root.link0, [], avl_table.tree) && Top(avl_table.tree) == avl_table.avl_root.link0
    {
      PlugNothing(avl_table.tree);
      HeldStart(avl_table.avl_root, avl_table.tree);
    }

    /** avl_t_cur. */
    function Cur(): Option<int>
      reads this, avl_node
    {
      if avl_node == null then None else Some(avl_node.data)
    }

    /** avl_t_first for d == 0, avl_t_last for d == 1: the item next to the null item on that side. */
    method Edge(tree: AvlTable, d: nat) returns (x: Option<int>)
      requires tree.Valid() && |Items(tree.tree)| < 9227464 && avl_stack.Length == AVL_MAX_HEIGHT && d <= 1
      modifies this, avl_stack
      ensures Valid() && avl_table == tree && avl_generation == tree.avl_generation && x == Cur()
      ensures if d == 0 then Follows(Items(tree.tree), None, x) else Precedes(Items(tree.tree), None, x)
      ensures var items := Items(tree.tree); At(items, Turned(|items|, |items|, 1 - d), avl_node)
    {
      hide Stands, Height, StrictlySorted, Items, Refs, Way, Index, Border, AvlTable.Valid, Follows, Precedes;
      Known(tree);
      AvlModel.Low(tree.tree);
      Alive(tree.tree);
      ghost var nodes: set<TreeNode<int>> := Refs(tree.tree);
      avl_table := tree;
      avl_height := 0;
      avl_generation := tree.avl_generation;
      var y := tree.avl_root.link0;
      Begin();
      if y == null {
        avl_node := null;
        NothingThere(tree.tree);
        PlaceLeads(0, null, null);
        return None;
      }
      ghost var cs, t;
      var z;
      z, cs, t := Plunge(y, d, [], tree.tree);
      StandsWay(z, cs, t);
      AtRootIs(tree.tree);
      avl_node := z;
      x := Some(z.data);
      PlaceLeads(|Items(tree.tree)|, null, z);
    }

    static lemma NothingThere(t: ATreeN)
      requires t.Leaf?
      ensures Items(t) == []
    {
    }

    static lemma AtRootIs(t: ATreeN)
      requires t.Node?
      ensures Border([], t, 0) == 0 && Border([], t, 1) == |Items(t)| - 1 && |Items(t)| > 0
    {
    }

    /** avl_t_next for d == 1, avl_t_prev for d == 0: one place on in the circle of the items and the null
        item, in the tree as it is now. */
    method Move(d: nat) returns (x: Option<int>)
      requires Valid() && |Items(avl_table.tree)| < 9227464 && d <= 1
      modifies this, avl_stack
      ensures Valid() && avl_table == old(avl_table) && avl_generation == avl_table.avl_generation && x == Cur()
      ensures var items := Items(avl_table.tree);
        exists i: nat :: i <= |items| && At(items, i, old(avl_node)) && At(items, Turned(i, |items|, d), avl_node)
      ensures if d == 1 then Follows(Items(avl_table.tree), old(Cur()), x) else Precedes(Items(avl_table.tree), old(Cur()), x)
    {
      hide Stands, Height, StrictlySorted, Items, Refs, Way, Index, Border, AvlTable.Valid, At, Follows, Precedes;
      Known(avl_table);
      AvlModel.Low(avl_table.tree);
      Alive(avl_table.tree);
      ghost var nodes: set<TreeNode<int>> := Refs(avl_table.tree);
      if avl_generation != avl_table.avl_generation {
        Refresh();
      }
      if avl_node == null {
        NullAt(Items(avl_table.tree));
        x := Edge(avl_table, 1 - d);
        return;
      }
      ghost var cs0, t0 := ValidStands();
      x := MoveFrom(avl_node, d, cs0, t0);
    }

    static lemma NullAt(items: seq<int>)
      ensures At(items, |items|, null)
    {
    }

    /** The part of avl_t_next and avl_t_prev for a node with its stack. */
    method MoveFrom(x0: TreeNode<int>, d: nat, ghost cs0: APathN, ghost t0: ATreeN) returns (x: Option<int>)
      requires avl_table.Valid() && avl_generation == avl_table.avl_generation && d <= 1 && Height(avl_table.tree) <= AVL_MAX_HEIGHT
      requires Stands(x0, cs0, t0) && t0.Node?
      modifies this`avl_node, this`avl_height, avl_stack
      ensures Valid() && x == Cur()
      ensures var items := Items(avl_table.tree); Index(cs0, t0) <= |items| && At(items, Turned(Index(cs0, t0), |items|, d), avl_node)
      ensures if d == 1 then Follows(Items(avl_table.tree), Some(x0.data), x) else Precedes(Items(avl_table.tree), Some(x0.data), x)
    {
      hide Stands, Height, StrictlySorted, Items, Refs, Way, Index, Border, AvlTable.Valid, At, Follows, Precedes, ItemAt;
      Alive(avl_table.tree);
      ghost var nodes: set<TreeNode<int>> := Refs(avl_table.tree);
      LinkIs(x0, d, cs0, t0);
      StandsPlug(x0, cs0, t0);
      StandsWay(x0, cs0, t0);
      IndexIs(cs0, t0);
      BorderDown(cs0, t0, d);
      BorderDown(cs0, t0, 1 - d);
      ghost var cs, t;
      if x0.Link(d) != null {
        var y;
        y, cs, t := Down(x0, d, cs0, t0);
        StandsNode(y, cs, t);
        var z;
        z, cs, t := Plunge(y, 1 - d, cs, t);
        StandsWay(z, cs, t);
        avl_node := z;
      } else {
        var z;
        z, cs, t := Climb(x0, d, cs0, t0);
        if z != null {
          StandsWay(z, cs, t);
        } else {
          NullAt(Items(avl_table.tree));
        }
        avl_node := z;
      }
      x := Cur();
      PlaceLeads(Index(cs0, t0), x0, avl_node);
    }

    /** From places to the order of the items. */
    lemma PlaceLeads(i: nat, a: TreeNode?<int>, b: TreeNode?<int>)
      requires avl_table.Valid() && At(Items(avl_table.tree), i, a)
      ensures var items := Items(avl_table.tree);
        var from, to := if a == null then None else Some(a.data), if b == null then None else Some(b.data);
        && (At(items, Turned(i, |items|, 1), b) ==> Follows(items, from, to))
        && (At(items, Turned(i, |items|, 0), b) ==> Precedes(items, from, to))
    {
      hide Items, Follows, Precedes, ItemAt, At, Turned;
      var items := Items(avl_table.tree);
      Known(avl_table);
      AtItem(items, i, a);
      TurnedLeads(items, i);
      if At(items, Turned(i, |items|, 1), b) {
        AtItem(items, Turned(i, |items|, 1), b);
      }
      if At(items, Turned(i, |items|, 0), b) {
        AtItem(items, Turned(i, |items|, 0), b);
      }
    }

    /** avl_t_find. */
    method Find(tree: AvlTable, item: int) returns (x: Option<int>)
      requires tree.Valid() && |Items(tree.tree)| < 9227464 && avl_stack.Length == AVL_MAX_HEIGHT
      modifies this, avl_stack
      ensures Valid() && avl_table == tree && avl_generation == tree.avl_generation && x == Cur()
      ensures x == if item in Items(tree.tree) then Some(item) else None
    {
      hide Stands, Height, StrictlySorted, Items, Refs, Way, AvlTable.Valid, Plug, Lefts, Rights;
      Known(tree);
      AvlModel.Low(tree.tree);
      Alive(tree.tree);
      ghost var nodes: set<TreeNode<int>> := Refs(tree.tree);
      avl_table := tree;
      avl_height := 0;
      avl_generation := tree.avl_generation;
      var p := tree.avl_root.link0;
      ghost var cs: APathN, t := [], tree.tree;
      Begin();
      HeldStart(tree.avl_root, tree.tree);
      while p != null
        invariant Stands(p, cs, t) && Plug(cs, t) == tree.tree && Top(t) == p && tree.Valid()
        invariant AllBelow(Lefts(cs), item) && AllAbove(Rights(cs), item)
        invariant avl_table == tree && avl_generation == tree.avl_generation
        decreases t
      {
        LinkIs(p, 0, cs, t);
        if item == p.data {
          StandsWay(p, cs, t);
          KeyInside(cs, t);
          avl_node := p;
          return Some(p.data);
        }
        StepOrder(cs, t, item, tree.tree);
        Alive(tree.tree);
        ghost var u;
        p, cs, u := Down(p, if item < p.data then 0 else 1, cs, t);
        StandsNode(p, cs, u);
        t := u;
      }
      NotFound(cs, t, item);
      avl_height := 0;
      avl_node := null;
      x := None;
    }

    static lemma KeyInside(cs: APathN, t: ATreeN)
      requires t.Node?
      ensures t.key in Items(Plug(cs, t))
    {
      IndexIs(cs, t);
    }

    lemma NotFound(cs: APathN, t: ATreeN, item: int)
      requires Stands(null, cs, t) && AllBelow(Lefts(cs), item) && AllAbove(Rights(cs), item)
      ensures item !in Items(avl_table.tree)
    {
      NotThere(avl_table.avl_root, cs, avl_table.tree, item);
    }

    /** avl_t_insert: the generation that it notes is stale on purpose. */
    method Insert(tree: AvlTable, item: int) returns (x: Option<int>)
      requires tree.Valid() && |Items(tree.tree)| < 9227464 && avl_height <= avl_stack.Length == AVL_MAX_HEIGHT
      modifies this`avl_table, this`avl_node, this`avl_generation
      modifies tree`tree, tree`avl_count, tree`avl_generation
      modifies ({tree.avl_root} + Refs(tree.tree))`link0, ({tree.avl_root} + Refs(tree.tree))`link1, Refs(tree.tree)`tag
      ensures Valid() && avl_table == tree && x == Cur() == Some(item)
      ensures Elements(Items(tree.tree)) == Elements(old(Items(tree.tree))) + {item}
    {
      hide Items, Refs, Way, AvlTable.Valid, StrictlySorted;
      var p := Probe(tree, item);
      Alive(tree.tree);
      ghost var nodes: set<TreeNode<int>> := Refs(tree.tree);
      avl_table := tree;
      avl_node := p;
      avl_generation := tree.avl_generation - 1;
      x := Some(p.data);
    }

    /** avl_t_copy. */
    method Copy(src: Traverser) returns (x: Option<int>)
      requires src.Valid() && avl_height <= avl_stack.Length == AVL_MAX_HEIGHT && (this == src || avl_stack != src.avl_stack)
      modifies this, avl_stack
      ensures Valid() && avl_table == src.avl_table && avl_node == src.avl_node && x == Cur() == src.Cur()
    {
      hide Items, Refs, Way, AvlTable.Valid, StrictlySorted;
      if this != src {
        Alive(src.avl_table.tree);
        ghost var nodes: set<TreeNode<int>> := Refs(src.avl_table.tree);
        avl_table := src.avl_table;
        avl_node := src.avl_node;
        avl_generation := src.avl_generation;
        if avl_generation == avl_table.avl_generation {
          avl_height := src.avl_height;
          forall i | 0 <= i < avl_height {
            avl_stack[i] := src.avl_stack[i];
          }
          assert avl_stack[..avl_height] == src.avl_stack[..avl_height];
        }
      }
      x := Cur();
    }
  }
}
