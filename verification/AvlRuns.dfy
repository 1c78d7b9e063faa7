/** Traversers and changes of the tree, in any order. */
module AvlRuns {
  import opened Seqs
  import opened SlabModel
  import opened AddModel
  import opened Trees
  import opened TreeHeap
  import opened TreeWay
  import opened AvlModel
  import opened AvlHeap
  import opened AvlProbe
  import opened AvlDelete
  import opened AvlTraverser

  datatype Op = Put(item: int) | Drop(item: int)

  /** The items after some operations. */
  ghost function After(items: set<int>, ops: seq<Op>): set<int>
    decreases |ops|
  {
    if ops == [] then items else
    var s := After(items, ops[..|ops| - 1]);
    match ops[|ops| - 1]
    case Put(item) => s + {item}
    case Drop(item) => s - {item}
  }

  /** Inserting an item, while a traverser is about. */
  method Insert(trav: Traverser, item: int)
    requires trav.Valid() && |Items(trav.avl_table.tree)| < 9227464
    modifies trav.avl_table`tree, trav.avl_table`avl_count, trav.avl_table`avl_generation
    modifies ({trav.avl_table.avl_root} + Refs(trav.avl_table.tree))`link0, ({trav.avl_table.avl_root} + Refs(trav.avl_table.tree))`link1
    modifies Refs(trav.avl_table.tree)`tag
    ensures trav.Valid() && Elements(Items(trav.avl_table.tree)) == old(Elements(Items(trav.avl_table.tree))) + {item}
    ensures forall x :: x in Refs(trav.avl_table.tree) ==> x in old(Refs(trav.avl_table.tree)) || fresh(x)
  {
    hide Items, Refs, Way, AvlOk, StrictlySorted, Elements, Height, AvlTable.Valid, WaysKept;
    ghost var whole := trav.avl_table.tree;
    if trav.avl_node != null {
      OwnKey(trav.avl_table, trav.avl_node);
    }
    var n := Probe(trav.avl_table, item);
    if trav.avl_node != null {
      KeptWay(whole, trav.avl_table.tree, trav.avl_node.data, trav.avl_generation == trav.avl_table.avl_generation);
    }
  }

  /** Deleting an item on which the traverser does not stand. */
  method Remove(trav: Traverser, item: int)
    requires trav.Valid() && |Items(trav.avl_table.tree)| < 5702886
    requires trav.avl_node != null ==> item != trav.avl_node.data
    modifies trav.avl_table`tree, trav.avl_table`avl_count, trav.avl_table`avl_generation
    modifies ({trav.avl_table.avl_root} + Refs(trav.avl_table.tree))`link0, ({trav.avl_table.avl_root} + Refs(trav.avl_table.tree))`link1
    modifies Refs(trav.avl_table.tree)`tag
    ensures trav.Valid() && Elements(Items(trav.avl_table.tree)) == old(Elements(Items(trav.avl_table.tree))) - {item}
    ensures forall x :: x in Refs(trav.avl_table.tree) ==> x in old(Refs(trav.avl_table.tree))
  {
    hide Items, Refs, Way, AvlOk, StrictlySorted, Elements, Height, AvlTable.Valid;
    Known(trav.avl_table);
    StackSuffices(trav.avl_table.tree, item);
    var found := Delete(trav.avl_table, item);
  }

  /** One change of the table leaves a traverser valid that does not stand on the node it takes away. */
  method Change(trav: Traverser, op: Op)
    requires trav.Valid() && |Items(trav.avl_table.tree)| < 5702886
    requires op.Drop? && trav.avl_node != null ==> op.item != trav.avl_node.data
    modifies trav.avl_table`tree, trav.avl_table`avl_count, trav.avl_table`avl_generation
    modifies ({trav.avl_table.avl_root} + Refs(trav.avl_table.tree))`link0, ({trav.avl_table.avl_root} + Refs(trav.avl_table.tree))`link1
    modifies Refs(trav.avl_table.tree)`tag
    ensures trav.Valid()
    ensures var items, was := Items(trav.avl_table.tree), old(Elements(Items(trav.avl_table.tree)));
      && Elements(items) == (if op.Put? then was + {op.item} else was - {op.item})
      && |items| <= old(|Items(trav.avl_table.tree)|) + 1
    ensures forall x :: x in Refs(trav.avl_table.tree) ==> x in old(Refs(trav.avl_table.tree)) || fresh(x)
  {
    hide Items, Refs, Elements, StrictlySorted, AvlOk, AvlTable.Valid;
    Counted(trav);
    match op
    case Put(item) =>
      Insert(trav, item);
      Counted(trav);
    case Drop(item) =>
      Remove(trav, item);
      Counted(trav);
  }

  lemma Counted(trav: Traverser)
    requires trav.Valid()
    ensures |Items(trav.avl_table.tree)| == |Elements(Items(trav.avl_table.tree))|
  {
    StrictlySortedCardinality(Items(trav.avl_table.tree));
  }

  lemma OwnKey(table: AvlTable, x: TreeNode<int>)
    requires table.Valid() && x in Refs(table.tree)
    ensures x.data in Items(table.tree)
  {
    NodeItem(table.tree, x);
  }

  lemma KeptWay(t: ATreeN, u: ATreeN, item: int, same: bool)
    requires item in Items(t) && (same ==> WaysKept(t, u))
    ensures same ==> Way(u, item) == Way(t, item)
  {
  }

  /** Whatever is inserted, and whatever is deleted but the current item: the traverser stays valid, and
      so its next move leads to the neighbour of its item among the items there are then. */
  method Edit(trav: Traverser, ops: seq<Op>)
    requires trav.Valid() && |Items(trav.avl_table.tree)| + |ops| < 5702886
    requires trav.avl_node != null ==> Drop(trav.avl_node.data) !in ops
    modifies trav.avl_table`tree, trav.avl_table`avl_count, trav.avl_table`avl_generation
    modifies ({trav.avl_table.avl_root} + Refs(trav.avl_table.tree))`link0, ({trav.avl_table.avl_root} + Refs(trav.avl_table.tree))`link1
    modifies Refs(trav.avl_table.tree)`tag
    ensures trav.Valid()
    ensures Elements(Items(trav.avl_table.tree)) == After(old(Elements(Items(trav.avl_table.tree))), ops)
  {
    hide Items, Refs, Elements, Traverser.Valid;
    ghost var was := Elements(Items(trav.avl_table.tree));
    for i := 0 to |ops|
      invariant trav.Valid() && |Items(trav.avl_table.tree)| + |ops| - i < 5702886
      invariant Elements(Items(trav.avl_table.tree)) == After(was, ops[..i])
      invariant forall x :: x in Refs(trav.avl_table.tree) ==> x in old(Refs(trav.avl_table.tree)) || fresh(x)
    {
      assert ops[..i + 1][..i] == ops[..i];
      assert ops[i] in ops;
      Change(trav, ops[i]);
    }
    assert ops[..|ops|] == ops;
  }
}
