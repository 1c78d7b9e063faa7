# Slab lists and balanced trees

A slab list keeps elements in slabs: arrays of up to 121 elements, linked both ways. A list starts as a
singly linked list of at most 60 nodes, turns into slabs, and attaches layers of subslabs beneath itself,
which index the slabs by up to 512 pointers each, cached extrema and element counts. Adding spills elements into
neighbours, makes slabs, and ripples the changes down the layers; removing shuffles elements among three
neighbours to free a slab; a reap compacts. The repository compares slab lists with other structures, and
carries for that purpose red-black, AVL and threaded AVL trees with explicit stacks, trees that are
balanced by way of a vine, and a B-tree.

The project models these as linked nodes and arrays in memory that methods change in place. A method is
proved against a function on values, or its contract states outright what the memory then holds; lemmas
prove what those functions mean.

- **Slab lists without layers** (`Seqs`, `Division`, `SlabModel`, `AddModel`, `RemModel`, `ListModel`,
  `OrderedModel`, `FoldModel`, `ReapGap` on values; `SlabCore`, `SlabList`, `SlabFind`, `SlabAdd`, `SlabRem`, `SmallList`, `SlabApi`,
  `OrderedApi`, `SlabFold` in memory). The packing discipline: two neighbouring slabs together never fit
  into one. It holds after every addition, removal and reap. It is why the conversion back to a small list
  loses nothing although it copies the head slab only. Over every run a sorted list is a mathematical set
  and an ordered list a sequence, across both representations.
- **Index layers** (`Groups`, `IndexModel`, `IndexStale` on values; `SubLayer`, `LayerLadder`, `LayerAdd`,
  `LayerPlace`, `LayerGen`, `LayerRipple`, `LayerDown`, `LayerApi`, `LayerTower`, `LayerFind`, `LayerAttach`,
  `LayerRuns`, `LayerQuery` in memory). The index agrees with the scan it speeds up, for any number of layers:
  the search from the base layer up delivers what the linear scan delivers, attaching a layer below any base
  establishes its index, and insertion keeps the indexes of all layers through every spill and every new slab
  or subslab. Where it can fail, between two full subslabs in different layers, is stated exactly.
- **Trees with ancestor stacks** (`Trees`, `TreeCut`, `TreeHeap`, `TreeStack`, `TreeSplice`; `RbModel`,
  `RbProbe`, `RbDelete`; `AvlModel`, `AvlHeap`, `AvlProbe`, `AvlDelete`). A tree in memory is seen through a
  path and the subtree in the hole at its end; a loop over the stacks moves the hole. Insertion and deletion
  keep search order, colours or balance factors, change the items by exactly the one item, and stay within
  the fixed stacks.
- **The AVL traverser** (`TreeWay`, `AvlTraverser`, `AvlRuns`). It caches the way from the root to its node
  and rebuilds it only when the generation of the table has changed, and insertions without a rotation do
  not change it. The cached way is right nevertheless.
- **Threaded AVL trees** (`TagHeap`, `TagTurn`, `TavlProbe`, `TavlInsert`, `TavlSplice`, `TavlDelete`). Unused
  links are threads to the neighbours in order. Every thread is exact after every operation, and it is the
  threads by which the parent of a node is found.
- **Vines** (`Powers`, `VineModel`, `VineHeap`, `ThreadVine`). Balancing yields the least possible height; in a
  threaded tree every thread is exact again afterwards.
- **B-trees** (`BtModel`, `BtHeap`, `BtMoves`, `BtSearch`, `BtInsert`, `BtDelete`). The bit by bit search equals
  the linear one; insertion and deletion keep the form of the tree and change one occurrence.

Elements are integers under the comparison and bounds callbacks of `drv/drv_gen.c`. The capacities of slabs,
small lists and subslabs are not fixed: everything holds for all that fit together as those of
`src/slablist_impl.h` do. Mirrored halves of the tree operations are one piece of code here, with the
direction as a parameter, and the pseudo-root of a tree is a node whose only link is the root.

## What the code does otherwise than its comments say

- The last two of the five branches of `slab_generic_rem` never run (`RemModel.ShuffleGuardsCoincide`), nor
  do the fourth branch of `gen_add_ira` (`SlabAdd.GenAddIra`) and the branch of `vine_to_tree` in `drv/tbst.c`
  for a bottom level larger than half the vine (`ThreadVine.VineToTree`).
- A reap does not leave all slabs but the last full. When it does is stated exactly by
  `RemModel.ReapCompactsIff`; `RemModel.ReapLeavesGap` names a list on which it does not, and
  `ReapGap.GapReached` shows that runs lead there.
- Removing an absent key above the maximum of a slab list compares the key with a slot past the last
  element. `ListModel.RemSlotIsLive` says exactly when this happens; the predicate RemDefined excludes it.
- A position equal to the element count leads past the end of the chain. A larger one on slabs that are not
  circular is answered with a null pointer that the callers follow; only a small list rejects it, and only in
  slablist_rem. `OrderedModel.PosOkExact` and `OrderedModel.RemAtDefinedExact` say exactly which positions are
  fit, and `OrderedModel.PosFails` gives inputs.
- `ripple_common` carries a new subslab down with a status taken from extrema that the spill has made stale.
  When a subslab has spilled that is the last entry of a full one, its pointer can come behind that of the new
  subslab: `IndexStale.StaleAddExact` says exactly when, `IndexStale.SpillMisplaces` gives an input, and the
  insertion into layers requires room there (the predicate RoomUnder).
- `avl_delete` reserves 32 stack entries, which is enough for every item that is present in a tree of fewer
  than 9,227,464 items, but not for every absent one: `AvlModel.StackSuffices` gives the bound for those,
  5,702,886, and `AvlModel.StackBoundExact` that it is exact.

## Model

| member | source | states |
|---|---|---|
| SlabCore.Slab.AddElem | src/slablist_add.c:179-244 | After the in-place shift the slab holds its old elements with the new one inserted at the index, and exact cached extrema stay exact. |
| SlabCore.Slab.RemoveElem | src/slablist_rem.c:883-931 | After the in-place shift the slab holds its old elements without that index, with exact extrema unless it ran empty. |
| SlabCore.Slab.MoveToNext | src/slablist_rem.c:478-572 | As many elements as fit go from the end of a slab to the front of the next one, in order; what the two hold together stays the same. |
| SlabCore.Slab.MoveToPrev | src/slablist_rem.c:579-668 | The mirror image: from the front of a slab to the end of the previous one. |
| SlabCore.Subslab.AddSlab | src/slablist_add.c:251-426 | A subslab with room holds its old pointers with the new slab inserted, the slab points back at it, and the extrema follow the slabs at the ends. |
| SlabCore.Subslab.AddSub | src/slablist_add.c:251-426 | The same for a pointer to a subslab, as subslabs from the second sublayer on hold them. |
| SlabCore.Subslab.UpdateExtrema | src/slablist_add.c:638-668 | In the first sublayer the cached extrema become those of the first and the last slab the subslab holds. |
| SlabCore.Subslab.UpdateExtremaDeep | src/slablist_add.c:638-668 | In a deeper one, those of the first and the last subslab. |
| SlabList.List.LinkSlabAfter | src/slablist_cons.c:233-269 | A new slab stands right behind a given one: links both ways, the end pointer and the slab count are right, and no element moves. |
| SlabList.List.LinkSlabBefore | src/slablist_cons.c:233-269 | The same in front of a given slab, with the head pointer. |
| SlabList.List.UnlinkSlab | src/slablist_cons.c:317-340 | The slab is out of the chain, all other links, head, end and count are right. |
| SlabFind.SlabBinSrch | src/slablist_find.c:593-651 | The binary search delivers the lower bound on a strictly sorted slab and, on a list used for sorting, the place behind all duplicates. |
| SlabFind.SlabLinSrch | src/slablist_find.c:653-667 | The linear search delivers the very same index: fast form and simple form agree. |
| SlabFind.SlabGetLastElem | src/slablist_find.c:580-588 | Skips a run of duplicates up to its end. |
| SlabFind.FindLinearScan | src/slablist_find.c:992-1046 | Stops at the first slab whose maximum is not below the key, or the last slab, and tells whether the key is in, under or over its range. |
| SlabAdd.Addsn | src/slablist_add.c:432-453 | The maximum of a full slab goes to the front of the next one and the element takes its place: the whole chain is as the specification SpillNext says. |
| SlabAdd.Addsp | src/slablist_add.c:528-559 | The minimum of a full slab goes to the end of the previous one and the element takes its place. |
| SlabAdd.InRangeCases | src/slablist_add.c:849-980 | What the first three guards of gen_add_ira and the room in the slab choose between, and which slabs each choice touches. |
| SlabAdd.GenAddIra | src/slablist_add.c:849-980 | All branches for an element in range (place, spill on, spill back, new slab) leave the chain the specification says, with exact extrema and links; the fourth branch, a new slab linked in front, is out of reach. |
| SlabAdd.GenAddUra | src/slablist_add.c:1070-1112 | The same for an element below the range of the slab that was found. |
| SlabAdd.GenAddOra | src/slablist_add.c:1178-1217 | The same for an element above it. |
| SlabApi.SlabGenAdd | src/slablist_add.c:1278-1301 | On the slab and status a search delivers: the chain becomes GenAdd of the old one, and the kind of change and the new slab, if any, are reported for the ripple. |
| AddModel.SpillNextFlat | src/slablist_add.c:432-453 | Spilling into the next block inserts exactly one element into the concatenation and moves nothing else. |
| AddModel.AddInRangeFlat | src/slablist_add.c:849-980 | Every branch of gen_add_ira inserts the element at its sorted place in the concatenation, or changes nothing when it is there. |
| AddModel.AddUnderFlat | src/slablist_add.c:1070-1112 | Every branch of gen_add_ura inserts at the front of the slab that was found, as seen in the concatenation. |
| AddModel.AddOverFlat | src/slablist_add.c:1178-1217 | Every branch of gen_add_ora inserts behind the last element of the slab that was found. |
| AddModel.GenAddSizes | src/slablist_add.c:849-1301 | No slab is left empty or overfull, and two neighbours together still hold more than one slab can. |
| AddModel.GenAddCorrect | src/slablist_add.c:1278-1301 | Finding and adding is sorted insertion into the concatenated list; a duplicate changes nothing. |
| AddModel.GenAddSpreads | src/slablist_add.c:850-1301 | Which slabs an addition touches: the element goes to its sorted place in the slab the scan stopped at; one entry too many goes to a neighbour with room, the next one first unless the element is below the slab, or to a new slab on that side. All other slabs stay. |
| RemModel.ShuffleGuardsCoincide | src/slablist_rem.c:690-783 | The three guards of the shuffle that try both neighbours are equivalent, so its last two branches never run. |
| RemModel.MoveNextFlat | src/slablist_rem.c:478-572 | Moving elements on to the next slab keeps the concatenation and the capacity of the receiver. |
| RemModel.MovePrevFlat | src/slablist_rem.c:579-668 | The same for moves back to the previous slab. |
| RemModel.GenericRemConserves | src/slablist_rem.c:690-783 | The shuffle loses, duplicates and reorders nothing, overfills no slab, and unlinks at most one slab, only when it is empty. |
| RemModel.GenericRemPacks | src/slablist_rem.c:690-783 | After a removal that leaves one slab short, every branch of the shuffle restores the bound on neighbours and leaves no slab empty. |
| RemModel.GenericRemPlaces | src/slablist_rem.c:721-762 | Which slabs the shuffle touches: the next one is tried first and takes the whole slab while all before it stay as they were; then the one before; then both share it, and the next one is filled. |
| SlabRem.SlabGenericRem | src/slablist_rem.c:690-783 | The shuffle on the linked slabs is the specification GenericRem; at most one slab is unlinked and handed back. |
| RemModel.ReapStepSizes | src/slablist_rem.c:1071-1116 | A round of the reap loop leaves no slab empty or overfull. |
| RemModel.ReapCorrect | src/slablist_rem.c:1071-1116 | A whole reap keeps the element sequence and the bound on neighbours and leaves no empty slab. |
| RemModel.ReapCompactsIff | src/slablist_rem.c:1071-1116 | The comment that only the last slab stays partly empty holds exactly when every slab, in turn, carries over to one more slab or fills one exactly; otherwise the loop steps past a gap. |
| RemModel.ReapReaps | src/slablist_rem.c:1071-1116 | What any reap of packed slabs leaves: the same elements, packed, a full head slab if there is another one, and compaction exactly under that condition. |
| RemModel.ReapLeavesGap | src/slablist_rem.c:1071-1116 | For every capacity above 2 a packed list for which the comment is wrong: the reap leaves a slab of two elements between full ones. |
| ReapGap.GapReached | src/slablist_rem.c:1071-1116 | A run of additions and removals from the empty list leads to such a list. |
| SlabRem.SlablistReap | src/slablist_rem.c:1071-1116 | The loop over the linked slabs ends although the slab count shrinks inside its own test, never follows a null link, and computes Reap. |
| SlabRem.RemoveAt | src/slablist_rem.c:1490-1595 | Deleting one index, the shuffle, and the reap if one is due: the slabs are those of the shuffle, or what a reap leaves of them, with exact extrema. |
| ListModel.SlabCountBound | src/slablist_rem.c:1507-1509 | A list of n elements has at most 1 + 2 * (n / (SELEM_MAX + 1)) slabs. |
| ListModel.HeadHoldsAll | src/slablist_cons.c:627-651 | When a slab list has shrunk to SMELEM_MAX elements its head slab holds all of them, so the conversion that copies only the head loses nothing. |
| ListModel.ShrunkLossless | src/slablist_cons.c:627-651 | Converting back to the small list keeps the contents, and a list that stays in slabs has more than SMELEM_MAX elements. |
| ListModel.AddSortedCorrect | src/slablist_add.c:1333-1457 | slablist_add on a sorted list: sorted insertion and SL_SUCCESS, or SL_EDUP and the same contents; all invariants kept in both representations. |
| ListModel.AddSortedSlabs | src/slablist_add.c:1333-1457 | Which representation an addition leaves, and which slabs: without a reap those of slab_gen_add, with one what a reap leaves of these. |
| ListModel.RemSlotIsLive | src/slablist_rem.c:1548-1553 | The slot that is compared with the key holds an element if and only if the key is not above the maximum of the list. |
| ListModel.RemSortedCorrect | src/slablist_rem.c:1490-1595 | slablist_rem on a sorted list deletes exactly the key, or reports its absence and changes nothing. |
| ListModel.RemSortedSlabs | src/slablist_rem.c:1490-1595 | Which representation a removal by key leaves, and which slabs: without a reap those of the shuffle, with one what a reap leaves of these; an absent key leaves the slabs alone. |
| ListModel.ReapListCorrect | src/slablist_rem.c:1071-1116 | slablist_reap on either representation: a small list stays, slabs are reaped, the contents are kept. |
| ListModel.FindSortedCorrect | src/slablist_find.c:1241-1298 | slablist_find succeeds if and only if the key is an element. |
| ListModel.RunRefinesSet | src/slablist_add.c:1333-1457 | Over every run of additions, removals and reaps, across both representations, the list is the mathematical set: sorted, without duplicates, counted by sl_elems, densely packed. |
| SmallList.LinkSmlNode | src/slablist_cons.c:176-195 | A node goes in behind a given node or at the head; the chain holds the element at that position. |
| SmallList.UnlinkSmlNode | src/slablist_cons.c:200-227 | The node behind a given one, or the head, goes; the rest of the chain stays. |
| SmallList.SmallListAdd | src/slablist_add.c:54-174 | On the singly linked list: sorted insertion or SL_EDUP, appending on an ordered list. |
| SmallList.SmallListRemSorted | src/slablist_rem.c:50-153 | Deletes the key from the singly linked list, or SL_ENFOUND or SL_EMPTY with nothing changed. |
| SmallList.SmallListRemAt | src/slablist_rem.c:50-153 | Deletes the element at a position of an ordered small list, wrapping around on circular lists, or reports that there is none. |
| SmallList.SlabToSmallList | src/slablist_cons.c:627-651 | The nodes come to hold the elements of the head slab, in order. |
| SmallList.SmallListToSlab | src/slablist_cons.c:653-684 | One new slab comes to hold the elements of all nodes, in order, with exact extrema. |
| SlabApi.AddToSorted | src/slablist_add.c:1333-1457 | The linked structure refines AddSorted: new state and answer are those of the specification; after a reap the head slab is full if there is another one. |
| SlabApi.RemFromSorted | src/slablist_rem.c:1490-1595 | The linked structure refines RemSorted; after a reap the head slab is full if there is another one. |
| SlabApi.SlablistFind | src/slablist_find.c:1241-1298 | On a list without sublayers the linked structure answers as FindSorted, and hands out the element. |
| OrderedModel.AppendCorrect | src/slablist_add.c:1416-1441 | Adding to an ordered list appends, across the change of representation, and keeps every invariant. |
| OrderedModel.AppendSlabs | src/slablist_add.c:1416-1443 | Which representation and which slabs an appending leaves, with and without a reap. |
| OrderedModel.LocateCorrect | src/slablist_find.c:92-139 | Slab and offset found for a position are where that element of the concatenation lies. |
| OrderedModel.WalkFinds | src/slablist_find.c:121-138 | The walk along the slabs stops in one exactly for positions below the element count. |
| OrderedModel.PosOkExact | src/slablist_find.c:92-139 | A position can be looked up in slabs if and only if it is not answered with a null pointer and the walk stops in a slab; PosOk says this of count, position and circularity. |
| OrderedModel.RemAtDefinedExact | src/slablist_rem.c:1490-1569 | In either representation a removal by position is defined if and only if it is rejected with an error or finds its element. |
| OrderedModel.PosFails | src/slablist_rem.c:1555-1572 | The positions that fail on a list: the element count itself, and the next one on slabs that are not circular, which a small list rejects. |
| OrderedModel.GetCorrect | src/slablist_find.c:274-290 | slablist_get returns the element at the position. |
| OrderedModel.RemAtCorrect | src/slablist_rem.c:1555-1569 | Removal by position deletes exactly the element at that position, on circular lists the one at what is left of it after some times around; otherwise the answer is the right error and nothing changes. |
| OrderedModel.RemAtSlabs | src/slablist_rem.c:1555-1584 | Which representation and which slabs a removal by position leaves, with and without a reap. |
| OrderedModel.ActPosAround | src/slablist_find.c:107-117 | A position below the count is itself; a larger one is what is left of it after some times around. |
| OrderedModel.AroundOnce | src/slablist_find.c:107-117 | That determines the index. |
| OrderedModel.ReverseCorrect | src/slablist_add.c:1526-1565 | Reversing either representation reverses the sequence and keeps the invariants. |
| OrderedModel.ReverseTwice | src/slablist_add.c:1526-1565 | Reversing twice gives back the very same slabs. |
| OrderedModel.RunRefinesSeq | src/slablist_add.c:1416-1441 | Over every run of additions, removals by position, reversals and reaps the list is the mathematical sequence. |
| OrderedApi.AddToOrdered | src/slablist_add.c:1416-1441 | The linked structure refines Append; after a reap the head slab is full if there is another one. |
| OrderedApi.SlabGetElemPos | src/slablist_find.c:92-139 | Walking from the head along the slabs stops in the slab and at the offset of the position. |
| OrderedApi.SlablistGet | src/slablist_find.c:274-290 | Delivers the element at the position, in either representation, wrapping around on circular lists. |
| OrderedApi.RemFromOrdered | src/slablist_rem.c:1490-1595 | The linked structure refines RemAt; a position below the count is deleted; after a reap the head slab is full if there is another one. |
| OrderedApi.ReverseSlabs | src/slablist_add.c:1526-1565 | The in-place swap of links and elements computes ReverseBlocks. |
| OrderedApi.ReverseSmall | src/slablist_add.c:1526-1565 | The in-place reversal of the node links reverses the sequence of a small list that is not empty. |
| OrderedApi.SlablistReverse | src/slablist_add.c:1526-1565 | Both of them as one operation that refines Reverse. |
| FoldModel.RangeChunksCorrect | src/slablist_cons.c:959-1047 | The pieces a range fold passes on concatenate to exactly the elements in [min, max], whether the bounds fall in one slab, in several or in a gap. |
| FoldModel.RangeFoldCorrect | src/slablist_cons.c:1049-1058 | With a callback that folds its piece in order, a range fold is the fold over the filtered sequence, in both representations. |
| FoldModel.InRangeHolds | src/slablist_cons.c:1030-1044 | The elements in the range are those of the sequence that are neither below min nor above max, in order. |
| FoldModel.RangeChunksPieces | src/slablist_cons.c:977-1046 | The callback is given what each slab has in the range, slab after slab, and never an empty piece. |
| FoldModel.PiecesAt | src/slablist_cons.c:977-1046 | Each slab gives one piece, the stretch of it that is in the range, or none; the pieces of the slabs before it come before, those of the slabs after it behind. |
| FoldModel.StateChunksPieces | src/slablist_cons.c:856-895 | The same in either representation, where a small list counts as one slab. |
| FoldModel.FoldNotes | src/slablist_cons.c:1027-1044 | The callback is called once for each piece, from the first to the last: one that notes its pieces notes exactly these. |
| SlabFold.FoldRangeSml | src/slablist_cons.c:856-895 | The fold over a small list, by way of the copy, passes on just the elements in range. |
| SlabFold.FoldInOne | src/slablist_cons.c:959-1047 | The case in which both bounds lead to the same slab. |
| SlabFold.FoldAcross | src/slablist_cons.c:959-1047 | The case of different slabs: the tail of the first, all slabs in between, the front of the last. |
| SlabFold.FoldBetween | src/slablist_cons.c:977-1046 | Once the slabs of the bounds are known the fold is that of the specification, whether they are one slab, neighbours or far apart. |
| SlabFold.SlablistFoldrRange | src/slablist_cons.c:959-1058 | slablist_foldr_range on a list without sublayers computes the fold of the specification. |
| IndexModel.SubAddFlat | src/slablist_add.c:982-1266 | However an index layer makes room, its concatenated groups gain the new pointer at its place and nothing else moves. |
| IndexModel.SubAddSizes | src/slablist_add.c:982-1266 | No subslab is left empty or overfull, and at most one subslab is added. |
| IndexModel.SubAddSpreads | src/slablist_add.c:982-1266 | Which subslabs it touches, by the same rule as for slabs (AddModel.GenAddSpreads). |
| IndexStale.RightStatus | src/slablist_add.c:1303-1326 | With the status that fits the place, subslab_gen_add puts the pointer there whatever spills. |
| IndexStale.StatusInRange | src/slablist_add.c:982-1057 | With the status for the middle it does so if and only if it does not spill the last entry of a full subslab forward behind which the pointer belongs. |
| IndexStale.StoredStatus | src/slablist_add.c:777-784 | The status that ripple_common computes from extrema of before is the right one unless the new subslab has taken its range from the last entry. |
| IndexStale.StaleAddExact | src/slablist_add.c:746-792 | Both together: when the loop of ripple_common puts the pointer to a new subslab in its place, as a condition on the room in three subslabs and the place of the one that spilled. |
| IndexStale.SpillMisplaces | src/slablist_add.c:475-522 | An input on which it does not: the new entry comes before the one it was split from. |
| LayerLadder.PathDown | src/slablist_add.c:459-468 | From any subslab the pointers below lead through its holder in each layer to the base. |
| LayerLadder.RippleIncUsrElems | src/slablist_add.c:459-468 | Counts one more element in every subslab on the way down, and in no other. |
| LayerLadder.CountDown | src/slablist_add.c:459-468 | In any number of layers that keeps every count the sum of the counts above it. |
| LayerLadder.MoveUsrElems | src/slablist_add.c:475-636 | The loop that moves a count from one way down to another ends where the two meet. |
| LayerLadder.MovedCounts | src/slablist_add.c:475-636 | Then every count in every layer is again the sum of the counts above it. |
| LayerAdd.SubslabBinSrchTop | src/slablist_find.c:761-837 | The binary search among the slabs of a subslab delivers how many of them end below the key. |
| LayerAdd.SubAddsn | src/slablist_add.c:475-522 | Spilling a slab pointer into the next subslab: groups as specified, back pointers, extrema and user-element counts exact again, the moved count carried down both ways. |
| LayerAdd.SubAddsp | src/slablist_add.c:565-636 | The same into the previous subslab. |
| LayerGen.SubGenAddIra | src/slablist_add.c:982-1057 | The first sublayer takes in a slab that falls in the range of a subslab, through every spill and new-subslab branch; the counts of all deeper layers follow, or a new subslab has what it counts from its neighbour. |
| LayerGen.SubGenAddUra | src/slablist_add.c:1114-1165 | The same for a slab below the range. |
| LayerGen.SubGenAddOra | src/slablist_add.c:1219-1266 | The same for a slab above it. |
| LayerGen.SubslabGenAdd | src/slablist_add.c:1303-1326 | The groups become SubAdd of the old ones; pointers, extrema and counts are right. |
| LayerRipple.RippleUpdateExtrema | src/slablist_add.c:670-683 | In any number of layers, when all extrema are exact but those next to the way down from a subslab, all are exact afterwards. |
| LayerRipple.UsrGrown | src/slablist_add.c:459-468 | Counting one more in the holder of the slab that has grown makes every count of the first sublayer right. |
| LayerDown.GenAddTop | src/slablist_add.c:777-784 | After a slab has gone into the first sublayer, all that is stale in the deeper ones is next to the way down from the subslab it was meant for. |
| LayerDown.SubslabBinSrch | src/slablist_find.c:672-735 | The binary search among the subslabs a subslab holds. |
| LayerDown.SubslabGenAddSub | src/slablist_add.c:982-1326 | A subslab with room takes in the pointer to a new subslab at its place, whatever the status. |
| LayerDown.AddBelow | src/slablist_add.c:777-784 | The new subslab is among the groups of the second sublayer and points at its holder; what is stale stays next to the way down. |
| LayerDown.CountsWith | src/slablist_add.c:475-636 | With the new subslab in its group all counts of all layers are sums again. |
| LayerDown.CarryBelow | src/slablist_add.c:771-785 | The loop that carries a new subslab down, for lists with one sublayer and with more. |
| LayerApi.RippleInPlace | src/slablist_add.c:687-740 | After an element went into a known slab, the ripple that belongs to the way of adding makes the indexes of all layers right. |
| LayerApi.RippleCommon | src/slablist_add.c:746-792 | After a new slab came in, the first sublayer holds it at its place and the indexes of all layers are right. |
| LayerApi.AddWithIndex | src/slablist_add.c:746-1301 | With any number of sublayers insertion keeps the whole index: in every layer groups concatenate to the chain above, entries point at their holders, extrema and counts are exact; the chain of slabs is as without an index. |
| LayerTower.LayerOrdered | src/slablist_find.c:672-837 | In any number of layers, the subslabs of each have disjoint ascending ranges, as the binary searches need. |
| LayerTower.GroupStop | src/slablist_find.c:866-938 | Scanning the maxima of groups, and then of the group that was found, ends where a scan of everything ends. |
| LayerFind.FindSubslabInSubslab | src/slablist_find.c:866-901 | One step up between deeper layers finds the subslab a scan would, and its status. |
| LayerFind.FindSlabInSubslab | src/slablist_find.c:903-938 | The last step up finds the slab a scan of the group would. |
| LayerFind.SubFindLinearScan | src/slablist_find.c:941-990 | The scan of the base layer. |
| LayerFind.FindBubbleUp | src/slablist_find.c:1054-1119 | For any number of sublayers and every key, the bubble-up search delivers the slab and the in, under or over status of the linear scan. |
| LayerAttach.FillFromSlabs | src/slablist_cons.c:594-613 | The loop gathers a whole chain of slabs in one subslab: pointers, back pointers, extrema and count. |
| LayerAttach.FillFromSubslabs | src/slablist_cons.c:576-593 | The same over a chain of subslabs. |
| LayerAttach.CountSublayer | src/slablist_cons.c:561-567 | Every superlayer counts one sublayer more and knows the new base layer. |
| LayerAttach.AttachToTop | src/slablist_cons.c:531-613 | Attaching the first sublayer establishes the index and the bookkeeping of both handles, and leaves the top layer alone. |
| LayerAttach.AttachToBase | src/slablist_cons.c:531-613 | Attaching below a base layer of any depth establishes the new index layer and keeps every layer above. |
| LayerRuns.AddFlat | src/slablist_add.c:1333-1457 | Finding by scan and adding on a list without sublayers. |
| LayerRuns.AddIndexed | src/slablist_add.c:1333-1457 | With any number of sublayers, finding by the index and adding is GenAdd on the chain and keeps all layers, as long as no full subslab of the first sublayer is held by a full one. |
| LayerRuns.AddAndAttachFirst | src/slablist_add.c:1333-1457 | slablist_add that may attach the first sublayer: set insertion on the contents, every index invariant after it, and a sublayer exactly if there are then as many slabs as required. |
| LayerRuns.AddAndAttachNext | src/slablist_add.c:1333-1457 | The same on a list with any number of sublayers: one more exactly if the base then has as many subslabs as required; the next addition can follow. |
| LayerQuery.FindBelow | src/slablist_find.c:1241-1298 | slablist_find with any number of sublayers succeeds exactly on the elements. |
| LayerQuery.FoldrRangeBelow | src/slablist_cons.c:959-1058 | slablist_foldr_range with any number of sublayers passes on the same pieces as without. |
| Trees.SearchDepthBound | drv/avl.c:240-254 | A search passes no more nodes than the tree is high, and fewer when it finds the item. |
| TreeStack.Descend | drv/rb.c:244-258 | The search loop ends at the item or at the empty place where it belongs, and the two stacks hold exactly the way down, within their bounds. |
| TreeSplice.Unlink | drv/rb.c:260-305 | Cutting a node out, in all three ways: the tree without it, the path to the gap on the stacks, and the tag that has left its place. |
| TreeCut.SplicedItems | drv/rb.c:260-305 | Cutting out drops the key of the node from the items and nothing else. |
| RbModel.RecolorStep | drv/rb.c:124-134 | With a red uncle, recolouring keeps all rules below and moves a possible red-red edge two levels up. |
| RbModel.RotateStep | drv/rb.c:135-158 | With a black uncle, one or two rotations restore all rules and keep the items. |
| RbModel.CutStep | drv/rb.c:260-307 | Cutting out a red node breaks no rule; cutting out a black one leaves the place exactly one black node short. |
| RbModel.RedSiblingStep | drv/rb.c:324-339 | Rotating a red sibling up keeps the rules, the items and the shortage, with a black sibling now. |
| RbModel.MoveUpStep | drv/rb.c:341-345 | Painting the sibling red moves the shortage one level up. |
| RbModel.InnerStep | drv/rb.c:348-357 | Rotating the red inner child of the sibling up keeps the sibling subtree in order and gives it a red outer child. |
| RbModel.SiblingStep | drv/rb.c:359-366 | The last rotation makes up for the missing black node. |
| RbModel.Low | drv/rb.c:232-428 | A red-black tree of fewer than 2^23 items has height 46 at most. |
| RbProbe.Repair | drv/rb.c:124-194 | The loop over the stacks ends with all rules restored but the colour of the root, with the same items and nodes. |
| RbProbe.Probe | drv/rb.c:88-199 | Insertion: the items gain exactly the new one in order, or nothing changes; black root, no red-red edge, equal black heights; no stack entry past 48 is used for fewer than 2^23 items. |
| RbDelete.Compensate | drv/rb.c:309-420 | The loop that makes up for a missing black node ends with all rules restored. |
| RbDelete.SplicedRules | drv/rb.c:260-307 | Which shortage cutting out leaves, by the colour of the node that has left its place. |
| RbDelete.Delete | drv/rb.c:232-428 | Deletion: exactly the item and its node go, or nothing changes; all red-black rules and the search order hold; stacks within bounds for fewer than 2^23 items. |
| AvlModel.GrowUp | drv/avl.c:128-132 | Growth passes through evenly balanced nodes, leaves them leaning, and arrives one higher. |
| AvlModel.SingleStep | drv/avl.c:134-187 | A single rotation balances a node that leans by two, with the new factors exact. |
| AvlModel.DoubleStep | drv/avl.c:134-187 | A double rotation does so when the child leans inwards, whatever way the inner grandchild leans. |
| AvlModel.ShrinkEven | drv/avl.c:299-387 | Shrinking below an even node stops there. |
| AvlModel.ShrinkToward | drv/avl.c:299-387 | Below a node that leaned towards it, shrinking goes on upwards. |
| AvlModel.ShrinkAway | drv/avl.c:299-387 | Below a node that leaned away, a rotation is due. |
| AvlModel.SplicedShrunk | drv/avl.c:256-294 | Cutting a node out leaves the gap exactly one lower than the factors above want. |
| AvlModel.SizeBound | drv/avl.h:53-56 | A balanced tree of height h has at least a Fibonacci number less one of items. |
| AvlModel.Low | drv/avl.h:53-56 | Fewer than 9,227,464 items mean height 32 at most, fewer than 5,702,886 height 31. |
| AvlModel.StackSuffices | drv/avl.c:230-254 | The 32 entries of the deletion stacks suffice for a present item below 9,227,464 items, and for any item below 5,702,886. |
| AvlModel.StackTooShort | drv/avl.c:230-254 | For every number of items from 5,702,886 on, a tree and an absent item whose search needs a 33rd entry. |
| AvlModel.StackBoundExact | drv/avl.c:230-254 | The stacks suffice for every search in every tree of n items if and only if n is below 5,702,886. |
| AvlHeap.RotateSingle | drv/avl.c:134-187 | The pointer writes of the single rotation produce the rotated tree. |
| AvlHeap.RotateDouble | drv/avl.c:134-187 | The pointer writes of the double rotation produce the rotated tree and its factors. |
| AvlProbe.Seek | drv/avl.c:102-114 | The search loop finds the item or its empty place, and caches the directions from the last leaning node on. |
| AvlProbe.BumpDown | drv/avl.c:128-132 | The walk along the cached directions updates exactly the factors between that node and the new one. |
| AvlProbe.RebalanceGrown | drv/avl.c:134-192 | The one rebalancing of an insertion restores balance and height and links the new top. |
| AvlProbe.LeafKeepsWays | drv/avl.c:188-193 | Without a rotation the way from the root to every other item is the same as before. |
| AvlProbe.RotationMoves | drv/avl.c:134-193 | With a rotation the way to the item of the node that went down is another. |
| AvlProbe.Probe | drv/avl.c:88-194 | Insertion keeps search order and exact factors, adds exactly the item; the generation stays exactly when the way to every item does. |
| AvlDelete.Turn | drv/avl.c:299-387 | The rotation of a deletion, which keeps the height exactly when the child was even. |
| AvlDelete.Retrace | drv/avl.c:298-387 | The loop back up restores all factors, and stops when a height is as before. |
| AvlDelete.Delete | drv/avl.c:227-392 | Deletion keeps search order and exact factors, removes exactly the item and its node, and raises the generation. |
| TreeWay.WayThrough | drv/avl.c:396-420 | In a sorted tree the search for an item in a subtree passes exactly the nodes on the path to it. |
| TreeWay.WaySwap | drv/avl.c:396-420 | The way to an item depends neither on balance factors nor on what hangs in places it does not lead to. |
| AvlTraverser.Traverser.Refresh | drv/avl.c:396-420 | The rebuilt stack is the way to the current node. |
| AvlTraverser.Traverser.Edge | drv/avl.c:436-485 | First delivers the least item and last the greatest, or the null item if there is none, with its stack. |
| AvlTraverser.Traverser.Find | drv/avl.c:492-522 | Finds exactly the present items and leaves the stack right. |
| AvlTraverser.Traverser.Insert | drv/avl.c:531-553 | Inserting through a traverser; the generation it notes is stale, so the stack is rebuilt at the next move. |
| AvlTraverser.Traverser.Copy | drv/avl.c:556-575 | A copy stands where the original stands, and is valid. |
| AvlTraverser.Traverser.Move | drv/avl.c:580-681 | Next leads to the least item above the current one, previous to the greatest below it, in the tree as it is now; past the end lies the null item, and from there next leads to the least item and previous to the greatest. |
| AvlTraverser.TurnedBack | drv/avl.c:580-681 | Previous undoes next, and the other way round. |
| AvlTraverser.TurnedLeads | drv/avl.c:580-681 | Places around the circle and the order of the items agree. |
| AvlTraverser.LeadsBack | drv/avl.c:580-681 | By the order of the items: an item follows another if and only if that one precedes it. |
| AvlRuns.Change | drv/avl.c:188-193 | One insertion, or deletion of another item, leaves every traverser valid. |
| AvlRuns.Edit | drv/avl.c:580-681 | So does any interleaving of insertions and deletions of other items: the next move finds the neighbour among the items there are then. |
| TagHeap.ThreadsAreNeighbours | drv/tavl.c:92-253 | In a tree that lies in memory the nodes stand in order, and every thread names exactly the predecessor or the successor. |
| TagTurn.RotateSingle | drv/tavl.c:156-172 | The single rotation turns a thread into a child link and back where the inner subtree is empty, and keeps all threads exact. |
| TagTurn.RotateDouble | drv/tavl.c:173-200 | The double rotation does the same for both subtrees of the inner grandchild. |
| TavlProbe.TableThreads | drv/tavl.c:92-253 | The threads of a whole table name the neighbours, and are null at the two ends. |
| TavlProbe.EdgeLeads | drv/tavl.c:286-319 | Where the threads of a subtree lead: to the nearest ancestors on either side, whose links run along the path. |
| TavlProbe.FindParent | drv/tavl.c:286-319 | find_parent ends and delivers the parent of any node, or the pseudo-root for the root. |
| TavlInsert.Seek | drv/tavl.c:108-128 | The search loop finds the item or the thread where it belongs, and caches directions within 32 entries. |
| TavlInsert.PlaceLeaf | drv/tavl.c:130-148 | The new node takes over its parent's thread and gets one back to the parent. |
| TavlInsert.RebalanceGrown | drv/tavl.c:156-250 | The one rebalancing of an insertion restores balance, threads and the link above. |
| TavlInsert.Probe | drv/tavl.c:92-253 | Insertion keeps search order, exact factors and exact threads, and adds exactly the item. |
| TavlSplice.Rethread | drv/tavl.c:357-360 | The last thread of a subtree is led to another node, and nothing else changes. |
| TavlSplice.CutLow | drv/tavl.c:353-369 | Cutting out a node without a right child, with the thread that led to it mended. |
| TavlSplice.SpliceChild | drv/tavl.c:373-388 | The right child takes the place; threads into it are mended. |
| TavlSplice.SpliceLeast | drv/tavl.c:389-428 | The least node of the right subtree takes the place; the threads at both its old and its new place are mended. |
| TavlDelete.Round | drv/tavl.c:433-576 | One round back up: the parent by find_parent, the factor, and a rotation where it is due. |
| TavlDelete.Delete | drv/tavl.c:323-580 | Deletion, in a tree of any height, keeps search order, exact factors and exact threads, and removes exactly the item and its node. |
| VineModel.RoundSlims | drv/bst.c:789-795 | A compression round halves the vine and raises the subtrees along it by one at most. |
| VineModel.FirstSlims | drv/bst.c:786 | The first compression takes up the nodes of the incomplete bottom level. |
| VineModel.ClearKeepsTop | drv/bst.c:776-783 | Clearing the lowest bit keeps the highest one until a power of two is left. |
| VineModel.LeastIsLeast | drv/bst.c:770-804 | No tree of n items is lower than floor(log2 n) + 1. |
| VineHeap.TreeToVine | drv/bst.c:726-747 | Terminates with the same items, and no node has a right child. |
| VineHeap.CompressSpine | drv/bst.c:751-766 | The pointer writes fold the given number of pairs of the vine. |
| VineHeap.HighestPower | drv/bst.c:776-783 | The loop finds the highest power of two in count + 1. |
| VineHeap.VineToTree | drv/bst.c:770-804 | The tree gets the least height its count allows, which is also the height the code computes. |
| VineHeap.Balance | drv/bst.c:809-817 | Balancing keeps the items and the nodes and yields height floor(log2 n) + 1. |
| VineModel.FirstFertile | drv/tbst.c:722-735 | After the first round the nodes that were folded have right children and those below them have none, which decides between the two kinds of transformation. |
| VineModel.RoundFertile | drv/tbst.c:741-747 | After any later round all nodes of the vine have right children. |
| ThreadVine.NextNode | drv/tbst.c:649-666 | The successor takes the whole vine so far as its left subtree, the thread to it takes the place of the right subtree, and the nodes in between wait for their left links. |
| ThreadVine.TreeToVine | drv/tbst.c:636-669 | Terminates with the same items and nodes, no right children, and every thread exact. |
| ThreadVine.FoldTree | drv/tbst.c:679-702 | Both kinds of transformation rotate two nodes of the vine and keep every thread exact. |
| ThreadVine.CompressSpine | drv/tbst.c:673-703 | The two loops together fold the given number of pairs, each pair with the kind of transformation that its lower node needs. |
| ThreadVine.VineToTree | drv/tbst.c:705-748 | The tree gets the least height its count allows, and its threads are exact; the numbers of transformations of both kinds are right in every round. |
| ThreadVine.Balance | drv/tbst.c:751-758 | Balancing a threaded tree keeps the items and the nodes, yields height floor(log2 n) + 1, and leaves every thread at the neighbour in order. |
| BtModel.WeaveAtTwo | drv/bt_code.c:401-599 | Where two neighbouring children and the key between them stand among the items. |
| BtModel.ShiftRight | drv/bt_code.c:535-545 | Case 3a from the left: key and child go over the parent, items and form are kept. |
| BtModel.ShiftLeft | drv/bt_code.c:546-557 | Case 3a from the right. |
| BtModel.MergeTwo | drv/bt_code.c:565-596 | Two minimal nodes and the key between them make one full node with the same items. |
| BtModel.SplitNode | drv/bt_code.c:271-310 | A full node falls into two minimal ones around its median. |
| BtHeap.MoveHalf | drv/bt_code.c:284-298 | The loops copy the upper half of keys and children to the new node. |
| BtMoves.SplitChild | drv/bt_code.c:271-310 | Splitting a child in place: parent and both halves lie in memory as the specification says. |
| BtMoves.BorrowLeft | drv/bt_code.c:535-545 | The memory moves of case 3a with the left sibling. |
| BtMoves.BorrowRight | drv/bt_code.c:546-557 | The memory moves of case 3a with the right sibling. |
| BtMoves.Merge | drv/bt_code.c:490-596 | The memory moves of cases 2c and 3b. |
| Powers.SetBitBelow | drv/bt_code.c:159-163 | Setting a bit below all set ones adds its value, so the index built bit by bit is a sum. |
| BtSearch.FindKIndexLinear | drv/bt_code.c:172-191 | The linear form finds the last key that is not larger, and how the key compares with it. |
| BtSearch.FindKIndex | drv/bt_code.c:141-170 | The bit by bit form delivers the same index and comparison, also among duplicates. |
| BtSearch.Leads | drv/bt_code.c:643-662 | The index leads to the key itself or to the only child that can hold it. |
| BtSearch.FindNodeKey | drv/bt_code.c:643-662 | bt_find delivers the key if and only if it is an item. |
| BtInsert.InsertNonFull | drv/bt_code.c:343-368 | Sorted insertion below a node that is not full, with every full child split on the way. |
| BtInsert.Insert | drv/bt_code.c:312-341 | bt_insert is sorted insertion into the items, duplicates included; form kept; the tree grows in height exactly when the root was full. |
| BtDelete.Refill | drv/bt_code.c:524-597 | Case 3: the child to go on to gets a key to spare, from the left sibling if that has one to spare, else from the right one, else by merging with the left one, or the right one of the first child; it keeps all it held and stays at its end of the node. |
| BtDelete.PredecessorUp | drv/bt_code.c:458-474 | Case 2a: the predecessor in the place of the key removes exactly the key. |
| BtDelete.SuccessorUp | drv/bt_code.c:475-489 | Case 2b: the successor does so. |
| BtDelete.DeleteKey | drv/bt_code.c:401-599 | The recursion removes exactly one item (the key, the least or the greatest), keeps the subtree's height and form, and takes at most one key from the top node. |
| BtDelete.Delete | drv/bt_code.c:370-391 | bt_delete of a present key removes exactly one occurrence and keeps the B-tree: sorted, key counts in bounds, all leaves at one depth. |

## Left out

What the model leaves out of the operations it has:

- LayerApi.AddWithIndex: the holder of the slab is not full, or the subslab below it has room. Without room a new subslab is not always put in its place; the exact condition is IndexStale.StaleAddExact.
- LayerRuns.AddIndexed: as LayerApi.AddWithIndex, for every subslab of the first sublayer.
- LayerAdd.SubAddsn: with a pointer to a slab; pointers to subslabs go where there is room (LayerDown.SubslabGenAddSub), and what spilling them does is stated on values (IndexStale.SubAddAs).
- LayerAdd.SubAddsp: the same.
- LayerGen.SubslabGenAdd: the same.
- LayerRuns.AddAndAttachFirst: as LayerRuns.AddAndAttachNext.
- LayerRuns.AddAndAttachNext: short of the reaping at the end of slablist_add_impl, which on a layered list runs through the layered removal.
- ListModel.RemSortedCorrect: excludes keys above the maximum of a slab list, for which the code reads a stale slot (see RemSlotIsLive).
- OrderedModel.RemAtCorrect: excludes the positions for which the code follows a null pointer: the element count, and on slabs that are not circular all above it (see OrderedModel.RemAtDefinedExact).
- OrderedApi.RemFromOrdered: excludes the same positions.
- OrderedApi.SlablistGet: excludes the positions that are not fit (see OrderedModel.PosOkExact).
- OrderedApi.SlabGetElemPos: excludes the same positions.
- SmallList.SmallListRemAt: excludes a position equal to the element count of a list that is not empty.
- SlabApi.RemFromSorted: as ListModel.RemSortedCorrect.
- OrderedApi.ReverseSmall: as OrderedApi.SlablistReverse.
- OrderedApi.SlablistReverse: excludes the empty list, on which the code would follow a stale end pointer; s_min and s_max of the reversed slabs are left as they were, as in the code.
- BtInsert.Insert: bt_insert leaves the process when memory runs out; this is not modelled.
- BtMoves.Merge: keys are integers, so that the key of the node and the equal one the caller passed cannot be told apart, and which of the two a node keeps is not visible.
- BtDelete.Delete: the key is present; the code gives no result for an absent one, and says so.
- AvlDelete.Delete: the search for the item fits the stacks, which is all of AvlModel.StackSuffices.
- VineHeap.Balance: trees of 2^32 items or more, which the original gives up after building them.
- AvlRuns.Edit: bounded by 5,702,886 items, so that every deletion fits the stacks.
- BtMoves.AddPair: the two shifting loops of btreesplitchild are written as one block copy each.
- SlabRem.SlabGenericRem: when a move empties a slab the code still assigns extrema from index -1 of it; the model drops these assignments, since the slab is unlinked at once.
- TavlProbe.FindParent: the pseudo-root stands for the address of the root link.

What the repository does besides:

- Layered removal, layered reaping and detaching of sublayers: the parent used for rippling is always that of the middle slab, even when a neighbour in another subslab was freed (src/slablist_rem.c:700), so there is no invariant to prove.
- rep != 0 insertion, slablist_sort, slablist_rem_range, slablist_xtract, slablist_map_range, slablist_foldl_range, slablist_cmp and slablist_subseq.
- The percentage test of try_reap is a free choice to reap or not.
- Bookmarks, slablist_next and slablist_prev, and lists used for sorting beyond the searches in one slab.
- The generation of rb.c is modelled, its traverser is not: it is that of avl.c.
- Red-black and AVL trees with threads on one side or both or with parent links (drv/trb.c, drv/rtrb.c, drv/rtavl.c, drv/prb.c, drv/pavl.c), but for drv/tavl.c.
- Of trees balanced by way of a vine, those with threads on one side or with parent links (drv/rtbst.c, drv/pbst.c), and the other operations of drv/bst.c and drv/tbst.c.
- The back pointers s_list and ss_list are parameters; the stale sl_end of sublayers and the stale sl_baselayer of a base are not constrained; the untyped head, end and array pointers are split into typed fields.
- The table of logarithms of drv/bt_code.c: the model takes the floor of the logarithm.
- Allocation failures, destroying and copying trees, tracing probes, benchmark drivers; counters are unbounded integers.
