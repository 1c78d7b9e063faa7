/** slablist_find and slablist_foldr_range on lists with sublayers: the slabs are found by way of these,
    and the answers are those of a list without. */
module LayerQuery {
  import opened Seqs
  import opened SlabModel
  import opened ListModel
  import opened FoldModel
  import opened SlabCore
  import opened SlabList
  import opened SlabApi
  import opened SlabFold
  import opened LayerTower
  import opened LayerFind
  import opened LayerRuns

  /** slablist_find on a sorted list with any number of sublayers. */
  method FindBelow(h: Handle, key: int, ghost hs: seq<Handle>) returns (ret: Ret, found: int)
    requires Sound(hs) && 1 < |hs| && h == hs[0]
    ensures ret == if key in Flatten(h.list.view) then SL_SUCCESS else SL_ENFOUND
    ensures ret == SL_SUCCESS ==> found == key
  {
    hide *;
    SoundParts(hs);
    var _, s, m := FindBubbleUp(h, key, hs);
    ret, found := LookInSlab(h.list, s, key, m);
  }

  /** slablist_foldr_range on a sorted list with any number of sublayers. */
  method FoldrRangeBelow<A>(h: Handle, f: (A, seq<int>) -> A, min: int, max: int, zero: A, ghost hs: seq<Handle>) returns (acc: A)
    requires Sound(hs) && 1 < |hs| && h == hs[0] && min <= max
    ensures acc == FoldChunks(f, zero, RangeChunks(h.list.view, min, max))
  {
    hide *;
    SoundParts(hs);
    var _, smin, a := FindBubbleUp(h, min, hs);
    var _, smax, b := FindBubbleUp(h, max, hs);
    acc := FoldBetween(h.list, smin, smax, f, min, max, zero, a, b);
  }
}
