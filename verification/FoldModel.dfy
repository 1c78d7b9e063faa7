/** Folding over a range of a sorted list: which pieces of which slabs the callback sees. */
module FoldModel {
  import opened Seqs
  import opened SlabModel
  import opened AddModel
  import opened ListModel

  /** The elements in [min, max], in order. */
  function InRange(s: seq<int>, min: int, max: int): seq<int> {
    if s == [] then []
    else (if Bnd(s[0], min, max) == FS_IN_RANGE then [s[0]] else []) + InRange(s[1..], min, max)
  }

  lemma {:induction false} InRangeConcat(a: seq<int>, b: seq<int>, min: int, max: int)
    ensures InRange(a + b, min, max) == InRange(a, min, max) + InRange(b, min, max)
  {
    hide Bnd;
    if a == [] {
      assert a + b == b;
    } else {
      var x := if Bnd(a[0], min, max) == FS_IN_RANGE then [a[0]] else [];
      assert (a + b)[1..] == a[1..] + b && (a + b)[0] == a[0];
      InRangeConcat(a[1..], b, min, max);
      assert InRange(a, min, max) == x + InRange(a[1..], min, max);
      assert InRange(a + b, min, max) == x + InRange(a[1..] + b, min, max);
    }
  }

  lemma {:induction false} InRangeNone(s: seq<int>, min: int, max: int)
    requires forall i :: 0 <= i < |s| ==> Bnd(s[i], min, max) != FS_IN_RANGE
    ensures InRange(s, min, max) == []
  {
    if s != [] {
      InRangeNone(s[1..], min, max);
    }
  }

  lemma {:induction false} InRangeAll(s: seq<int>, min: int, max: int)
    requires forall i :: 0 <= i < |s| ==> Bnd(s[i], min, max) == FS_IN_RANGE
    ensures InRange(s, min, max) == s
  {
    if s != [] {
      InRangeAll(s[1..], min, max);
    }
  }

  lemma {:induction false} InRangeHolds(s: seq<int>, min: int, max: int)
    ensures forall x :: x in InRange(s, min, max) <==> x in s && min <= x <= max
    ensures StrictlySorted(s) ==> StrictlySorted(InRange(s, min, max))
  {
    if s != [] {
      var t := InRange(s[1..], min, max);
      InRangeHolds(s[1..], min, max);
      assert s == [s[0]] + s[1..];
      if StrictlySorted(s) {
        assert forall y :: y in s[1..] ==> s[0] < y;
        assert forall i :: 0 <= i < |t| ==> t[i] in t;
      }
    }
  }

  /** A stretch [i, j) that holds just the elements in range is all of the range. */
  lemma {:induction false} InRangeSlice(s: seq<int>, min: int, max: int, i: nat, j: nat)
    requires i <= j <= |s|
    requires forall k :: 0 <= k < |s| ==> (Bnd(s[k], min, max) == FS_IN_RANGE <==> i <= k < j)
    ensures InRange(s, min, max) == s[i..j]
  {
    assert s == s[..i] + s[i..j] + s[j..];
    InRangeConcat(s[..i] + s[i..j], s[j..], min, max);
    InRangeConcat(s[..i], s[i..j], min, max);
    InRangeNone(s[..i], min, max);
    InRangeAll(s[i..j], min, max);
    InRangeNone(s[j..], min, max);
  }

  /** The callback applied to one piece after the other. */
  function FoldChunks<A>(f: (A, seq<int>) -> A, acc: A, chunks: Blocks): A
    decreases |chunks|
  {
    if chunks == [] then acc else FoldChunks(f, f(acc, chunks[0]), chunks[1..])
  }

  function FoldElems<A>(g: (A, int) -> A, acc: A, s: seq<int>): A
    decreases |s|
  {
    if s == [] then acc else FoldElems(g, g(acc, s[0]), s[1..])
  }

  lemma {:induction false} FoldElemsConcat<A>(g: (A, int) -> A, acc: A, a: seq<int>, b: seq<int>)
    ensures FoldElems(g, acc, a + b) == FoldElems(g, FoldElems(g, acc, a), b)
    decreases |a|
  {
    if a == [] {
      assert a + b == b;
    } else {
      assert (a + b)[1..] == a[1..] + b;
      FoldElemsConcat(g, g(acc, a[0]), a[1..], b);
    }
  }

  /** A callback that folds the elements of a piece from its start folds the pieces as one sequence. */
  lemma {:induction false} FoldChunksIsFold<A(!new)>(f: (A, seq<int>) -> A, g: (A, int) -> A, acc: A, chunks: Blocks)
    requires forall a: A, x: seq<int> :: f(a, x) == FoldElems(g, a, x)
    ensures FoldChunks(f, acc, chunks) == FoldElems(g, acc, Flatten(chunks))
    decreases |chunks|
  {
    if chunks != [] {
      FoldChunksIsFold(f, g, f(acc, chunks[0]), chunks[1..]);
      FoldElemsConcat(g, acc, chunks[0], Flatten(chunks[1..]));
    }
  }

  lemma FoldChunksSnoc<A>(f: (A, seq<int>) -> A, acc: A, chunks: Blocks, x: seq<int>)
    ensures FoldChunks(f, acc, chunks + [x]) == f(FoldChunks(f, acc, chunks), x)
    decreases |chunks|
  {
    if chunks == [] {
      assert chunks + [x] == [x];
    } else {
      assert (chunks + [x])[1..] == chunks[1..] + [x];
      FoldChunksSnoc(f, f(acc, chunks[0]), chunks[1..], x);
    }
  }

  /** A callback that notes its pieces notes them one by one, from the first to the last. */
  lemma {:induction false} FoldNotes(f: (Blocks, seq<int>) -> Blocks, acc: Blocks, chunks: Blocks)
    requires forall a: Blocks, x: seq<int> :: f(a, x) == a + [x]
    ensures FoldChunks(f, acc, chunks) == acc + chunks
    decreases |chunks|
  {
    if chunks != [] {
      FoldNotes(f, f(acc, chunks[0]), chunks[1..]);
      assert acc + [chunks[0]] + chunks[1..] == acc + chunks;
    }
  }

  /** What slablist_foldr_range_impl passes on when both bounds lead to the same slab x. */
  function ChunkInOne(x: seq<int>, min: int, max: int): Blocks
    requires x != []
  {
    var i0, j0 := LowerBound(x, min), LowerBound(x, max);
    var i := if i0 == |x| then i0 - 1 else i0;
    var j := if j0 == |x| then j0 - 1 else j0;
    if Bnd(x[i], min, max) != FS_IN_RANGE then []
    else
      var j' := if Bnd(x[j], min, max) != FS_IN_RANGE && j > 0 then j - 1 else j;
      if i <= j' + 1 then [x[i..j' + 1]] else []
  }

  /** What it passes on of the last slab, x, when the bounds lead to different slabs. */
  function ChunkOfLast(x: seq<int>, min: int, max: int): Blocks
    requires x != []
  {
    var i0 := LowerBound(x, max);
    var i := if i0 == |x| then i0 - 1 else i0;
    if Bnd(x[i], min, max) == FS_IN_RANGE then [x[..i + 1]]
    else if i > 0 then [x[..i]] else []
  }

  /** All the pieces slablist_foldr_range_impl passes to the callback. */
  function RangeChunks(v: Blocks, min: int, max: int): Blocks
    requires v != [] && SizesOk(v) && min <= max
  {
    var a, b := ScanIndex(v, min), ScanIndex(v, max);
    if a == b then ChunkInOne(v[a], min, max)
    else if b < a then []
    else [v[a][LowerBound(v[a], min)..]] + v[a + 1..b] + ChunkOfLast(v[b], min, max)
  }

  /** A stretch of a slab as a piece, unless there is nothing in it. */
  function Piece(x: seq<int>): Blocks {
    if x == [] then [] else [x]
  }

  /** What each slab has in the range, slab after slab. */
  function Pieces(v: Blocks, min: int, max: int): Blocks {
    if v == [] then [] else Piece(InRange(v[0], min, max)) + Pieces(v[1..], min, max)
  }

  lemma {:induction false} PiecesConcat(a: Blocks, b: Blocks, min: int, max: int)
    ensures Pieces(a + b, min, max) == Pieces(a, min, max) + Pieces(b, min, max)
  {
    if a == [] {
      assert a + b == b;
    } else {
      assert (a + b)[1..] == a[1..] + b;
      PiecesConcat(a[1..], b, min, max);
    }
  }

  lemma PiecesOne(x: seq<int>, min: int, max: int)
    ensures Pieces([x], min, max) == Piece(InRange(x, min, max))
  {
    assert Pieces([x], min, max) == Piece(InRange(x, min, max)) + Pieces([], min, max);
  }

  lemma {:induction false} PiecesFlat(v: Blocks, min: int, max: int)
    ensures Flatten(Pieces(v, min, max)) == InRange(Flatten(v), min, max)
  {
    if v != [] {
      var x := InRange(v[0], min, max);
      PiecesFlat(v[1..], min, max);
      InRangeConcat(v[0], Flatten(v[1..]), min, max);
      FlattenConcat(Piece(x), Pieces(v[1..], min, max));
      FlattenOne(x);
    }
  }

  lemma {:induction false} PiecesNone(v: Blocks, min: int, max: int)
    requires forall i :: 0 <= i < |Flatten(v)| ==> Bnd(Flatten(v)[i], min, max) != FS_IN_RANGE
    ensures Pieces(v, min, max) == []
  {
    if v != [] {
      var f := Flatten(v);
      assert forall i :: 0 <= i < |v[0]| ==> f[i] == v[0][i];
      assert forall i :: 0 <= i < |Flatten(v[1..])| ==> f[|v[0]| + i] == Flatten(v[1..])[i];
      InRangeNone(v[0], min, max);
      PiecesNone(v[1..], min, max);
    }
  }

  lemma {:induction false} PiecesAll(v: Blocks, min: int, max: int)
    requires forall i :: 0 <= i < |Flatten(v)| ==> Bnd(Flatten(v)[i], min, max) == FS_IN_RANGE
    requires forall k :: 0 <= k < |v| ==> v[k] != []
    ensures Pieces(v, min, max) == v
  {
    if v != [] {
      var f := Flatten(v);
      assert forall i :: 0 <= i < |v[0]| ==> f[i] == v[0][i];
      assert forall i :: 0 <= i < |Flatten(v[1..])| ==> f[|v[0]| + i] == Flatten(v[1..])[i];
      InRangeAll(v[0], min, max);
      PiecesAll(v[1..], min, max);
    }
  }

  lemma {:induction false} ChunkInOneIs(x: seq<int>, min: int, max: int)
    requires StrictlySorted(x) && x != [] && min <= max
    ensures ChunkInOne(x, min, max) == Piece(InRange(x, min, max))
  {
    var i0, j0 := LowerBound(x, min), LowerBound(x, max);
    if i0 == |x| || x[i0] > max {
      InRangeNone(x, min, max);
    } else {
      var j := if j0 == |x| then j0 else if x[j0] == max then j0 + 1 else j0;
      InRangeSlice(x, min, max, i0, j);
      assert ChunkInOne(x, min, max) == [x[i0..j]];
    }
  }

  lemma {:induction false} ChunkOfLastIs(x: seq<int>, min: int, max: int)
    requires StrictlySorted(x) && x != [] && min <= x[0]
    ensures ChunkOfLast(x, min, max) == Piece(InRange(x, min, max))
  {
    var i := LowerBound(x, max);
    var j := if i == |x| then i else if x[i] == max then i + 1 else i;
    InRangeSlice(x, min, max, 0, j);
    if j == 0 {
      assert ChunkOfLast(x, min, max) == [];
    } else {
      assert ChunkOfLast(x, min, max) == [x[..j]];
    }
  }

  lemma {:induction false} ChunkOfFirstIs(x: seq<int>, min: int, max: int)
    requires StrictlySorted(x) && x != [] && min <= Last(x) && AllBelow(x, max)
    ensures [x[LowerBound(x, min)..]] == Piece(InRange(x, min, max))
  {
    InRangeSlice(x, min, max, LowerBound(x, min), |x|);
    assert x[LowerBound(x, min)..|x|] == x[LowerBound(x, min)..];
  }

  lemma {:induction false} ScanMonotone(v: Blocks, min: int, max: int)
    requires v != [] && SizesOk(v) && min <= max
    ensures ScanIndex(v, min) <= ScanIndex(v, max)
  {
  }

  lemma {:induction false} FlattenBetween(v: Blocks, a: nat, b: nat)
    requires a < b < |v|
    ensures Flatten(v[a + 1..]) == Flatten(v[a + 1..b]) + v[b] + Flatten(v[b + 1..])
    ensures Flatten(v[..b]) == Flatten(v[..a]) + v[a] + Flatten(v[a + 1..b])
  {
    hide Flatten;
    var t := v[a + 1..];
    FlattenAt(t, b - (a + 1));
    assert t[..b - (a + 1)] == v[a + 1..b] && t[b - (a + 1) + 1..] == v[b + 1..];
    FlattenAt(v[..b], a);
    assert v[..b][..a] == v[..a] && v[..b][a + 1..] == v[a + 1..b];
  }

  lemma AboveParts(a: seq<int>, b: seq<int>, c: seq<int>, e: int)
    requires AllAbove(a + b + c, e)
    ensures AllAbove(a, e) && AllAbove(b, e) && AllAbove(c, e)
  {
    var s := a + b + c;
    assert forall i :: 0 <= i < |a| ==> a[i] == s[i];
    assert forall i :: 0 <= i < |b| ==> b[i] == s[|a| + i];
    assert forall i :: 0 <= i < |c| ==> c[i] == s[|a| + |b| + i];
  }

  lemma BelowParts(a: seq<int>, b: seq<int>, c: seq<int>, e: int)
    requires AllBelow(a + b + c, e)
    ensures AllBelow(a, e) && AllBelow(b, e) && AllBelow(c, e)
  {
    var s := a + b + c;
    assert forall i :: 0 <= i < |a| ==> a[i] == s[i];
    assert forall i :: 0 <= i < |b| ==> b[i] == s[|a| + i];
    assert forall i :: 0 <= i < |c| ==> c[i] == s[|a| + |b| + i];
  }

  /** The slabs around the pieces have nothing to add. */
  lemma {:induction false} PiecesInside(a: Blocks, v: Blocks, b: Blocks, min: int, max: int)
    requires AllBelow(Flatten(a), min) && AllAbove(Flatten(b), max)
    ensures Pieces(a + v + b, min, max) == Pieces(v, min, max)
  {
    PiecesConcat(a + v, b, min, max);
    PiecesConcat(a, v, min, max);
    PiecesNone(a, min, max);
    PiecesNone(b, min, max);
  }

  lemma PiecesBetween(v: Blocks, min: int, max: int)
    requires AllAbove(Flatten(v), min) && AllBelow(Flatten(v), max) && SizesOk(v)
    ensures Pieces(v, min, max) == v
  {
    PiecesAll(v, min, max);
  }

  lemma HeadAbove(y: seq<int>, e: int)
    requires y != [] && AllAbove(y, e)
    ensures e < y[0]
  {
  }

  lemma {:induction false} PiecesOfThree(x: seq<int>, mid: Blocks, y: seq<int>, min: int, max: int)
    ensures Pieces([x] + mid + [y], min, max) == Piece(InRange(x, min, max)) + Pieces(mid, min, max) + Piece(InRange(y, min, max))
  {
    hide Pieces, InRange, Piece;
    PiecesConcat([x] + mid, [y], min, max);
    PiecesConcat([x], mid, min, max);
    PiecesOne(x, min, max);
    PiecesOne(y, min, max);
  }

  lemma SizesAt(v: Blocks, m: nat)
    requires SortedBlocks(v) && m < |v|
    ensures SizesOk(v) && v[m] != []
  {
  }

  lemma SlicesAre(v: Blocks, a: nat, b: nat)
    requires SizesOk(v) && a < b < |v|
    ensures v == v[..a] + ([v[a]] + v[a + 1..b] + [v[b]]) + v[b + 1..] && SizesOk(v[a + 1..b])
  {
  }

  /** Where the slabs from the first to the last one of the range lie. */
  lemma {:induction false} RangeBounds(v: Blocks, min: int, max: int)
    requires v != [] && SortedBlocks(v) && min <= max && ScanIndex(v, min) < ScanIndex(v, max)
    ensures var a, b := ScanIndex(v, min), ScanIndex(v, max); var mid := v[a + 1..b];
      && v == v[..a] + ([v[a]] + mid + [v[b]]) + v[b + 1..]
      && AllBelow(Flatten(v[..a]), min) && AllAbove(Flatten(v[b + 1..]), max)
      && StrictlySorted(v[a]) && StrictlySorted(v[b]) && min <= Last(v[a]) && AllBelow(v[a], max) && min <= v[b][0]
      && AllAbove(Flatten(mid), min) && AllBelow(Flatten(mid), max) && SizesOk(mid)
  {
    hide *;
    SizesAt(v, 0);
    var a, b := ScanIndex(v, min), ScanIndex(v, max);
    SizesAt(v, a);
    SizesAt(v, b);
    ScanSplits(v, min);
    ScanSplits(v, max);
    SlicesAre(v, a, b);
    FlattenBetween(v, a, b);
    AboveParts(Flatten(v[a + 1..b]), v[b], Flatten(v[b + 1..]), min);
    BelowParts(Flatten(v[..a]), v[a], Flatten(v[a + 1..b]), max);
    HeadAbove(v[b], min);
  }

  lemma {:induction false} PiecesAcross(v: Blocks, min: int, max: int)
    requires v != [] && SortedBlocks(v) && min <= max && ScanIndex(v, min) < ScanIndex(v, max)
    ensures RangeChunks(v, min, max) == Pieces(v, min, max)
  {
    hide *;
    SizesAt(v, 0);
    var a, b := ScanIndex(v, min), ScanIndex(v, max);
    var x, mid, y := v[a], v[a + 1..b], v[b];
    RangeBounds(v, min, max);
    SizesAt(v, a);
    SizesAt(v, b);
    PiecesInside(v[..a], [x] + mid + [y], v[b + 1..], min, max);
    PiecesOfThree(x, mid, y, min, max);
    PiecesBetween(mid, min, max);
    ChunkOfFirstIs(x, min, max);
    ChunkOfLastIs(y, min, max);
    AcrossIs(v, min, max);
  }

  lemma AcrossIs(v: Blocks, min: int, max: int)
    requires v != [] && SizesOk(v) && min <= max && ScanIndex(v, min) < ScanIndex(v, max)
    ensures var a, b := ScanIndex(v, min), ScanIndex(v, max);
      RangeChunks(v, min, max) == [v[a][LowerBound(v[a], min)..]] + v[a + 1..b] + ChunkOfLast(v[b], min, max)
  {
  }

  /** The callback is given what each slab has in the range, slab after slab, and no empty piece. */
  lemma {:induction false} RangeChunksPieces(v: Blocks, min: int, max: int)
    requires v != [] && SortedBlocks(v) && min <= max
    ensures RangeChunks(v, min, max) == Pieces(v, min, max)
  {
    hide Flatten, StrictlySorted, InRange, ChunkInOne, Pieces;
    ScanMonotone(v, min, max);
    if ScanIndex(v, min) == ScanIndex(v, max) {
      var m := ScanIndex(v, min);
      ScanSplits(v, min);
      ScanSplits(v, max);
      assert v == v[..m] + [v[m]] + v[m + 1..];
      PiecesInside(v[..m], [v[m]], v[m + 1..], min, max);
      PiecesOne(v[m], min, max);
      ChunkInOneIs(v[m], min, max);
    } else {
      PiecesAcross(v, min, max);
    }
  }

  /** A range fold passes on exactly the elements in the range, in order and once each. */
  lemma {:induction false} RangeChunksCorrect(v: Blocks, min: int, max: int)
    requires v != [] && SortedBlocks(v) && min <= max
    ensures Flatten(RangeChunks(v, min, max)) == InRange(Flatten(v), min, max)
  {
    RangeChunksPieces(v, min, max);
    PiecesFlat(v, min, max);
  }

  /** The pieces in front of that of slab m are those of the slabs before it, those behind it are those of
      the slabs after it; slab m gives one piece, a stretch of itself, or none. */
  lemma {:induction false} PiecesAt(v: Blocks, m: nat, min: int, max: int) returns (i: nat, j: nat)
    requires m < |v| && StrictlySorted(v[m])
    ensures i <= j <= |v[m]| && (forall k :: 0 <= k < |v[m]| ==> (min <= v[m][k] <= max <==> i <= k < j))
    ensures Pieces(v, min, max) == Pieces(v[..m], min, max) + (if i < j then [v[m][i..j]] else []) + Pieces(v[m + 1..], min, max)
  {
    hide Pieces, InRange;
    i, j := Stretch(v[m], min, max);
    assert v == v[..m] + [v[m]] + v[m + 1..];
    PiecesConcat(v[..m] + [v[m]], v[m + 1..], min, max);
    PiecesConcat(v[..m], [v[m]], min, max);
    PiecesOne(v[m], min, max);
  }

  /** What a sorted slab has in the range is a stretch of it. */
  lemma {:induction false} Stretch(x: seq<int>, min: int, max: int) returns (i: nat, j: nat)
    requires StrictlySorted(x)
    ensures i <= j <= |x| && InRange(x, min, max) == x[i..j]
    ensures forall k :: 0 <= k < |x| ==> (min <= x[k] <= max <==> i <= k < j)
  {
    i, j := LowerBound(x, min), UpperBound(x, max);
    if i <= j {
      InRangeSlice(x, min, max, i, j);
    } else {
      j := i;
      InRangeNone(x, min, max);
    }
  }

  /** The pieces passed on in either representation. */
  function StateChunks(st: ListState, min: int, max: int): Blocks
    requires SortedState(st) && min <= max
  {
    match st
    case Small(s) => if InRange(s, min, max) == [] then [] else [InRange(s, min, max)]
    case Slabs(v) => RangeChunks(v, min, max)
  }

  /** In either representation; a small list is one slab here. */
  lemma StateChunksPieces(st: ListState, min: int, max: int)
    requires SortedState(st) && min <= max
    ensures StateChunks(st, min, max) == Pieces(AsSlabs(st), min, max)
  {
    match st
    case Small(s) => PiecesOne(s, min, max);
    case Slabs(v) => RangeChunksPieces(v, min, max);
  }

  /** With a callback that folds the elements of its piece in order, a range fold is the fold of the
      elements in the range. */
  lemma RangeFoldCorrect<A(!new)>(st: ListState, f: (A, seq<int>) -> A, g: (A, int) -> A, zero: A, min: int, max: int)
    requires SortedState(st) && min <= max
    requires forall a: A, x: seq<int> :: f(a, x) == FoldElems(g, a, x)
    ensures FoldChunks(f, zero, StateChunks(st, min, max)) == FoldElems(g, zero, InRange(Contents(st), min, max))
  {
    FoldChunksIsFold(f, g, zero, StateChunks(st, min, max));
    match st
    case Small(s) => FlattenOne(InRange(s, min, max));
    case Slabs(v) => RangeChunksCorrect(v, min, max);
  }
}
