/** The unlayered ordered list as a state machine, and what every run of it means: a sequence. */
module OrderedModel {
  import opened Seqs
  import opened SlabModel
  import opened AddModel
  import opened RemModel
  import opened Division
  import opened ListModel

  function Reversed<T>(s: seq<T>): seq<T> {
    if s == [] then [] else Reversed(s[1..]) + [s[0]]
  }

  lemma {:induction false} ReversedAt<T>(s: seq<T>)
    ensures |Reversed(s)| == |s|
    ensures forall k :: 0 <= k < |s| ==> Reversed(s)[k] == s[|s| - 1 - k]
  {
    if s != [] {
      ReversedAt(s[1..]);
    }
  }

  lemma {:induction false} ReversedConcat<T>(a: seq<T>, b: seq<T>)
    ensures Reversed(a + b) == Reversed(b) + Reversed(a)
  {
    ReversedAt(a);
    ReversedAt(b);
    ReversedAt(a + b);
  }

  /* ---- appending ---- */

  /** The ordered branch of slablist_add_impl on a slab list. */
  function AppendBlocks(v: Blocks, e: int): Blocks
    requires v != []
  {
    if |Last'(v)| < SELEM_MAX then v[|v| - 1 := Last'(v) + [e]] else v + [[e]]
  }

  lemma {:induction false} AppendBlocksCorrect(v: Blocks, e: int)
    requires v != [] && SizesOk(v) && Packed(v)
    ensures AppendBlocks(v, e) != [] && SizesOk(AppendBlocks(v, e)) && Packed(AppendBlocks(v, e))
    ensures Flatten(AppendBlocks(v, e)) == Flatten(v) + [e]
  {
    hide Flatten;
    FlattenInit(v, |v|);
    assert v[..|v|] == v;
    if |Last'(v)| < SELEM_MAX {
      FlattenUpdate(v, |v| - 1, Last'(v) + [e]);
      assert v[|v|..] == [];
      FlattenEmpty();
    } else {
      FlattenConcat(v, [[e]]);
      FlattenOne([e]);
    }
  }

  lemma FlattenEmpty()
    ensures Flatten<int>([]) == []
  {
  }

  function Append(st: ListState, e: int, reap: bool): ListState
    requires Valid(st)
  {
    if st.Small? && |st.s| <= SMELEM_MAX - 1 then Small(st.s + [e])
    else
      AsSlabsValid(st);
      AppendBlocksCorrect(AsSlabs(st), e);
      Slabs(TryReap(AppendBlocks(AsSlabs(st), e), reap))
  }

  lemma AppendCorrect(st: ListState, e: int, reap: bool)
    requires Valid(st)
    ensures Valid(Append(st, e, reap))
    ensures Contents(Append(st, e, reap)) == Contents(st) + [e]
  {
    hide AppendBlocks, TryReap, Packed, SizesOk;
    if !(st.Small? && |st.s| <= SMELEM_MAX - 1) {
      AsSlabsValid(st);
      AppendBlocksCorrect(AsSlabs(st), e);
      TryReapCorrect(AppendBlocks(AsSlabs(st), e), reap);
    }
  }

  /** In which representation and in which slabs an appending leaves the list. */
  lemma {:induction false} AppendSlabs(st: ListState, e: int, reap: bool)
    requires Valid(st)
    ensures Append(st, e, reap).Small? <==> st.Small? && |st.s| < SMELEM_MAX
    ensures Append(st, e, reap).Slabs? ==>
      AsSlabs(st) != [] && ReapedIf(AppendBlocks(AsSlabs(st), e), reap, Append(st, e, reap).v)
  {
    hide AppendBlocks, TryReap, Packed, SizesOk, ReapedIf;
    if !(st.Small? && |st.s| <= SMELEM_MAX - 1) {
      AsSlabsValid(st);
      AppendBlocksCorrect(AsSlabs(st), e);
      TryReapReaps(AppendBlocks(AsSlabs(st), e), reap);
    }
  }

  lemma AppendHead(st: ListState, e: int, reap: bool)
    requires Valid(st)
    ensures var st' := Append(st, e, reap); reap && st'.Slabs? && |st'.v| > 1 ==> |st'.v[0]| == SELEM_MAX
  {
    hide Append, AppendBlocks, Flatten;
    AppendSlabs(st, e, reap);
  }

  /* ---- positions ---- */

  /** The position meant by pos: a circular list wraps around. */
  function ActPos(n: nat, pos: nat): nat
    requires n > 0
  {
    if n < pos then pos % n else pos
  }

  /** Where pos leads among n elements: to itself, or on a circular list to what is left of it after some
      times around. */
  ghost predicate Around(n: nat, pos: nat, r: nat) {
    r < n && if pos < n then r == pos else exists q: nat :: pos == q * n + r
  }

  lemma {:induction false} ActPosAround(n: nat, pos: nat)
    requires n > 0 && pos != n
    ensures Around(n, pos, ActPos(n, pos))
  {
    var q: nat := pos / n;
    assert pos == q * n + pos % n;
  }

  lemma {:induction false} AroundOnce(n: nat, pos: nat, r: nat, r': nat)
    requires Around(n, pos, r) && Around(n, pos, r')
    ensures r == r'
  {
    if pos >= n {
      var q: nat :| pos == q * n + r;
      var q': nat :| pos == q' * n + r';
      QuotientIs(q, r, n);
      QuotientIs(q', r', n);
    }
  }

  /** Positions the code can look up: not the element count itself, and beyond it only when circular. */
  predicate PosOk(n: nat, pos: nat, circular: bool) {
    n > 0 && (pos < n || (pos > n && circular))
  }

  /** slab_get_elem_pos without sublayers: slab and offset of position pos. */
  function Locate(v: Blocks, pos: nat): (r: (nat, nat))
    requires pos < |Flatten(v)|
    ensures r.0 < |v| && r.1 < |v[r.0]|
  {
    if pos < |v[0]| then (0, pos)
    else var r := Locate(v[1..], pos - |v[0]|); (r.0 + 1, r.1)
  }

  /** It is the element at that position of the whole list. */
  lemma {:induction false} LocateCorrect(v: Blocks, pos: nat)
    requires pos < |Flatten(v)|
    ensures var (m, off) := Locate(v, pos);
            && pos == |Flatten(v[..m])| + off
            && v[m][off] == Flatten(v)[pos]
  {
    if pos >= |v[0]| {
      LocateCorrect(v[1..], pos - |v[0]|);
      var (m, off) := Locate(v, pos);
      assert v[..m][0] == v[0] && v[..m][1..] == v[1..][..m - 1];
    }
  }

  /** The walk along the slabs stops in slab m, at offset off of it. */
  ghost predicate StopsIn(v: Blocks, p: nat, m: nat, off: nat) {
    m < |v| && off < |v[m]| && p == |Flatten(v[..m])| + off
  }

  /** The slab and offset that make up a position are the ones Locate finds. */
  lemma {:induction false} Located(v: Blocks, pos: nat, m: nat, off: nat)
    requires pos < |Flatten(v)| && StopsIn(v, pos, m, off)
    ensures Locate(v, pos) == (m, off)
  {
    if m == 0 {
      assert v[..0] == [];
    } else {
      assert v[..m][0] == v[0] && v[..m][1..] == v[1..][..m - 1];
      Located(v[1..], pos - |v[0]|, m - 1, off);
    }
  }

  /** The walk of slab_get_elem_pos stops in a slab exactly for the positions of elements. */
  lemma {:induction false} WalkFinds(v: Blocks, p: nat)
    ensures p < |Flatten(v)| <==> exists m, off :: StopsIn(v, p, m, off)
  {
    hide Flatten;
    if p < |Flatten(v)| {
      LocateCorrect(v, p);
      assert StopsIn(v, p, Locate(v, p).0, Locate(v, p).1);
    }
    forall m, off | StopsIn(v, p, m, off) ensures p < |Flatten(v)| {
      FlattenAt(v, m);
    }
  }

  /** A position is fit for a list in slabs exactly if it is not rejected with a null pointer, that is
      not above the count of a list that is not circular, and the walk stops in a slab. */
  lemma {:induction false} PosOkExact(v: Blocks, pos: nat, circular: bool)
    requires Flatten(v) != []
    ensures PosOk(|Flatten(v)|, pos, circular)
       <==> (pos <= |Flatten(v)| || circular) && exists m, off :: StopsIn(v, ActPos(|Flatten(v)|, pos), m, off)
  {
    hide Flatten, StopsIn;
    WalkFinds(v, ActPos(|Flatten(v)|, pos));
  }

  function Get(st: ListState, pos: nat): int
    requires pos < |Contents(st)|
  {
    match st
    case Small(s) => s[pos]
    case Slabs(v) => var (m, off) := Locate(v, pos); v[m][off]
  }

  lemma GetCorrect(st: ListState, pos: nat)
    requires pos < |Contents(st)|
    ensures Get(st, pos) == Contents(st)[pos]
  {
    if st.Slabs? {
      LocateCorrect(st.v, pos);
    }
  }

  /** Removals by position the code can carry out or reject. */
  predicate RemAtDefined(st: ListState, pos: nat, circular: bool)
    requires Valid(st)
  {
    var n := |Contents(st)|;
    if Shrunk(st).Small? then pos != n || n == 0 else PosOk(n, pos, circular)
  }

  /** In either representation a removal is defined exactly if it is rejected with an error or finds its
      element: a small list rejects positions above the count unless it is circular, slabs do not. */
  lemma {:induction false} RemAtDefinedExact(st: ListState, pos: nat, circular: bool)
    requires Valid(st)
    ensures RemAtDefined(st, pos, circular) <==>
      match Shrunk(st)
      case Small(s) => s == [] || (|s| < pos && !circular) || ActPos(|s|, pos) < |s|
      case Slabs(v) =>
        Flatten(v) != [] && (pos <= |Flatten(v)| || circular) && exists m, off :: StopsIn(v, ActPos(|Flatten(v)|, pos), m, off)
  {
    hide Flatten, StopsIn;
    ShrunkLossless(st);
    if Shrunk(st).Slabs? && Contents(st) != [] {
      PosOkExact(Shrunk(st).v, pos, circular);
    }
  }

  /** Two full slabs: the element count as a position is not defined, nor is the next one unless the list
      is circular. A full small list does not define the count either, but rejects the next one. */
  lemma {:induction false} PosFails(x: seq<int>, s: seq<int>)
    requires |x| == SELEM_MAX && |s| == SMELEM_MAX
    ensures var st, n := Slabs([x, x]), 2 * SELEM_MAX;
      && Valid(st) && |Contents(st)| == n && !RemAtDefined(st, n, true) && !RemAtDefined(st, n, false)
      && !RemAtDefined(st, n + 1, false) && RemAtDefined(st, n + 1, true)
    ensures var st, n := Small(s), SMELEM_MAX;
      && Valid(st) && !RemAtDefined(st, n, false) && RemAtDefined(st, n + 1, false)
      && RemAt(st, n + 1, false, false) == (st, SL_ENCIRC)
  {
    assert [x, x] == [x] + [x];
    FlattenConcat([x], [x]);
    FlattenOne(x);
  }

  /** slablist_rem_impl on an ordered list without sublayers. */
  function RemAt(st: ListState, pos: nat, circular: bool, reap: bool): (ListState, Ret)
    requires Valid(st) && RemAtDefined(st, pos, circular)
  {
    ShrunkLossless(st);
    var t := Shrunk(st);
    if t.Small? then
      if t.s == [] then (t, SL_EMPTY)
      else if |t.s| < pos && !circular then (t, SL_ENCIRC)
      else (Small(DeleteAt(t.s, ActPos(|t.s|, pos))), SL_SUCCESS)
    else
      var (m, off) := Locate(t.v, ActPos(|Flatten(t.v)|, pos));
      RemAtBlocksCorrect(t.v, m, off);
      (Slabs(TryReap(RemAtBlocks(t.v, m, off), reap)), SL_SUCCESS)
  }

  /** Removal by position deletes exactly that position, or answers with the right error and changes
      nothing. */
  lemma {:induction false} RemAtCorrect(st: ListState, pos: nat, circular: bool, reap: bool)
    requires Valid(st) && RemAtDefined(st, pos, circular)
    ensures Valid(RemAt(st, pos, circular, reap).0)
    ensures RemAt(st, pos, circular, reap).1
         == if Contents(st) == [] then SL_EMPTY else if PosOk(|Contents(st)|, pos, circular) then SL_SUCCESS else SL_ENCIRC
    ensures var f, g := Contents(st), Contents(RemAt(st, pos, circular, reap).0);
      && (pos < |f| ==> g == DeleteAt(f, pos))
      && (PosOk(|f|, pos, circular) ==> exists r :: Around(|f|, pos, r) && g == DeleteAt(f, r))
      && (!PosOk(|f|, pos, circular) ==> g == f)
  {
    hide Flatten, RemAtBlocks, TryReap, Packed, SizesOk, Locate, Around, ActPos, DeleteAt;
    ShrunkLossless(st);
    var t, n := Shrunk(st), |Contents(st)|;
    if PosOk(n, pos, circular) {
      var p := ActPos(n, pos);
      ActPosAround(n, pos);
      AroundIs(n, pos, p);
      if t.Slabs? {
        var (m, off) := Locate(t.v, p);
        LocateCorrect(t.v, p);
        RemAtBlocksCorrect(t.v, m, off);
        TryReapCorrect(RemAtBlocks(t.v, m, off), reap);
      }
    }
  }

  lemma AroundIs(n: nat, pos: nat, r: nat)
    requires Around(n, pos, r)
    ensures r < n && (pos < n ==> r == pos)
  {
  }

  /** In which representation and in which slabs a removal by position leaves the list; without a reap
      they are those of the shuffle alone. */
  lemma {:induction false} RemAtSlabs(st: ListState, pos: nat, circular: bool, reap: bool)
    requires Valid(st) && RemAtDefined(st, pos, circular)
    ensures RemAt(st, pos, circular, reap).0.Small? <==> st.Small? || |Contents(st)| == SMELEM_MAX
    ensures RemAt(st, pos, circular, reap).0.Slabs? ==>
      && st.Slabs?
      && exists p, m, off :: Around(|Flatten(st.v)|, pos, p) && StopsIn(st.v, p, m, off)
                             && ReapedIf(RemAtBlocks(st.v, m, off), reap, RemAt(st, pos, circular, reap).0.v)
  {
    hide Flatten, RemAtBlocks, TryReap, ReapedIf, Packed, Locate, Around, ActPos, DeleteAt;
    ShrunkLossless(st);
    if Shrunk(st).Slabs? {
      var v := st.v;
      var p := ActPos(|Flatten(v)|, pos);
      ActPosAround(|Flatten(v)|, pos);
      AroundIs(|Flatten(v)|, pos, p);
      var (m, off) := Locate(v, p);
      LocateCorrect(v, p);
      RemAtBlocksCorrect(v, m, off);
      TryReapReaps(RemAtBlocks(v, m, off), reap);
      assert StopsIn(v, p, m, off);
    }
  }

  lemma RemAtHead(st: ListState, pos: nat, circular: bool, reap: bool)
    requires Valid(st) && RemAtDefined(st, pos, circular)
    ensures var st' := RemAt(st, pos, circular, reap).0; reap && st'.Slabs? && |st'.v| > 1 ==> |st'.v[0]| == SELEM_MAX
  {
    hide RemAt, RemAtBlocks, StopsIn, Around, Flatten;
    RemAtSlabs(st, pos, circular, reap);
  }

  /* ---- reversing ---- */

  /** slablist_reverse: the order of the slabs and the elements in each are turned around. */
  function ReverseBlocks(v: Blocks): Blocks {
    if v == [] then [] else ReverseBlocks(v[1..]) + [Reversed(v[0])]
  }

  lemma {:induction false} ReverseBlocksAt(v: Blocks)
    ensures |ReverseBlocks(v)| == |v|
    ensures forall k :: 0 <= k < |v| ==> ReverseBlocks(v)[k] == Reversed(v[|v| - 1 - k])
  {
    if v != [] {
      ReverseBlocksAt(v[1..]);
    }
  }

  lemma {:induction false} ReverseBlocksFlat(v: Blocks)
    ensures Flatten(ReverseBlocks(v)) == Reversed(Flatten(v))
  {
    if v != [] {
      ReverseBlocksFlat(v[1..]);
      FlattenConcat(ReverseBlocks(v[1..]), [Reversed(v[0])]);
      FlattenOne(Reversed(v[0]));
      ReversedConcat(v[0], Flatten(v[1..]));
    }
  }

  lemma {:induction false} ReverseBlocksSizes(v: Blocks)
    requires SizesOk(v) && Packed(v)
    ensures SizesOk(ReverseBlocks(v)) && Packed(ReverseBlocks(v))
  {
    ReverseBlocksAt(v);
    forall k | 0 <= k < |v| ensures |ReverseBlocks(v)[k]| == |v[|v| - 1 - k]| {
      ReversedAt(v[|v| - 1 - k]);
    }
  }

  function Reverse(st: ListState): ListState {
    match st
    case Small(s) => Small(Reversed(s))
    case Slabs(v) => Slabs(ReverseBlocks(v))
  }

  /** Reversing a list in either representation reverses the sequence. */
  lemma ReverseCorrect(st: ListState)
    requires Valid(st)
    ensures Valid(Reverse(st)) && Contents(Reverse(st)) == Reversed(Contents(st))
  {
    ReversedAt(Contents(st));
    if st.Slabs? {
      ReverseBlocksFlat(st.v);
      ReverseBlocksSizes(st.v);
      ReverseBlocksAt(st.v);
    }
  }

  lemma {:induction false} ReversedTwice<T>(s: seq<T>)
    ensures Reversed(Reversed(s)) == s
  {
    ReversedAt(s);
    ReversedAt(Reversed(s));
  }

  /** Reversing is its own inverse, down to the division into slabs. */
  lemma {:induction false} ReverseTwice(st: ListState)
    ensures Reverse(Reverse(st)) == st
  {
    match st
    case Small(s) => ReversedTwice(s);
    case Slabs(v) =>
      var r := ReverseBlocks(v);
      ReverseBlocksAt(v);
      ReverseBlocksAt(r);
      forall k | 0 <= k < |v| ensures ReverseBlocks(r)[k] == v[k] {
        assert r[|v| - 1 - k] == Reversed(v[k]);
        ReversedTwice(v[k]);
      }
      assert ReverseBlocks(r) == v;
  }

  /* ---- runs of an ordered list ---- */

  datatype OrderedOp = Add(e: int, reap: bool) | Rem(pos: nat, reap: bool) | Rev | ReapNow

  function StepOrdered(st: ListState, op: OrderedOp, circular: bool): ListState
    requires Valid(st)
    requires op.Rem? ==> RemAtDefined(st, op.pos, circular)
  {
    match op
    case Add(e, reap) => Append(st, e, reap)
    case Rem(pos, reap) => RemAt(st, pos, circular, reap).0
    case Rev => Reverse(st)
    case ReapNow => ReapList(st)
  }

  ghost function StepSeq(s: seq<int>, op: OrderedOp, circular: bool): seq<int> {
    match op
    case Add(e, _) => s + [e]
    case Rem(pos, _) =>
      if PosOk(|s|, pos, circular) then
        ActPosAround(|s|, pos);
        var r: nat :| Around(|s|, pos, r);
        DeleteAt(s, r)
      else s
    case Rev => Reversed(s)
    case ReapNow => s
  }

  lemma StepOrderedCorrect(st: ListState, op: OrderedOp, circular: bool)
    requires Valid(st)
    requires op.Rem? ==> RemAtDefined(st, op.pos, circular)
    ensures Valid(StepOrdered(st, op, circular))
    ensures Contents(StepOrdered(st, op, circular)) == StepSeq(Contents(st), op, circular)
  {
    match op
    case Add(e, reap) => AppendCorrect(st, e, reap);
    case Rem(pos, reap) =>
      RemAtCorrect(st, pos, circular, reap);
      var s := Contents(st);
      forall r, r' | Around(|s|, pos, r) && Around(|s|, pos, r') ensures r == r' {
        AroundOnce(|s|, pos, r, r');
      }
    case Rev => ReverseCorrect(st);
    case ReapNow => ReapListCorrect(st);
  }

  ghost predicate RunDefined(st: ListState, ops: seq<OrderedOp>, circular: bool)
    requires Valid(st)
    decreases |ops|
  {
    ops != [] ==>
      && (ops[0].Rem? ==> RemAtDefined(st, ops[0].pos, circular))
      && (StepOrderedCorrect(st, ops[0], circular); RunDefined(StepOrdered(st, ops[0], circular), ops[1..], circular))
  }

  ghost function RunOrdered(st: ListState, ops: seq<OrderedOp>, circular: bool): ListState
    requires Valid(st) && RunDefined(st, ops, circular)
    decreases |ops|
  {
    if ops == [] then st
    else
      StepOrderedCorrect(st, ops[0], circular);
      RunOrdered(StepOrdered(st, ops[0], circular), ops[1..], circular)
  }

  ghost function RunSeq(s: seq<int>, ops: seq<OrderedOp>, circular: bool): seq<int>
    decreases |ops|
  {
    if ops == [] then s else RunSeq(StepSeq(s, ops[0], circular), ops[1..], circular)
  }

  /** Over every run, across both representations and all reaps, the list is the sequence that the
      same appends, deletions by position and reversals produce. */
  lemma {:induction false} RunRefinesSeq(st: ListState, ops: seq<OrderedOp>, circular: bool)
    requires Valid(st) && RunDefined(st, ops, circular)
    ensures Valid(RunOrdered(st, ops, circular))
    ensures Contents(RunOrdered(st, ops, circular)) == RunSeq(Contents(st), ops, circular)
    decreases |ops|
  {
    if ops != [] {
      StepOrderedCorrect(st, ops[0], circular);
      RunRefinesSeq(StepOrdered(st, ops[0], circular), ops[1..], circular);
    }
  }
}
