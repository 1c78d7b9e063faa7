/** The nodes of a slab list and the moves that touch one or two of them. */
module SlabCore {
  import opened Seqs
  import opened Memory
  import opened SlabModel
  import opened RemModel

  /** small_list_t */
  class SmallNode {
    var sml_next: SmallNode?
    var sml_data: int

    constructor (data: int)
      ensures sml_data == data && sml_next == null
    {
      sml_data, sml_next := data, null;
    }
  }

  /** slab_t. The back pointer to the list is passed along instead. */
  class Slab {
    var s_min: int
    var s_max: int
    var s_next: Slab?
    var s_prev: Slab?
    var s_below: Subslab?
    var s_elems: nat
    const s_arr: array<int>

    constructor ()
      ensures s_elems == 0 && s_arr.Length == SELEM_MAX && fresh(s_arr)
      ensures s_next == null && s_prev == null && s_below == null
    {
      s_min, s_max, s_elems := 0, 0, 0;
      s_next, s_prev, s_below := null, null, null;
      s_arr := new int[SELEM_MAX];
    }

    /** The slab holds the elements x, and nothing else in its live part. */
    ghost predicate Holds(x: seq<int>)
      reads `s_elems, s_arr
    {
      s_arr.Length == SELEM_MAX && s_elems == |x| <= SELEM_MAX && s_arr[..|x|] == x
    }

    /** The cached extrema are those of x. */
    ghost predicate Exact(x: seq<int>)
      reads `s_min, `s_max
    {
      x != [] ==> s_min == x[0] && s_max == Last(x)
    }

    /** The forward shift of add_elem, and the write into the gap. */
    method ShiftIn(e: int, i: nat, ghost x: seq<int>)
      requires Holds(x) && i <= |x| < SELEM_MAX
      modifies s_arr
      ensures s_arr[..|x| + 1] == InsertAt(x, i, e)
    {
      assert forall k :: 0 <= k < |x| ==> s_arr[k] == s_arr[..|x|][k] == x[k];
      if s_elems > i {
        Bcopy(s_arr, i, s_arr, i + 1, s_elems - i);
        assert forall k :: i < k <= |x| ==> s_arr[k] == s_arr[..][k] == x[k - 1];
        assert forall k :: 0 <= k < i ==> s_arr[k] == s_arr[..][k] == x[k];
      }
      s_arr[i] := e;
    }

    /** add_elem: e goes to index i of a slab with room. */
    method AddElem(e: int, i: nat, ghost x: seq<int>)
      requires Holds(x) && i <= |x| < SELEM_MAX
      modifies `s_min, `s_max, `s_elems, s_arr
      ensures Holds(InsertAt(x, i, e))
      ensures old(Exact(x)) ==> Exact(InsertAt(x, i, e))
    {
      hide InsertAt;
      InsertAtEnds(x, i, e);
      ShiftIn(e, i, x);
      assert forall k :: 0 <= k <= |x| ==> s_arr[k] == s_arr[..|x| + 1][k];
      if i == 0 {
        s_min := s_arr[0];
      }
      if i == s_elems {
        s_max := s_arr[s_elems];
      }
      s_elems := s_elems + 1;
    }

    /** Takes the maximum off the slab, as addsn does before it spills. */
    method CutLast(ghost x: seq<int>) returns (e: int)
      requires Holds(x) && |x| > 1
      modifies `s_elems, `s_max
      ensures e == Last(x) && Holds(x[..|x| - 1])
      ensures old(Exact(x)) ==> Exact(x[..|x| - 1])
    {
      e := s_arr[s_elems - 1];
      var b4 := s_arr[s_elems - 2];
      s_elems := s_elems - 1;
      s_max := b4;
      assert s_arr[..s_elems] == x[..|x| - 1];
    }

    /** Takes the minimum off the slab, as addsp does before it spills. */
    method CutFirst(ghost x: seq<int>) returns (e: int)
      requires Holds(x) && |x| > 1
      modifies `s_elems, `s_min, s_arr
      ensures e == x[0] && Holds(x[1..])
      ensures old(Exact(x)) ==> Exact(x[1..])
    {
      e := s_arr[0];
      s_elems := s_elems - 1;
      Bcopy(s_arr, 1, s_arr, 0, s_elems);
      s_min := s_arr[0];
      assert s_arr[..s_elems] == x[1..];
    }

    /** remove_elem: deletes index i. */
    method RemoveElem(i: nat, ghost x: seq<int>)
      requires Holds(x) && i < |x|
      modifies `s_min, `s_max, `s_elems, s_arr
      ensures Holds(DeleteAt(x, i))
      ensures old(Exact(x)) ==> Exact(DeleteAt(x, i))
    {
      if i != s_elems - 1 {
        Bcopy(s_arr, i + 1, s_arr, i, s_elems - (i + 1));
      }
      s_elems := s_elems - 1;
      assert s_arr[..s_elems] == DeleteAt(x, i);
      if s_elems > 0 && i == 0 {
        s_min := s_arr[0];
      }
      if s_elems > 0 && i == s_elems {
        s_max := s_arr[i - 1];
      }
    }

    /** Makes room for n entries of src and copies them to the front. */
    method Prepend(src: array<int>, from: nat, n: nat, ghost y: seq<int>)
      requires Holds(y) && src != s_arr && from + n <= src.Length && n + |y| <= SELEM_MAX
      modifies `s_elems, s_arr
      ensures Holds(src[from..from + n] + y)
    {
      Bcopy(s_arr, 0, s_arr, n, s_elems);
      Bcopy(src, from, s_arr, 0, n);
      s_elems := s_elems + n;
      assert s_arr[..s_elems] == src[from..from + n] + y;
    }

    /** Copies the first n entries of src to the end. */
    method Append(src: array<int>, n: nat, ghost y: seq<int>)
      requires Holds(y) && src != s_arr && n <= src.Length && n + |y| <= SELEM_MAX
      modifies `s_elems, s_arr
      ensures Holds(y + src[..n])
    {
      Bcopy(src, 0, s_arr, s_elems, n);
      s_elems := s_elems + n;
      assert s_arr[..s_elems] == y + src[..n];
    }

    /** Drops the first n elements: the backward shift. */
    method Drop(n: nat, ghost x: seq<int>)
      requires Holds(x) && n <= |x|
      modifies `s_elems, s_arr
      ensures Holds(x[n..])
    {
      s_elems := s_elems - n;
      Bcopy(s_arr, n, s_arr, 0, s_elems);
      assert s_arr[..s_elems] == x[n..];
    }

    /** move_to_next: the last elements of this slab go to the front of sn, as many as fit. */
    method MoveToNext(sn: Slab, ghost x: seq<int>, ghost y: seq<int>)
      requires Holds(x) && sn.Holds(y) && sn != this && sn.s_arr != s_arr
      modifies `s_min, `s_max, `s_elems, s_arr, sn`s_min, sn`s_max, sn`s_elems, sn.s_arr
      ensures var from := |x| - Min(|x|, FreeSpace(y));
              && Holds(x[..from]) && sn.Holds(x[from..] + y)
              && (y != [] && old(Exact(x) && sn.Exact(y)) ==> Exact(x[..from]) && sn.Exact(x[from..] + y))
    {
      if s_elems == 0 {
        assert x[0..] + y == y;
        return;
      }
      var cpelems, from := s_elems, 0;
      if s_elems >= SELEM_MAX - sn.s_elems {
        cpelems := SELEM_MAX - sn.s_elems;
        from := s_elems - cpelems;
      }
      assert s_arr[from..from + cpelems] == x[from..];
      sn.Prepend(s_arr, from, cpelems, y);
      s_elems := s_elems - cpelems;
      assert s_arr[..from] == x[..from];
      sn.s_min := sn.s_arr[0];
      if s_elems > 0 {
        s_max := s_arr[s_elems - 1];
      }
    }

    /** move_to_prev: the first elements of this slab go to the end of sp, as many as fit. */
    method MoveToPrev(sp: Slab, ghost x: seq<int>, ghost y: seq<int>)
      requires Holds(x) && sp.Holds(y) && sp != this && sp.s_arr != s_arr
      modifies `s_min, `s_max, `s_elems, s_arr, sp`s_min, sp`s_max, sp`s_elems, sp.s_arr
      ensures var cp := Min(|x|, FreeSpace(y));
              && Holds(x[cp..]) && sp.Holds(y + x[..cp])
              && (old(Exact(x) && sp.Exact(y)) ==> Exact(x[cp..]) && sp.Exact(y + x[..cp]))
    {
      if s_elems == 0 {
        assert y + x[..0] == y;
        return;
      }
      var cpelems := s_elems;
      if s_elems >= SELEM_MAX - sp.s_elems {
        cpelems := SELEM_MAX - sp.s_elems;
      }
      assert s_arr[..cpelems] == x[..cpelems];
      sp.Append(s_arr, cpelems, y);
      Drop(cpelems, x);
      sp.s_min := sp.s_arr[0];
      sp.s_max := sp.s_arr[sp.s_elems - 1];
      if s_elems > 0 {
        s_min := s_arr[0];
        s_max := s_arr[s_elems - 1];
      }
    }
  }

  /** subslab_t with its subarr_t. The array of void pointers holds slabs at layer 1 and subslabs
      at deeper layers; it is split here into two arrays of which one is in use. */
  class Subslab {
    var ss_min: int
    var ss_max: int
    var ss_next: Subslab?
    var ss_prev: Subslab?
    var ss_below: Subslab?
    var ss_elems: nat
    var ss_usr_elems: nat
    const ss_slabs: array<Slab?>
    const ss_subs: array<Subslab?>

    constructor ()
      ensures ss_elems == 0 && ss_usr_elems == 0
      ensures ss_slabs.Length == SUBELEM_MAX && fresh(ss_slabs)
      ensures ss_subs.Length == SUBELEM_MAX && fresh(ss_subs)
      ensures ss_next == null && ss_prev == null && ss_below == null
    {
      ss_min, ss_max, ss_elems, ss_usr_elems := 0, 0, 0, 0;
      ss_next, ss_prev, ss_below := null, null, null;
      ss_slabs := new Slab?[SUBELEM_MAX](_ => null);
      ss_subs := new Subslab?[SUBELEM_MAX](_ => null);
    }

    /** The subslab holds pointers to the slabs ks, and nothing else in its live part. */
    ghost predicate Kids(ks: seq<Slab>)
      reads `ss_elems, ss_slabs
    {
      ss_slabs.Length == SUBELEM_MAX && ss_elems == |ks| <= SUBELEM_MAX
      && forall k :: 0 <= k < |ks| ==> ss_slabs[k] == ks[k]
    }

    /** At deeper layers: the subslab holds pointers to the subslabs ks. */
    ghost predicate SubKids(ks: seq<Subslab>)
      reads `ss_elems, ss_subs
    {
      ss_subs.Length == SUBELEM_MAX && ss_elems == |ks| <= SUBELEM_MAX
      && forall k :: 0 <= k < |ks| ==> ss_subs[k] == ks[k]
    }

    /** add_slab: the pointer to n goes to index i of a subslab with room. */
    method AddSlab(n: Slab, i: nat, ghost ks: seq<Slab>)
      requires Kids(ks) && i <= |ks| < SUBELEM_MAX
      modifies `ss_min, `ss_max, `ss_elems, ss_slabs, n`s_below
      ensures Kids(InsertAt(ks, i, n)) && n.s_below == this
      ensures ss_min == if i == 0 then n.s_min else old(ss_min)
      ensures ss_max == if i == |ks| then n.s_max else old(ss_max)
    {
      if ss_elems > i {
        Bcopy(ss_slabs, i, ss_slabs, i + 1, ss_elems - i);
        assert forall k :: i < k <= |ks| ==> ss_slabs[k] == ss_slabs[..][k] == ks[k - 1];
        assert forall k :: 0 <= k < i ==> ss_slabs[k] == ss_slabs[..][k] == ks[k];
      }
      n.s_below := this;
      ss_slabs[i] := n;
      if i == 0 {
        ss_min := n.s_min;
      }
      if i == ss_elems {
        ss_max := n.s_max;
      }
      ss_elems := ss_elems + 1;
    }

    /** add_slab of a subslab n. */
    method AddSub(n: Subslab, i: nat, ghost ks: seq<Subslab>)
      requires SubKids(ks) && i <= |ks| < SUBELEM_MAX && n != this
      modifies `ss_min, `ss_max, `ss_elems, ss_subs, n`ss_below
      ensures SubKids(InsertAt(ks, i, n)) && n.ss_below == this
      ensures ss_min == if i == 0 then n.ss_min else old(ss_min)
      ensures ss_max == if i == |ks| then n.ss_max else old(ss_max)
    {
      if ss_elems > i {
        Bcopy(ss_subs, i, ss_subs, i + 1, ss_elems - i);
        assert forall k :: i < k <= |ks| ==> ss_subs[k] == ss_subs[..][k] == ks[k - 1];
        assert forall k :: 0 <= k < i ==> ss_subs[k] == ss_subs[..][k] == ks[k];
      }
      n.ss_below := this;
      ss_subs[i] := n;
      if i == 0 {
        ss_min := n.ss_min;
      }
      if i == ss_elems {
        ss_max := n.ss_max;
      }
      ss_elems := ss_elems + 1;
    }

    /** Takes the last pointer off a full subslab, as sub_addsn does before it spills. */
    method CutLastSlab(ghost ks: seq<Slab>) returns (n: Slab)
      requires Kids(ks) && |ks| > 1
      modifies `ss_max, `ss_elems
      ensures n == ks[|ks| - 1] && Kids(ks[..|ks| - 1]) && ss_max == ks[|ks| - 2].s_max
    {
      assert ss_slabs[ss_elems - 1] == ks[|ks| - 1] && ss_slabs[ss_elems - 2] == ks[|ks| - 2];
      n := ss_slabs[ss_elems - 1];
      ss_max := ss_slabs[ss_elems - 2].s_max;
      ss_elems := ss_elems - 1;
    }

    /** Takes the first pointer off a full subslab, as sub_addsp does before it spills. */
    method CutFirstSlab(ghost ks: seq<Slab>) returns (n: Slab)
      requires Kids(ks) && |ks| > 1
      modifies `ss_min, `ss_elems, ss_slabs
      ensures n == ks[0] && Kids(ks[1..]) && ss_min == ks[1].s_min
    {
      assert ss_slabs[0] == ks[0] && ss_slabs[1] == ks[1];
      n := ss_slabs[0];
      Bcopy(ss_slabs, 1, ss_slabs, 0, ss_elems - 1);
      assert forall k :: 0 <= k < |ks| - 1 ==> ss_slabs[k] == ss_slabs[..][k] == ks[k + 1];
      ss_elems := ss_elems - 1;
      ss_min := ss_slabs[0].s_min;
    }

    /** subslab_update_extrema at layer 1. */
    method UpdateExtrema(ghost ks: seq<Slab>)
      requires Kids(ks)
      modifies `ss_min, `ss_max
      ensures ks != [] ==> ss_min == ks[0].s_min && ss_max == ks[|ks| - 1].s_max
      ensures ks == [] ==> ss_min == old(ss_min) && ss_max == old(ss_max)
    {
      if ss_elems == 0 {
        return;
      }
      var last := ss_elems - 1;
      assert ss_slabs[0] == ks[0] && ss_slabs[last] == ks[last];
      ss_min := ss_slabs[0].s_min;
      ss_max := ss_slabs[last].s_max;
    }

    /** subslab_update_extrema at a deeper layer. */
    method UpdateExtremaDeep(ghost ks: seq<Subslab>)
      requires SubKids(ks)
      modifies `ss_min, `ss_max
      ensures this !in ks && ks != [] ==> ss_min == ks[0].ss_min && ss_max == ks[|ks| - 1].ss_max
      ensures ks == [] ==> ss_min == old(ss_min) && ss_max == old(ss_max)
    {
      if ss_elems == 0 {
        return;
      }
      var last := ss_elems - 1;
      assert ss_subs[0] == ks[0] && ss_subs[last] == ks[last];
      ss_min := ss_subs[0].ss_min;
      ss_max := ss_subs[last].ss_max;
    }
  }
}
