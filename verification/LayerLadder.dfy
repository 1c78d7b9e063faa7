/** The layers of subslabs below the first sublayer: what each holds of the one above it, and the loops
    of slablist_add.c that walk down the holders. */
module LayerLadder {
  import opened Seqs
  import opened SlabModel
  import opened Groups
  import opened IndexModel
  import opened SlabCore
  import opened SubLayer

  /** The chains of the layers below the first sublayer, nearest first, and the groups of subslabs of
      the layer above that each holds. All their subslabs are in the set. */
  datatype Deep = Deep(cs: seq<seq<Subslab>>, gs: seq<seq<seq<Subslab>>>, all: set<Subslab>)

  /** The chain that layer i of d indexes; us is the chain of the first sublayer. */
  function Above(us: seq<Subslab>, d: Deep, i: nat): seq<Subslab>
    requires i <= |d.cs|
  {
    if i == 0 then us else d.cs[i - 1]
  }

  ghost predicate NoneShared(x: seq<Subslab>, y: seq<Subslab>) {
    forall a, b :: 0 <= a < |x| && 0 <= b < |y| ==> x[a] != y[b] && x[a].ss_subs != y[b].ss_subs
  }

  /** The groups of every layer concatenate to the layer above, and no subslab is in two layers. */
  ghost predicate Shape(us: seq<Subslab>, d: Deep) {
    && |d.gs| == |d.cs|
    && (forall i :: 0 <= i <= |d.cs| ==> SubDistinct(Above(us, d, i)))
    && (forall i :: 0 <= i < |d.cs| ==> |d.gs[i]| == |d.cs[i]| && GroupsOk(d.gs[i]) && Flatten(d.gs[i]) == Above(us, d, i))
    && (forall i, j :: 0 <= i < |d.cs| && 0 <= j < |d.cs[i]| ==> d.cs[i][j] in d.all)
    && (forall j :: 0 <= j < |us| ==> us[j] !in d.all)
    && (forall i, j :: 0 <= i < j <= |d.cs| ==> NoneShared(Above(us, d, i), Above(us, d, j)))
  }

  /** The subslabs ts hold the groups g, and their entries point back at them. */
  ghost predicate Rung(ts: seq<Subslab>, g: seq<seq<Subslab>>, us: seq<Subslab>)
    reads ts`ss_next, ts`ss_prev, ts`ss_elems, set t <- ts :: t.ss_subs
    reads us`ss_below
  {
    && SubLinked(ts) && |g| == |ts|
    && (forall j :: 0 <= j < |ts| ==> ts[j].SubKids(g[j]))
    && (forall j, k {:trigger g[j][k]} :: 0 <= j < |g| && 0 <= k < |g[j]| ==> g[j][k] in us && g[j][k].ss_below == ts[j])
  }

  /** The list ends with this layer. */
  ghost predicate Bottom(ts: seq<Subslab>)
    reads ts`ss_below
  {
    forall j :: 0 <= j < |ts| ==> ts[j].ss_below == null
  }

  /** The pointers between the layers. */
  ghost predicate Rungs(us: seq<Subslab>, d: Deep)
    reads us`ss_below, d.all`ss_below, d.all`ss_next, d.all`ss_prev, d.all`ss_elems, set t <- d.all :: t.ss_subs
  {
    && Shape(us, d)
    && (forall i :: 0 <= i < |d.cs| ==> Rung(d.cs[i], d.gs[i], Above(us, d, i)))
    && Bottom(Above(us, d, |d.cs|))
  }

  /* ---- the way down the holders ---- */

  /** hh[0] is an index in the first sublayer, hh[1] that of its holder, and so on down to the base. */
  ghost predicate Trail(us: seq<Subslab>, d: Deep, hh: seq<nat>) {
    && |hh| == |d.cs| + 1 && |d.gs| == |d.cs|
    && (forall i :: 0 <= i < |hh| ==> hh[i] < |Above(us, d, i)|)
    && (forall i :: 0 <= i < |d.cs| ==> hh[i + 1] < |d.gs[i]| && Above(us, d, i)[hh[i]] in d.gs[i][hh[i + 1]])
  }

  ghost function PathOf(us: seq<Subslab>, d: Deep, hh: seq<nat>): (ps: seq<Subslab>)
    requires Trail(us, d, hh)
    ensures |ps| == |hh|
  {
    seq(|hh|, i requires 0 <= i < |hh| => Above(us, d, i)[hh[i]])
  }

  /** The holder of one subslab. */
  lemma {:induction false} HolderIndex(us: seq<Subslab>, d: Deep, i: nat, h: nat) returns (a: nat)
    requires Shape(us, d) && i < |d.cs| && h < |Above(us, d, i)|
    ensures a < |d.gs[i]| == |d.cs[i]| && Above(us, d, i)[h] in d.gs[i][a]
  {
    hide SubDistinct, NoneShared, GroupsOk, Flatten;
    ghost var b;
    a, b := Locate(d.gs[i], h);
  }

  lemma {:induction false} TrailFrom(us: seq<Subslab>, d: Deep, h: nat) returns (hh: seq<nat>)
    requires Shape(us, d) && h < |us|
    ensures Trail(us, d, hh) && hh[0] == h
  {
    hide Shape, Above;
    ShapeLengths(us, d);
    hh := [h];
    while |hh| <= |d.cs|
      invariant 1 <= |hh| <= |d.cs| + 1 && hh[0] == h
      invariant forall i :: 0 <= i < |hh| ==> hh[i] < |Above(us, d, i)|
      invariant forall i :: 0 <= i < |hh| - 1 ==> hh[i + 1] < |d.gs[i]| && Above(us, d, i)[hh[i]] in d.gs[i][hh[i + 1]]
      decreases |d.cs| - |hh|
    {
      var i := |hh| - 1;
      var a := HolderIndex(us, d, i, hh[i]);
      hh := hh + [a];
    }
  }

  lemma ShapeLengths(us: seq<Subslab>, d: Deep)
    requires Shape(us, d)
    ensures |d.gs| == |d.cs| && Above(us, d, 0) == us
    ensures forall i :: 0 <= i < |d.cs| ==> |Above(us, d, i + 1)| == |d.gs[i]| == |d.cs[i]|
  {
    hide SubDistinct, NoneShared, GroupsOk, Flatten;
  }

  lemma RungAt(us: seq<Subslab>, d: Deep, i: nat)
    requires Rungs(us, d) && i < |d.cs|
    ensures |d.gs| == |d.cs| && Rung(d.cs[i], d.gs[i], Above(us, d, i)) && Above(us, d, i + 1) == d.cs[i]
  {
    hide SubDistinct, NoneShared, GroupsOk, Flatten, Rung;
  }

  lemma BottomAt(us: seq<Subslab>, d: Deep, h: nat)
    requires Rungs(us, d) && h < |Above(us, d, |d.cs|)|
    ensures Above(us, d, |d.cs|)[h].ss_below == null
  {
    hide SubDistinct, NoneShared, GroupsOk, Flatten, Rung, Shape;
  }

  lemma RungHolds(ts: seq<Subslab>, g: seq<seq<Subslab>>, us: seq<Subslab>, j: nat, t: Subslab)
    requires Rung(ts, g, us) && j < |g| && t in g[j]
    ensures j < |ts| && t in us && t.ss_below == ts[j]
  {
    hide SubLinked, Subslab.SubKids;
  }

  /** Every subslab on the way points at the next one. */
  lemma {:induction false} PathDown(us: seq<Subslab>, d: Deep, hh: seq<nat>)
    requires Rungs(us, d) && Trail(us, d, hh)
    ensures var ps := PathOf(us, d, hh);
      && (forall i :: 0 <= i < |d.cs| ==> ps[i].ss_below == ps[i + 1])
      && ps[|d.cs|].ss_below == null
  {
    hide Rungs, Rung, Above;
    var ps := PathOf(us, d, hh);
    forall i | 0 <= i < |d.cs| ensures ps[i].ss_below == ps[i + 1] {
      RungAt(us, d, i);
      RungHolds(d.cs[i], d.gs[i], Above(us, d, i), hh[i + 1], ps[i]);
    }
    BottomAt(us, d, hh[|d.cs|]);
  }

  lemma LayersApart(us: seq<Subslab>, d: Deep, i: nat, j: nat)
    requires Shape(us, d) && i <= |d.cs| && j <= |d.cs| && i != j
    ensures forall a, b :: 0 <= a < |Above(us, d, i)| && 0 <= b < |Above(us, d, j)| ==> Above(us, d, i)[a] != Above(us, d, j)[b]
  {
    hide SubDistinct, GroupsOk, Flatten, Above;
    assert NoneShared(Above(us, d, if i < j then i else j), Above(us, d, if i < j then j else i));
  }

  lemma {:induction false} PathNoDup(us: seq<Subslab>, d: Deep, hh: seq<nat>)
    requires Shape(us, d) && Trail(us, d, hh)
    ensures NoDup(PathOf(us, d, hh))
  {
    hide SubDistinct, GroupsOk, Flatten, Shape;
    var ps := PathOf(us, d, hh);
    forall i, j | 0 <= i < j < |ps| ensures ps[i] != ps[j] {
      LayersApart(us, d, i, j);
    }
  }

  /** ripple_inc_usr_elems. */
  method RippleIncUsrElems(found: Subslab, ghost ps: seq<Subslab>)
    requires ps != [] && found == ps[0] && NoDup(ps) && ps[|ps| - 1].ss_below == null
    requires forall i :: 0 <= i < |ps| - 1 ==> ps[i].ss_below == ps[i + 1]
    modifies ps`ss_usr_elems
    ensures forall i :: 0 <= i < |ps| ==> ps[i].ss_usr_elems == old(ps[i].ss_usr_elems) + 1
  {
    var q: Subslab? := found;
    ghost var i := 0;
    while q != null
      invariant i <= |ps| && q == if i < |ps| then ps[i] else null
      invariant forall k :: 0 <= k < i ==> ps[k].ss_usr_elems == old(ps[k].ss_usr_elems) + 1
      invariant forall k :: i <= k < |ps| ==> ps[k].ss_usr_elems == old(ps[k].ss_usr_elems)
      decreases |ps| - i
    {
      q.ss_usr_elems := q.ss_usr_elems + 1;
      q := q.ss_below;
      i := i + 1;
    }
  }

  /** Two ways down that meet right after ps and qs, or not at all. */
  ghost predicate Meet(s: Subslab, q: Subslab, ps: seq<Subslab>, qs: seq<Subslab>)
    reads ps`ss_below, qs`ss_below
  {
    && |ps| == |qs| > 0 && ps[0] == s && qs[0] == q && NoDup(ps + qs)
    && (forall i :: 0 <= i < |ps| - 1 ==> ps[i].ss_below == ps[i + 1] && qs[i].ss_below == qs[i + 1])
    && ps[|ps| - 1].ss_below == qs[|qs| - 1].ss_below
  }

  lemma MeetApart(s: Subslab, q: Subslab, ps: seq<Subslab>, qs: seq<Subslab>)
    requires Meet(s, q, ps, qs)
    ensures NoDup(ps) && NoDup(qs) && forall i, k :: 0 <= i < |ps| && 0 <= k < |qs| ==> ps[i] != qs[k]
  {
    var x := ps + qs;
    assert forall i :: 0 <= i < |ps| ==> ps[i] == x[i];
    assert forall k :: 0 <= k < |qs| ==> qs[k] == x[|ps| + k];
  }

  /** The last loop of sub_addsn and sub_addsp: the counts of a moved entry go from s to q, and so on
      down both ways until they meet. */
  method MoveUsrElems(s: Subslab, q: Subslab, diff: nat, ghost ps: seq<Subslab>, ghost qs: seq<Subslab>) returns (common: Subslab?)
    requires Meet(s, q, ps, qs) && forall i :: 0 <= i < |ps| ==> ps[i].ss_usr_elems >= diff
    modifies ps`ss_usr_elems, qs`ss_usr_elems
    ensures forall i :: 0 <= i < |ps| ==>
      ps[i].ss_usr_elems == old(ps[i].ss_usr_elems) - diff && qs[i].ss_usr_elems == old(qs[i].ss_usr_elems) + diff
    ensures common == ps[|ps| - 1].ss_below
  {
    MeetApart(s, q, ps, qs);
    var p: Subslab?, r: Subslab? := s, q;
    ghost var i := 0;
    while p != r
      invariant i <= |ps| && p == (if i < |ps| then ps[i] else ps[|ps| - 1].ss_below)
      invariant r == if i < |ps| then qs[i] else qs[|qs| - 1].ss_below
      invariant forall k :: 0 <= k < i ==>
        ps[k].ss_usr_elems == old(ps[k].ss_usr_elems) - diff && qs[k].ss_usr_elems == old(qs[k].ss_usr_elems) + diff
      invariant forall k :: i <= k < |ps| ==>
        ps[k].ss_usr_elems == old(ps[k].ss_usr_elems) && qs[k].ss_usr_elems == old(qs[k].ss_usr_elems)
      decreases |ps| - i
    {
      p.ss_usr_elems := p.ss_usr_elems - diff;
      r.ss_usr_elems := r.ss_usr_elems + diff;
      p := p.ss_below;
      r := r.ss_below;
      i := i + 1;
    }
    common := p;
  }

  /* ---- counts ---- */

  /** The counts of all subslabs. */
  ghost function CountMap(us: seq<Subslab>, d: Deep): map<Subslab, nat>
    reads us`ss_usr_elems, d.all`ss_usr_elems
  {
    map t | t in (set x | x in us) + d.all :: t.ss_usr_elems
  }

  /** Every count is the sum of the counts in the group. */
  ghost predicate Sums(ts: seq<Subslab>, g: seq<seq<Subslab>>, cnt: map<Subslab, nat>) {
    |g| == |ts| && forall j :: 0 <= j < |ts| ==> SizeAt(cnt, ts[j]) == SumOf(g[j], cnt)
  }

  /** The counts of the deeper layers are sums of those of the layers above. */
  ghost predicate Counts(us: seq<Subslab>, d: Deep)
    reads us`ss_usr_elems, d.all`ss_usr_elems
  {
    |d.gs| == |d.cs| && forall i :: 0 <= i < |d.cs| ==> Sums(d.cs[i], d.gs[i], CountMap(us, d))
  }

  lemma {:induction false} SumSame<T>(ks: seq<T>, c0: map<T, nat>, c1: map<T, nat>)
    requires forall k :: 0 <= k < |ks| ==> SizeAt(c0, ks[k]) == SizeAt(c1, ks[k])
    ensures SumOf(ks, c0) == SumOf(ks, c1)
  {
    if ks != [] {
      SumSame(ks[1..], c0, c1);
    }
  }

  lemma {:induction false} SumMember<T>(ks: seq<T>, b: nat, c: map<T, nat>)
    requires b < |ks|
    ensures SizeAt(c, ks[b]) <= SumOf(ks, c)
  {
    if b > 0 {
      SumMember(ks[1..], b - 1, c);
    }
  }

  /** A change of one entry, carried on to its holder. */
  lemma {:induction false} SumsChanged(ts: seq<Subslab>, g: seq<seq<Subslab>>, h: nat, b: nat, v: int, c0: map<Subslab, nat>, c1: map<Subslab, nat>)
    requires Sums(ts, g, c0) && h < |g| && b < |g[h]| && NoDup(Flatten(g)) && NoDup(ts)
    requires forall j, k {:trigger g[j][k]} :: 0 <= j < |g| && 0 <= k < |g[j]| ==>
      SizeAt(c1, g[j][k]) == SizeAt(c0, g[j][k]) + if g[j][k] == g[h][b] then v else 0
    requires forall j :: 0 <= j < |ts| ==> SizeAt(c1, ts[j]) == SizeAt(c0, ts[j]) + if j == h then v else 0
    ensures Sums(ts, g, c1)
  {
    hide Flatten, NoDup, SumOf, SizeAt;
    var x := g[h][b];
    forall j | 0 <= j < |ts| && j != h ensures SumOf(g[j], c1) == SumOf(g[j], c0) {
      NotInOther(g, h, b, j);
      SumSame(g[j], c0, c1);
    }
    GroupNoDup(g, h);
    var w: nat := SizeAt(c1, x);
    SumChanged(g[h], c0, b, w);
    SizeSet(c0, x, w);
    SumSame(g[h], c0[x := w], c1);
  }

  lemma SizeSet<T>(c: map<T, nat>, x: T, w: nat)
    ensures SizeAt(c[x := w], x) == w && forall y :: y != x ==> SizeAt(c[x := w], y) == SizeAt(c, y)
  {
  }

  lemma CountAt(us: seq<Subslab>, d: Deep)
    ensures forall t :: t in us || t in d.all ==> SizeAt(CountMap(us, d), t) == t.ss_usr_elems
  {
  }

  lemma NoDupAt<T>(s: seq<T>, a: nat, b: nat)
    requires NoDup(s) && a < |s| && b < |s|
    ensures a == b <==> s[a] == s[b]
  {
  }

  lemma ShapeNoDup(us: seq<Subslab>, d: Deep, i: nat)
    requires Shape(us, d) && i <= |d.cs|
    ensures NoDup(Above(us, d, i))
  {
    hide GroupsOk, Flatten, NoneShared;
    assert SubDistinct(Above(us, d, i));
  }

  /** The way passes one subslab in each layer. */
  lemma {:induction false} PathPlace(us: seq<Subslab>, d: Deep, hh: seq<nat>, i: nat, a: nat)
    requires Shape(us, d) && Trail(us, d, hh) && i <= |d.cs| && a < |Above(us, d, i)|
    ensures var x := Above(us, d, i)[a]; (x in us || x in d.all) && (x in PathOf(us, d, hh) <==> a == hh[i])
  {
    hide Shape, Above, NoDup;
    var ps := PathOf(us, d, hh);
    var x := Above(us, d, i)[a];
    ShapeNoDup(us, d, i);
    NoDupAt(Above(us, d, i), a, hh[i]);
    AboveIn(us, d, i, a);
    if x in ps {
      var k :| 0 <= k < |ps| && ps[k] == x;
      if k != i {
        LayersApart(us, d, k, i);
      }
    } else {
      assert ps[i] == Above(us, d, i)[hh[i]];
    }
  }

  lemma AboveIn(us: seq<Subslab>, d: Deep, i: nat, a: nat)
    requires Shape(us, d) && i <= |d.cs| && a < |Above(us, d, i)|
    ensures Above(us, d, i)[a] in us || Above(us, d, i)[a] in d.all
  {
    hide GroupsOk, Flatten, NoneShared, SubDistinct;
  }

  lemma ShapeAt(us: seq<Subslab>, d: Deep, i: nat)
    requires Shape(us, d) && i < |d.cs|
    ensures |d.gs| == |d.cs| && |d.gs[i]| == |d.cs[i]| && Flatten(d.gs[i]) == Above(us, d, i) && GroupsOk(d.gs[i])
    ensures NoDup(Above(us, d, i)) && NoDup(d.cs[i]) && Above(us, d, i + 1) == d.cs[i]
  {
    hide GroupsOk, Flatten, NoneShared;
    assert SubDistinct(Above(us, d, i)) && SubDistinct(Above(us, d, i + 1));
  }

  /** Where the way passes layer i, in the terms of the groups of the next layer. */
  lemma {:induction false} PathEntry(us: seq<Subslab>, d: Deep, hh: seq<nat>, i: nat) returns (b: nat)
    requires Shape(us, d) && Trail(us, d, hh) && i < |d.cs|
    ensures hh[i + 1] < |d.gs[i]| && b < |d.gs[i][hh[i + 1]]| && d.gs[i][hh[i + 1]][b] == PathOf(us, d, hh)[i]
  {
    hide Shape, Above;
    var x := PathOf(us, d, hh)[i];
    b :| 0 <= b < |d.gs[i][hh[i + 1]]| && d.gs[i][hh[i + 1]][b] == x;
  }

  /** An entry of a group stands in the layer above. */
  lemma {:induction false} EntryAbove(us: seq<Subslab>, d: Deep, i: nat, j: nat, k: nat) returns (a: nat)
    requires Shape(us, d) && i < |d.cs| && j < |d.gs[i]| && k < |d.gs[i][j]|
    ensures a < |Above(us, d, i)| && Above(us, d, i)[a] == d.gs[i][j][k]
  {
    hide Shape, Above, Flatten, GroupsOk;
    ShapeAt(us, d, i);
    FlattenIndex(d.gs[i], j, k);
    a := |Flatten(d.gs[i][..j])| + k;
  }

  lemma {:induction false} LevelIncreased(us: seq<Subslab>, d: Deep, hh: seq<nat>, i: nat, c0: map<Subslab, nat>, c1: map<Subslab, nat>)
    requires Shape(us, d) && Trail(us, d, hh) && i < |d.cs| && Sums(d.cs[i], d.gs[i], c0)
    requires forall t :: t in us || t in d.all ==> SizeAt(c1, t) == SizeAt(c0, t) + if t in PathOf(us, d, hh) then 1 else 0
    ensures Sums(d.cs[i], d.gs[i], c1)
  {
    hide Shape, Trail, Above, Flatten, GroupsOk, Sums, SumOf, SizeAt, NoDup, PathOf;
    ShapeAt(us, d, i);
    PathStart(us, d, hh);
    var b := PathEntry(us, d, hh, i);
    var ps, g, h := PathOf(us, d, hh), d.gs[i], hh[i + 1];
    forall j, k | 0 <= j < |g| && 0 <= k < |g[j]|
      ensures SizeAt(c1, g[j][k]) == SizeAt(c0, g[j][k]) + if g[j][k] == g[h][b] then 1 else 0
    {
      EntryOnPath(us, d, hh, i, j, k);
    }
    forall j | 0 <= j < |d.cs[i]| ensures SizeAt(c1, d.cs[i][j]) == SizeAt(c0, d.cs[i][j]) + if j == h then 1 else 0 {
      PathPlace(us, d, hh, i + 1, j);
    }
    SumsChanged(d.cs[i], g, h, b, 1, c0, c1);
  }

  /** Only the entry of layer i that the way passes is on the way. */
  lemma {:induction false} EntryOnPath(us: seq<Subslab>, d: Deep, hh: seq<nat>, i: nat, j: nat, k: nat)
    requires Shape(us, d) && Trail(us, d, hh) && i < |d.cs| && j < |d.gs[i]| && k < |d.gs[i][j]|
    ensures var x, ps := d.gs[i][j][k], PathOf(us, d, hh);
      (x in us || x in d.all) && (x in ps <==> x == ps[i])
  {
    hide Shape, Above, Flatten, GroupsOk, NoDup;
    PathStart(us, d, hh);
    ShapeAt(us, d, i);
    var a := EntryAbove(us, d, i, j, k);
    PathPlace(us, d, hh, i, a);
    assert a == hh[i] <==> Above(us, d, i)[a] == Above(us, d, i)[hh[i]] by {
      NoDupAt(Above(us, d, i), a, hh[i]);
    }
  }

  /** ripple_inc_usr_elems from a subslab of the first sublayer. */
  method CountDown(found: Subslab, ghost us: seq<Subslab>, ghost d: Deep, ghost h: nat)
    requires Rungs(us, d) && Counts(us, d) && h < |us| && found == us[h]
    modifies us`ss_usr_elems, d.all`ss_usr_elems
    ensures Counts(us, d) && found.ss_usr_elems == old(found.ss_usr_elems) + 1
    ensures forall i :: 0 <= i < |us| && i != h ==> us[i].ss_usr_elems == old(us[i].ss_usr_elems)
  {
    hide Shape, Trail, Above, Rung, Sums, CountMap, PathOf, SizeAt;
    ghost var c0 := CountMap(us, d);
    CountAt(us, d);
    ghost var hh := TrailFrom(us, d, h);
    ghost var ps := PathOf(us, d, hh);
    PathStart(us, d, hh);
    PathDown(us, d, hh);
    PathNoDup(us, d, hh);
    PathIn(us, d, hh);
    RippleIncUsrElems(found, ps);
    ghost var c1 := CountMap(us, d);
    CountAt(us, d);
    forall i | 0 <= i < |d.cs| ensures Sums(d.cs[i], d.gs[i], c1) {
      LevelIncreased(us, d, hh, i, c0, c1);
    }
    forall i | 0 <= i < |us| && i != h ensures us[i].ss_usr_elems == old(us[i].ss_usr_elems) {
      PathAtTop(us, d, hh, i);
    }
  }

  lemma PathStart(us: seq<Subslab>, d: Deep, hh: seq<nat>)
    requires Trail(us, d, hh)
    ensures |hh| == |d.cs| + 1 && hh[0] < |us| && PathOf(us, d, hh)[0] == us[hh[0]]
  {
  }

  lemma PathAtTop(us: seq<Subslab>, d: Deep, hh: seq<nat>, i: nat)
    requires Shape(us, d) && Trail(us, d, hh) && i < |us|
    ensures us[i] in PathOf(us, d, hh) <==> i == hh[0]
  {
    hide Shape, PathOf, Trail;
    PathPlace(us, d, hh, 0, i);
  }

  lemma {:induction false} PathIn(us: seq<Subslab>, d: Deep, hh: seq<nat>)
    requires Shape(us, d) && Trail(us, d, hh)
    ensures forall i :: 0 <= i < |hh| ==> PathOf(us, d, hh)[i] in us || PathOf(us, d, hh)[i] in d.all
    ensures forall i :: 1 <= i < |hh| ==> PathOf(us, d, hh)[i] in d.all
  {
    hide GroupsOk, Flatten, NoneShared, SubDistinct;
  }

  /** Two ways meet at layer c, counted from the first sublayer, or nowhere above the base. */
  ghost predicate MeetsAt(ha: seq<nat>, hb: seq<nat>, c: nat) {
    && |ha| == |hb| && 0 < c <= |ha|
    && (forall i :: 0 <= i < c ==> ha[i] != hb[i])
    && (c < |ha| ==> ha[c] == hb[c])
  }

  lemma {:induction false} FirstMeeting(ha: seq<nat>, hb: seq<nat>) returns (c: nat)
    requires |ha| == |hb| > 0 && ha[0] != hb[0]
    ensures MeetsAt(ha, hb, c)
  {
    c := 1;
    while c < |ha| && ha[c] != hb[c]
      invariant 1 <= c <= |ha| && forall i :: 0 <= i < c ==> ha[i] != hb[i]
    {
      c := c + 1;
    }
  }

  lemma {:induction false} PathsApart(us: seq<Subslab>, d: Deep, ha: seq<nat>, hb: seq<nat>, c: nat)
    requires Shape(us, d) && Trail(us, d, ha) && Trail(us, d, hb) && MeetsAt(ha, hb, c)
    ensures NoDup(PathOf(us, d, ha)[..c] + PathOf(us, d, hb)[..c])
  {
    hide Shape, Above;
    var pa, pb := PathOf(us, d, ha), PathOf(us, d, hb);
    var x := pa[..c] + pb[..c];
    PathNoDup(us, d, ha);
    PathNoDup(us, d, hb);
    forall i, k | 0 <= i < c && 0 <= k < c ensures pa[i] != pb[k] {
      PathPlace(us, d, hb, i, ha[i]);
      assert pb[k] in pb;
    }
    forall i, j | 0 <= i < j < |x| ensures x[i] != x[j] {
      assert x[i] == if i < c then pa[i] else pb[i - c];
      assert x[j] == if j < c then pa[j] else pb[j - c];
    }
  }

  /** The counts grow along the way. */
  lemma {:induction false} PathCounts(us: seq<Subslab>, d: Deep, hh: seq<nat>, i: nat)
    requires Shape(us, d) && Trail(us, d, hh) && Counts(us, d) && i <= |d.cs|
    ensures PathOf(us, d, hh)[i].ss_usr_elems >= PathOf(us, d, hh)[0].ss_usr_elems
  {
    hide Shape, Above, SumOf, SizeAt, CountMap;
    if i > 0 {
      PathCounts(us, d, hh, i - 1);
      var c := CountMap(us, d);
      CountAt(us, d);
      PathIn(us, d, hh);
      var b := PathEntry(us, d, hh, i - 1);
      assert Sums(d.cs[i - 1], d.gs[i - 1], c);
      SumMember(d.gs[i - 1][hh[i]], b, c);
      ShapeAt(us, d, i - 1);
    }
  }

  /** Two subslabs of the first sublayer and their ways down to where they meet. */
  lemma {:induction false} WaysMeet(us: seq<Subslab>, d: Deep, a: nat, b: nat) returns (ha: seq<nat>, hb: seq<nat>, c: nat)
    requires Rungs(us, d) && Counts(us, d) && a < |us| && b < |us| && a != b
    ensures Trail(us, d, ha) && Trail(us, d, hb) && ha[0] == a && hb[0] == b && MeetsAt(ha, hb, c)
    ensures Meet(us[a], us[b], PathOf(us, d, ha)[..c], PathOf(us, d, hb)[..c])
    ensures forall i :: 0 <= i < c ==> PathOf(us, d, ha)[i].ss_usr_elems >= us[a].ss_usr_elems
    ensures forall i :: 1 <= i < c ==> PathOf(us, d, ha)[i] in d.all && PathOf(us, d, hb)[i] in d.all
  {
    hide Shape, Above, Rung, Trail, Counts, PathOf;
    ha := TrailFrom(us, d, a);
    hb := TrailFrom(us, d, b);
    PathStart(us, d, ha);
    PathStart(us, d, hb);
    c := FirstMeeting(ha, hb);
    PathsApart(us, d, ha, hb, c);
    PathDown(us, d, ha);
    PathDown(us, d, hb);
    forall i | 0 <= i < c ensures PathOf(us, d, ha)[i].ss_usr_elems >= us[a].ss_usr_elems {
      PathCounts(us, d, ha, i);
    }
    PathIn(us, d, ha);
    PathIn(us, d, hb);
    if c < |ha| {
      PathSame(us, d, ha, hb, c);
    }
  }

  lemma PathSame(us: seq<Subslab>, d: Deep, ha: seq<nat>, hb: seq<nat>, i: nat)
    requires Trail(us, d, ha) && Trail(us, d, hb) && i <= |d.cs| && ha[i] == hb[i]
    ensures PathOf(us, d, ha)[i] == PathOf(us, d, hb)[i]
  {
  }

  /** Counts that have moved from entry b1 of group h1 to entry b2 of group h2, and between the holders. */
  lemma {:induction false} SumsMoved(ts: seq<Subslab>, g: seq<seq<Subslab>>, h1: nat, b1: nat, h2: nat, b2: nat, diff: nat, c0: map<Subslab, nat>, c1: map<Subslab, nat>)
    requires Sums(ts, g, c0) && NoDup(Flatten(g)) && NoDup(ts)
    requires h1 < |g| && b1 < |g[h1]| && h2 < |g| && b2 < |g[h2]| && SizeAt(c0, g[h1][b1]) >= diff && g[h1][b1] != g[h2][b2]
    requires forall j, k, a {:trigger g[j][k], ts[a]} :: 0 <= j < |g| && 0 <= k < |g[j]| && 0 <= a < |ts| ==> g[j][k] != ts[a]
    requires forall j, k {:trigger g[j][k]} :: 0 <= j < |g| && 0 <= k < |g[j]| ==>
      SizeAt(c1, g[j][k]) == SizeAt(c0, g[j][k]) - (if g[j][k] == g[h1][b1] then diff else 0) + (if g[j][k] == g[h2][b2] then diff else 0)
    requires forall j :: 0 <= j < |ts| ==>
      SizeAt(c1, ts[j]) == SizeAt(c0, ts[j]) - (if j == h1 then diff else 0) + (if j == h2 then diff else 0)
    ensures Sums(ts, g, c1)
  {
    hide Flatten, NoDup, SumOf, SizeAt, Sums;
    SumsAt(ts, g, c0, h1);
    var x, t := g[h1][b1], ts[h1];
    SumMember(g[h1], b1, c0);
    var v: int := diff;
    var w: nat := SizeAt(c0, x) - diff;
    var u: nat := SizeAt(c0, t) - diff;
    var cm := c0[x := w][t := u];
    SizeSet(c0, x, w);
    SizeSet(c0[x := w], t, u);
    forall j | 0 <= j < |ts| ensures SizeAt(cm, ts[j]) == SizeAt(c0, ts[j]) - if j == h1 then diff else 0 {
      NoDupAt(ts, j, h1);
    }
    SumsChanged(ts, g, h1, b1, -v, c0, cm);
    SumsChanged(ts, g, h2, b2, diff, cm, c1);
  }

  lemma SumsAt(ts: seq<Subslab>, g: seq<seq<Subslab>>, c: map<Subslab, nat>, j: nat)
    requires Sums(ts, g, c) && j < |g|
    ensures |ts| == |g| && SizeAt(c, ts[j]) == SumOf(g[j], c)
  {
  }

  lemma SumsKept(ts: seq<Subslab>, g: seq<seq<Subslab>>, c0: map<Subslab, nat>, c1: map<Subslab, nat>)
    requires Sums(ts, g, c0)
    requires forall j, k {:trigger g[j][k]} :: 0 <= j < |g| && 0 <= k < |g[j]| ==> SizeAt(c1, g[j][k]) == SizeAt(c0, g[j][k])
    requires forall j :: 0 <= j < |ts| ==> SizeAt(c1, ts[j]) == SizeAt(c0, ts[j])
    ensures Sums(ts, g, c1)
  {
    forall j | 0 <= j < |ts| ensures SumOf(g[j], c1) == SumOf(g[j], c0) {
      SumSame(g[j], c0, c1);
    }
  }

  /** One layer after the counts have moved from one way to the other. */
  lemma {:induction false} LevelMoved(us: seq<Subslab>, d: Deep, ha: seq<nat>, hb: seq<nat>, c: nat, i: nat, diff: nat, c0: map<Subslab, nat>, c1: map<Subslab, nat>)
    requires Shape(us, d) && Trail(us, d, ha) && Trail(us, d, hb) && MeetsAt(ha, hb, c) && i < |d.cs|
    requires Sums(d.cs[i], d.gs[i], c0) && forall k :: 0 <= k < c ==> SizeAt(c0, PathOf(us, d, ha)[k]) >= diff
    requires forall t :: t in us || t in d.all ==>
      SizeAt(c1, t) == SizeAt(c0, t) - (if t in PathOf(us, d, ha)[..c] then diff else 0) + (if t in PathOf(us, d, hb)[..c] then diff else 0)
    ensures Sums(d.cs[i], d.gs[i], c1)
  {
    hide Shape, Trail, Above, Flatten, GroupsOk, Sums, SumOf, SizeAt, NoDup, PathOf;
    ShapeAt(us, d, i);
    PathStart(us, d, ha);
    PathStart(us, d, hb);
    var pa, pb, g := PathOf(us, d, ha), PathOf(us, d, hb), d.gs[i];
    var b1 := PathEntry(us, d, ha, i);
    var b2 := PathEntry(us, d, hb, i);
    forall j, k | 0 <= j < |g| && 0 <= k < |g[j]|
      ensures g[j][k] in us || g[j][k] in d.all
      ensures g[j][k] in pa[..c] <==> i < c && g[j][k] == pa[i]
      ensures g[j][k] in pb[..c] <==> i < c && g[j][k] == pb[i]
    {
      EntryBefore(us, d, ha, i, j, k, c);
      EntryBefore(us, d, hb, i, j, k, c);
    }
    forall j | 0 <= j < |d.cs[i]|
      ensures d.cs[i][j] in us || d.cs[i][j] in d.all
      ensures d.cs[i][j] in pa[..c] <==> i + 1 < c && j == ha[i + 1]
      ensures d.cs[i][j] in pb[..c] <==> i + 1 < c && j == hb[i + 1]
    {
      PathBefore(us, d, ha, i + 1, j, c);
      PathBefore(us, d, hb, i + 1, j, c);
    }
    if i < c {
      assert i + 1 == c ==> ha[i + 1] == hb[i + 1];
      LevelsApart(us, d, i);
      PathsDiffer(us, d, ha, hb, i);
      SumsMoved(d.cs[i], g, ha[i + 1], b1, hb[i + 1], b2, diff, c0, c1);
    } else {
      SumsKept(d.cs[i], g, c0, c1);
    }
  }

  lemma PathsDiffer(us: seq<Subslab>, d: Deep, ha: seq<nat>, hb: seq<nat>, i: nat)
    requires Shape(us, d) && Trail(us, d, ha) && Trail(us, d, hb) && i < |d.cs| && ha[i] != hb[i]
    ensures PathOf(us, d, ha)[i] != PathOf(us, d, hb)[i]
  {
    hide Shape, Above;
    ShapeAt(us, d, i);
  }

  lemma {:induction false} LevelsApart(us: seq<Subslab>, d: Deep, i: nat)
    requires Shape(us, d) && i < |d.cs|
    ensures forall j, k, a {:trigger d.gs[i][j][k], d.cs[i][a]} ::
      0 <= j < |d.gs[i]| && 0 <= k < |d.gs[i][j]| && 0 <= a < |d.cs[i]| ==> d.gs[i][j][k] != d.cs[i][a]
  {
    hide Shape, Above;
    ShapeAt(us, d, i);
    LayersApart(us, d, i, i + 1);
    forall j, k, a | 0 <= j < |d.gs[i]| && 0 <= k < |d.gs[i][j]| && 0 <= a < |d.cs[i]| ensures d.gs[i][j][k] != d.cs[i][a] {
      var b := EntryAbove(us, d, i, j, k);
    }
  }

  /** The part of a way before layer c. */
  lemma {:induction false} PathBefore(us: seq<Subslab>, d: Deep, hh: seq<nat>, i: nat, a: nat, c: nat)
    requires Shape(us, d) && Trail(us, d, hh) && i <= |d.cs| && a < |Above(us, d, i)| && c <= |hh|
    ensures var x := Above(us, d, i)[a]; (x in us || x in d.all) && (x in PathOf(us, d, hh)[..c] <==> i < c && a == hh[i])
  {
    hide Shape, Above;
    PathPlace(us, d, hh, i, a);
    var x, ps := Above(us, d, i)[a], PathOf(us, d, hh);
    assert i < c ==> ps[..c][i] == ps[i];
    if x in ps[..c] {
      var k :| 0 <= k < c && ps[k] == x;
      assert x in ps;
      PathNoDup(us, d, hh);
      assert x == ps[i];
    }
  }

  lemma {:induction false} EntryBefore(us: seq<Subslab>, d: Deep, hh: seq<nat>, i: nat, j: nat, k: nat, c: nat)
    requires Shape(us, d) && Trail(us, d, hh) && i < |d.cs| && j < |d.gs[i]| && k < |d.gs[i][j]| && c <= |hh|
    ensures var x, ps := d.gs[i][j][k], PathOf(us, d, hh);
      (x in us || x in d.all) && (x in ps[..c] <==> i < c && x == ps[i])
  {
    hide Shape, Above, Flatten, GroupsOk, NoDup;
    PathStart(us, d, hh);
    ShapeAt(us, d, i);
    var a := EntryAbove(us, d, i, j, k);
    PathBefore(us, d, hh, i, a, c);
    assert a == hh[i] <==> Above(us, d, i)[a] == Above(us, d, i)[hh[i]] by {
      NoDupAt(Above(us, d, i), a, hh[i]);
    }
  }

  /** The counts are right after they have moved from one way to the other. */
  lemma {:induction false} MovedCounts(us: seq<Subslab>, d: Deep, ha: seq<nat>, hb: seq<nat>, c: nat, diff: nat, c0: map<Subslab, nat>)
    requires Shape(us, d) && Trail(us, d, ha) && Trail(us, d, hb) && MeetsAt(ha, hb, c)
    requires forall i :: 0 <= i < |d.cs| ==> Sums(d.cs[i], d.gs[i], c0)
    requires forall k :: 0 <= k < c ==> SizeAt(c0, PathOf(us, d, ha)[k]) >= diff
    requires forall t :: t in us || t in d.all ==>
      t.ss_usr_elems == SizeAt(c0, t) - (if t in PathOf(us, d, ha)[..c] then diff else 0) + (if t in PathOf(us, d, hb)[..c] then diff else 0)
    ensures Counts(us, d)
  {
    hide Shape, Above, Sums, SizeAt, PathOf, CountMap;
    CountAt(us, d);
    forall i | 0 <= i < |d.cs| ensures Sums(d.cs[i], d.gs[i], CountMap(us, d)) {
      LevelMoved(us, d, ha, hb, c, i, diff, c0, CountMap(us, d));
    }
  }
}
