/** Groups of pointers and their concatenation: where the entries stand, and what they add up to. */
module Groups {
  import opened Seqs
  import opened SlabModel

  ghost predicate NoDup<T>(s: seq<T>) {
    forall i, j :: 0 <= i < j < |s| ==> s[i] != s[j]
  }

  ghost predicate Absent<T>(g: seq<seq<T>>, n: T) {
    forall j, k {:trigger g[j][k]} :: 0 <= j < |g| && 0 <= k < |g[j]| ==> g[j][k] != n
  }

  /* ---- positions in the concatenation ---- */

  /** Position in the concatenation of the k-th entry of group j. */
  ghost function Spot<T>(g: seq<seq<T>>, j: nat, k: nat): nat
    requires j <= |g|
  {
    |Flatten(g[..j])| + k
  }

  lemma SpotIs<T>(g: seq<seq<T>>, j: nat, k: nat)
    requires j < |g|
    ensures Spot(g, j, k) == |Flatten(g[..j])| + k
  {
  }

  lemma {:induction false} FlattenIndex<T>(g: seq<seq<T>>, i: nat, k: nat)
    requires i < |g| && k < |g[i]|
    ensures |Flatten(g[..i])| + k < |Flatten(g)|
    ensures Flatten(g)[|Flatten(g[..i])| + k] == g[i][k]
  {
    hide Flatten;
    FlattenAt(g, i);
  }

  lemma {:induction false} SpotNext<T>(g: seq<seq<T>>, j: nat)
    requires j < |g|
    ensures Spot(g, j + 1, 0) == Spot(g, j, 0) + |g[j]|
  {
    FlattenInit(g, j + 1);
  }

  lemma {:induction false} SpotMono<T>(g: seq<seq<T>>, a: nat, j: nat)
    requires a <= j <= |g|
    ensures Spot(g, a, 0) <= Spot(g, j, 0) <= |Flatten(g)|
    ensures a < j ==> Spot(g, a, 0) + |g[a]| <= Spot(g, j, 0)
    decreases j - a
  {
    hide Flatten;
    if a < j {
      SpotNext(g, a);
      SpotMono(g, a + 1, j);
    } else {
      FlattenConcat(g[..j], g[j..]);
      assert g[..j] + g[j..] == g;
    }
  }

  lemma {:induction false} SpotWithin<T>(g: seq<seq<T>>, a: nat, b: nat, i: nat, k: nat)
    requires a < i < |g| && b < |g[a]|
    ensures Spot(g, a, b) < Spot(g, i, k)
  {
    SpotMono(g, a, i);
  }

  lemma SpotStep<T>(g: seq<seq<T>>, a: nat, b: nat)
    requires a < |g|
    ensures Spot(g, a, b + 1) == Spot(g, a, b) + 1
  {
  }

  lemma {:induction false} EndsAt<T>(g: seq<seq<T>>, j: nat)
    requires j < |g| && g[j] != []
    ensures Spot(g, j, 0) < |Flatten(g)| && Flatten(g)[Spot(g, j, 0)] == g[j][0]
    ensures Spot(g, j, |g[j]| - 1) < |Flatten(g)| && Flatten(g)[Spot(g, j, |g[j]| - 1)] == g[j][|g[j]| - 1]
  {
    hide Flatten;
    FlattenIndex(g, j, 0);
    FlattenIndex(g, j, |g[j]| - 1);
  }

  /** The group and offset of the m-th entry of the concatenation. */
  lemma {:induction false} Locate<T>(g: seq<seq<T>>, m: nat) returns (a: nat, b: nat)
    requires m < |Flatten(g)|
    ensures a < |g| && b < |g[a]| && Spot(g, a, b) == m && g[a][b] == Flatten(g)[m]
  {
    if m < |g[0]| {
      a, b := 0, m;
      assert g[..0] == [];
    } else {
      a, b := Locate(g[1..], m - |g[0]|);
      a := a + 1;
      assert g[..a] == [g[0]] + g[1..][..a - 1];
      assert g[..a][1..] == g[1..][..a - 1];
    }
  }

  /** Neighbours in the concatenation are in the same group or in neighbouring groups. */
  lemma {:induction false} NextGroup<T>(g: seq<seq<T>>, a: nat, b: nat, c: nat, d: nat)
    requires a < |g| && b < |g[a]| && c < |g| && d < |g[c]|
    requires forall k :: 0 <= k < |g| ==> g[k] != []
    requires Spot(g, c, d) == Spot(g, a, b) + 1
    ensures (c == a && d == b + 1) || (c == a + 1 && b == |g[a]| - 1 && d == 0)
  {
    hide Flatten;
    if c < a {
      SpotMono(g, c, a);
    } else if c > a {
      SpotNext(g, a);
      SpotMono(g, a + 1, c);
    }
  }

  /** Entries that are at most one apart are in groups that are at most one apart. */
  lemma {:induction false} HoldersNear<T>(g: seq<seq<T>>, m: nat, a: nat, b: nat, c: nat, i: nat, k: nat)
    requires (forall k :: 0 <= k < |g| ==> g[k] != []) && a < |g| && b < |g[a]| && i < |g| && k < |g[i]|
    requires Spot(g, a, b) == m && Spot(g, i, k) == c && m - 1 <= c <= m + 1
    ensures a - 1 <= i <= a + 1
  {
    hide Flatten, Spot;
    if c == m + 1 {
      NextGroup(g, a, b, i, k);
    } else if m == c + 1 {
      NextGroup(g, i, k, a, b);
    } else if a < i {
      SpotWithin(g, a, b, i, k);
    } else if i < a {
      SpotWithin(g, i, k, a, b);
    }
  }

  /** n stands in f at offset d of group j, and the groups hold the rest of f. */
  ghost predicate StandsIn<T>(g: seq<seq<T>>, j: nat, d: nat, n: T, f: seq<T>) {
    j < |g| && d <= |g[j]| && Spot(g, j, d) <= |Flatten(g)| && f == InsertAt(Flatten(g), Spot(g, j, d), n)
  }

  /** Where the entries of the groups stand then. */
  lemma {:induction false} EntryStands<T>(g: seq<seq<T>>, j: nat, d: nat, n: T, f: seq<T>, a: nat, b: nat)
    requires StandsIn(g, j, d, n, f) && a < |g| && b < |g[a]|
    ensures Spot(g, a, b) < |Flatten(g)|
    ensures a < j || (a == j && b < d) ==> Spot(g, a, b) < Spot(g, j, d) && f[Spot(g, a, b)] == g[a][b]
    ensures a > j || (a == j && b >= d) ==> Spot(g, a, b) >= Spot(g, j, d) && f[Spot(g, a, b) + 1] == g[a][b]
  {
    hide Flatten;
    FlattenIndex(g, a, b);
    if a < j {
      SpotMono(g, a, j);
    } else if a > j {
      SpotMono(g, j, a);
    }
  }

  /* ---- concatenations without duplicates ---- */

  lemma {:induction false} GroupNoDup<T>(g: seq<seq<T>>, a: nat)
    requires NoDup(Flatten(g)) && a < |g|
    ensures NoDup(g[a])
  {
    hide Flatten;
    forall i, k | 0 <= i < k < |g[a]| ensures g[a][i] != g[a][k] {
      FlattenIndex(g, a, i);
      FlattenIndex(g, a, k);
    }
  }

  /** In a concatenation without duplicates an entry is in one group only. */
  lemma {:induction false} OneGroup<T>(g: seq<seq<T>>, a: nat, b: nat, c: nat, d: nat)
    requires NoDup(Flatten(g)) && a < c < |g| && b < |g[a]| && d < |g[c]|
    ensures g[a][b] != g[c][d]
  {
    hide Flatten;
    FlattenIndex(g, a, b);
    FlattenIndex(g, c, d);
    SpotMono(g, a, c);
  }

  lemma {:induction false} NotInOther<T>(g: seq<seq<T>>, a: nat, b: nat, c: nat)
    requires NoDup(Flatten(g)) && a < |g| && b < |g[a]| && c < |g| && c != a
    ensures g[a][b] !in g[c]
  {
    hide Flatten, NoDup;
    forall d | 0 <= d < |g[c]| ensures g[a][b] != g[c][d] {
      if a < c {
        OneGroup(g, a, b, c, d);
      } else {
        OneGroup(g, c, d, a, b);
      }
    }
  }

  lemma {:induction false} NoDupRest<T>(f: seq<T>, at: nat, n: T)
    requires at <= |f| && NoDup(InsertAt(f, at, n))
    ensures NoDup(f) && InsertAt(f, at, n)[at] == n
  {
    var r := InsertAt(f, at, n);
    assert forall i :: 0 <= i < |f| ==> f[i] == r[if i < at then i else i + 1];
  }

  lemma InsertedMembers<T>(ss: seq<T>, at: nat, n: T)
    requires at <= |ss|
    ensures forall s :: s in ss ==> s in InsertAt(ss, at, n)
  {
    forall s | s in ss ensures s in InsertAt(ss, at, n) {
      var k :| 0 <= k < |ss| && ss[k] == s;
      assert InsertAt(ss, at, n)[if k < at then k else k + 1] == s;
    }
  }

  /** In a concatenation without duplicates, an entry that is cut off its group is in no group. */
  lemma {:induction false} AbsentAfterCut<T>(g: seq<seq<T>>, j: nat, x: seq<T>, n: T, y: seq<T>)
    requires j < |g| && g[j] == x + [n] + y && NoDup(Flatten(g))
    ensures Absent(g[j := x + y], n)
  {
    hide Flatten;
    FlattenAt(g, j);
    var a, b := Flatten(g[..j]), Flatten(g[j + 1..]);
    var p := |a| + |x|;
    assert Flatten(g)[p] == n;
    var h := g[j := x + y];
    forall i, k | 0 <= i < |h| && 0 <= k < |h[i]| ensures h[i][k] != n {
      if i < j {
        FlattenIndex(g[..j], i, k);
        assert g[..j][i] == h[i];
        assert Flatten(g)[|Flatten(g[..j][..i])| + k] == h[i][k];
      } else if i > j {
        FlattenIndex(g[j + 1..], i - j - 1, k);
        assert g[j + 1..][i - j - 1] == h[i];
        assert Flatten(g)[p + 1 + |y| + |Flatten(g[j + 1..][..i - j - 1])| + k] == h[i][k];
      } else if k < |x| {
        assert Flatten(g)[|a| + k] == h[i][k];
      } else {
        assert Flatten(g)[|a| + k + 1] == h[i][k];
      }
    }
  }

  lemma {:induction false} AbsentCutLast<T>(g: seq<seq<T>>, j: nat)
    requires j < |g| && g[j] != [] && NoDup(Flatten(g))
    ensures Absent(g[j := g[j][..|g[j]| - 1]], g[j][|g[j]| - 1])
  {
    var x := g[j];
    assert x == x[..|x| - 1] + [x[|x| - 1]] + [];
    assert x[..|x| - 1] + [] == x[..|x| - 1];
    AbsentAfterCut(g, j, x[..|x| - 1], x[|x| - 1], []);
  }

  lemma {:induction false} AbsentCutFirst<T>(g: seq<seq<T>>, j: nat)
    requires j < |g| && g[j] != [] && NoDup(Flatten(g))
    ensures Absent(g[j := g[j][1..]], g[j][0])
  {
    var x := g[j];
    assert x == [] + [x[0]] + x[1..];
    assert [] + x[1..] == x[1..];
    AbsentAfterCut(g, j, [], x[0], x[1..]);
  }

  lemma AbsentMoved<T>(g: seq<seq<T>>, n: T, j: nat, i: nat, m: T, x: seq<T>)
    requires Absent(g, n) && j < |g| && i < |g| && m != n
    requires forall k :: 0 <= k < |x| ==> x[k] in g[i] || x[k] == m
    ensures Absent(g[i := x], n)
  {
    var h := g[i := x];
    forall a, b | 0 <= a < |h| && 0 <= b < |h[a]| ensures h[a][b] != n {
      if a == i && x[b] != m {
        var c :| 0 <= c < |g[i]| && g[i][c] == x[b];
      } else if a != i {
        assert h[a][b] == g[a][b];
      }
    }
  }

  /* ---- sums over groups ---- */

  /** The size recorded for s; entries that are not counted yet have none. */
  ghost function SizeAt<T>(sz: map<T, nat>, s: T): nat {
    if s in sz then sz[s] else 0
  }

  ghost function SumOf<T>(ks: seq<T>, sz: map<T, nat>): nat {
    if ks == [] then 0 else SizeAt(sz, ks[0]) + SumOf(ks[1..], sz)
  }

  lemma {:induction false} SumConcat<T>(a: seq<T>, b: seq<T>, sz: map<T, nat>)
    ensures SumOf(a + b, sz) == SumOf(a, sz) + SumOf(b, sz)
  {
    if a == [] {
      assert a + b == b;
    } else {
      assert (a + b)[1..] == a[1..] + b;
      SumConcat(a[1..], b, sz);
    }
  }

  lemma SumOne<T>(n: T, sz: map<T, nat>)
    ensures SumOf([n], sz) == SizeAt(sz, n)
  {
    assert SumOf([n][1..], sz) == 0;
  }

  lemma {:induction false} SumInsert<T>(ks: seq<T>, i: nat, n: T, sz: map<T, nat>)
    requires i <= |ks|
    ensures SumOf(InsertAt(ks, i, n), sz) == SumOf(ks, sz) + SizeAt(sz, n)
  {
    hide SumOf;
    SumConcat(ks[..i] + [n], ks[i..], sz);
    SumConcat(ks[..i], [n], sz);
    SumOne(n, sz);
    assert ks == ks[..i] + ks[i..];
    SumConcat(ks[..i], ks[i..], sz);
  }

  lemma {:induction false} SumCutLast<T>(ks: seq<T>, sz: map<T, nat>)
    requires ks != []
    ensures SumOf(ks, sz) == SumOf(ks[..|ks| - 1], sz) + SizeAt(sz, ks[|ks| - 1])
  {
    assert ks == ks[..|ks| - 1] + [ks[|ks| - 1]];
    SumConcat(ks[..|ks| - 1], [ks[|ks| - 1]], sz);
    SumOne(ks[|ks| - 1], sz);
  }

  lemma {:induction false} SumOther<T>(ks: seq<T>, sz: map<T, nat>, n: T, v: nat)
    requires n !in ks
    ensures SumOf(ks, sz[n := v]) == SumOf(ks, sz)
  {
    if ks != [] {
      SumOther(ks[1..], sz, n, v);
    }
  }

  /** Recording v for the b-th entry instead of what was recorded for it. */
  lemma {:induction false} SumChanged<T>(ks: seq<T>, sz: map<T, nat>, b: nat, v: nat)
    requires NoDup(ks) && b < |ks|
    ensures SumOf(ks, sz[ks[b] := v]) == SumOf(ks, sz) - SizeAt(sz, ks[b]) + v
  {
    if b == 0 {
      SumOther(ks[1..], sz, ks[0], v);
    } else {
      SumChanged(ks[1..], sz, b - 1, v);
    }
  }
}
