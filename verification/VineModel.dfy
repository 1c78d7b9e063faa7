/** bst.c: how a vine is folded into a balanced tree. */
module VineModel {
  import opened Seqs
  import opened Powers
  import opened Trees

  /** The compression of the top 2 * count nodes of a left spine: of each two nodes the lower one stays on
      the spine and takes the upper one as its right child. */
  function Compress<R, C>(t: Tree<R, C>, count: nat): Tree<R, C>
    requires SpineLength(t) >= 2 * count
    decreases count
  {
    if count == 0 then t else
    assert t.Node? && SpineLength(t.left) == SpineLength(t) - 1 && t.left.Node?;
    var u := Lift(t, 0);
    Node(u.ref, Compress(u.left, count - 1), u.key, u.tag, u.right)
  }

  function SpineLength<R, C>(t: Tree<R, C>): nat {
    if t.Leaf? then 0 else 1 + SpineLength(t.left)
  }

  /** The top m nodes of the spine have right subtrees of height h at most; so has what hangs below them. */
  ghost predicate Slim<R, C>(t: Tree<R, C>, m: nat, h: nat) {
    if m == 0 then Height(t) <= h else t.Node? && Height(t.right) <= h && Slim(t.left, m - 1, h)
  }

  lemma {:induction false} SlimLength<R, C>(t: Tree<R, C>, m: nat, h: nat)
    requires Slim(t, m, h)
    ensures SpineLength(t) >= m
  {
    if m > 0 {
      SlimLength(t.left, m - 1, h);
    }
  }

  lemma {:induction false} CompressItems<R, C>(t: Tree<R, C>, count: nat)
    requires SpineLength(t) >= 2 * count
    ensures Items(Compress(t, count)) == Items(t)
    decreases count
  {
    if count > 0 {
      var u := Lift(t, 0);
      LiftItems(t);
      CompressItems(u.left, count - 1);
    }
  }

  lemma {:induction false} LiftItems<R, C>(t: Tree<R, C>)
    requires t.Node? && t.left.Node?
    ensures Items(Lift(t, 0)) == Items(t) && Size(Lift(t, 0)) == Size(t)
  {
    var y := t.left;
    var a, b, c := Items(y.left), Items(y.right), Items(t.right);
    assert Items(t) == (a + [y.key] + b) + [t.key] + c;
    assert Items(Lift(t, 0)) == a + [y.key] + (b + [t.key] + c);
  }

  /** A round of vine_to_tree: a spine of 2 * m + 1 nodes becomes one of m, with subtrees one higher. */
  lemma {:induction false} RoundSlims<R, C>(t: Tree<R, C>, m: nat, h: nat)
    requires Slim(t, 2 * m + 1, h)
    ensures SpineLength(t) >= 2 * m && Slim(Compress(t, m), m, h + 1)
    decreases m
  {
    SlimLength(t, 2 * m + 1, h);
    if m > 0 {
      assert Slim(t.left, 2 * m, h) && Slim(t.left.left, 2 * m - 1, h);
      RoundSlims(t.left.left, m - 1, h);
    } else {
      assert Slim(t.left, 0, h);
    }
  }

  /** The first round: of n nodes without right subtrees, 2 * count are folded. */
  lemma {:induction false} FirstSlims<R, C>(t: Tree<R, C>, n: nat, count: nat)
    requires Slim(t, n, 0) && 2 * count <= n
    ensures SpineLength(t) >= 2 * count && Slim(Compress(t, count), n - count, if count == 0 then 0 else 1)
    ensures Slim(Compress(t, count), n - count, 1)
    decreases count
  {
    SlimLength(t, n, 0);
    if count > 0 {
      assert Slim(t.left, n - 1, 0) && Slim(t.left.left, n - 2, 0);
      FirstSlims(t.left.left, n - 2, count - 1);
    } else {
      SlimHigher(t, n, 0);
    }
  }

  lemma {:induction false} SlimHigher<R, C>(t: Tree<R, C>, m: nat, h: nat)
    requires Slim(t, m, h)
    ensures Slim(t, m, h + 1)
  {
    if m > 0 {
      SlimHigher(t.left, m - 1, h);
    }
  }

  /** A tree holds less than 2^height items. */
  lemma {:induction false} SizeBelow<R, C>(t: Tree<R, C>)
    ensures Size(t) < Pow2(Height(t))
  {
    if t.Node? {
      SizeBelow(t.left);
      SizeBelow(t.right);
      Pow2Mono(Height(t.left), Height(t) - 1);
      Pow2Mono(Height(t.right), Height(t) - 1);
    }
  }

  /** The least height that n items allow. */
  function LeastHeight(n: nat): nat {
    if n == 0 then 0 else Log2(n) + 1
  }

  lemma {:induction false} LeastIsLeast<R, C>(t: Tree<R, C>)
    ensures Height(t) >= LeastHeight(Size(t))
  {
    SizeBelow(t);
    if Size(t) > 0 && Height(t) <= Log2(Size(t)) {
      Pow2Mono(Height(t), Log2(Size(t)));
    }
  }

  /** a & (a - 1). */
  function ClearLowest(a: nat): (r: nat)
    requires a > 0
    ensures r < a
  {
    if a % 2 == 1 then a - 1 else 2 * ClearLowest(a / 2)
  }

  /** Only a power of two has a single bit; otherwise the highest bit stays. */
  lemma {:induction false} ClearKeepsTop(a: nat)
    requires a > 0
    ensures ClearLowest(a) == 0 <==> a == Pow2(Log2(a))
    ensures ClearLowest(a) > 0 ==> Log2(ClearLowest(a)) == Log2(a)
  {
    if a % 2 == 0 {
      ClearKeepsTop(a / 2);
    } else if a > 1 {
      assert Log2(a) == 1 + Log2(a / 2) && (a - 1) / 2 == a / 2;
      assert Log2(a) > 0;
    }
  }

  lemma {:induction false} LogIs(n: nat, k: nat)
    requires Pow2(k) <= n < Pow2(k + 1)
    ensures n > 0 && Log2(n) == k
  {
    if Log2(n) < k {
      Pow2Mono(Log2(n) + 1, k);
    } else if Log2(n) > k {
      Pow2Mono(k + 1, Log2(n));
    }
  }

  /** A rotation keeps the items. */
  lemma {:induction false} LiftSame<R, C>(cs: seq<Frame<R, C>>, t: Tree<R, C>, e: nat)
    requires e <= 1 && t.Node? && Child(t, e).Node?
    ensures Items(Plug(cs, Lift(t, e))) == Items(Plug(cs, t)) && Size(Lift(t, e)) == Size(t)
  {
    var y := Child(t, e);
    if e == 0 {
      LiftItems(t);
    } else {
      assert Items(t.left) + [t.key] + (Items(y.left) + [y.key] + Items(y.right)) == (Items(t.left) + [t.key] + Items(y.left)) + [y.key] + Items(y.right);
    }
    ItemsSwap(cs, Lift(t, e), t);
  }

  lemma {:induction false} LiftSmaller<R, C>(t: Tree<R, C>)
    requires t.Node? && t.right.Node?
    ensures Size(Lift(t, 1).right) < Size(t.right)
  {
  }

  lemma {:induction false} SlimSize<R, C>(t: Tree<R, C>, m: nat)
    requires Slim(t, m, 0)
    ensures Size(t) == m
  {
    if m > 0 {
      SlimSize(t.left, m - 1);
    }
  }

  lemma {:induction false} FirstFold<R, C>(t: Tree<R, C>, n: nat, leaves: nat, r: nat)
    requires Slim(t, n, 0) && r == Log2(n + 1) && leaves == n + 1 - Pow2(r)
    ensures SpineLength(t) >= 2 * leaves && n - leaves == Pow2(r) - 1 && (n > 0 ==> r >= 1)
    ensures n > 0 ==> r + (if leaves > 0 then 1 else 0) == LeastHeight(n)
  {
    FirstSlims(t, n, leaves);
    if n > 0 {
      if leaves > 0 {
        LogIs(n, r);
      } else {
        LogIs(n, r - 1);
      }
    }
  }

  lemma SizeZero<R, C>(t: Tree<R, C>)
    requires Size(t) == 0
    ensures t.Leaf?
  {
  }

  lemma {:induction false} HalfVine(vine: nat, r: nat)
    requires vine + 1 == Pow2(r) && vine > 1
    ensures r >= 2 && vine == 2 * (vine / 2) + 1 && vine / 2 + 1 == Pow2(r - 1)
  {
  }

  lemma VineEnd<R, C>(u: Tree<R, C>, vine: nat, r: nat, n: nat)
    requires vine <= 1 && vine + 1 == Pow2(r) && (n == 0 || r >= 1) && (n == 0 ==> u.Leaf?)
    ensures n > 0 ==> vine == 1 && r == 1
    ensures n == 0 ==> Height(u) == LeastHeight(n)
  {
    if r >= 2 {
      Pow2Mono(2, r);
    }
  }

  /* ---- which nodes of the spine have right children ---- */

  /** Of the top m nodes of the spine the first a have right children, the others have none. */
  ghost predicate Fertile<R, C>(t: Tree<R, C>, m: nat, a: nat) {
    m == 0 || (t.Node? && (t.right.Node? <==> a > 0) && Fertile(t.left, m - 1, if a > 0 then a - 1 else 0))
  }

  lemma {:induction false} VineBare<R, C>(t: Tree<R, C>, n: nat)
    requires Slim(t, n, 0)
    ensures Fertile(t, n, 0)
  {
    if n > 0 {
      VineBare(t.left, n - 1);
    }
  }

  lemma {:induction false} FertileLess<R, C>(t: Tree<R, C>, m: nat, k: nat, a: nat)
    requires Fertile(t, m, a) && k <= m
    ensures Fertile(t, k, a)
  {
    if k > 0 {
      FertileLess(t.left, m - 1, k - 1, if a > 0 then a - 1 else 0);
    }
  }

  /** After the first round the folded nodes have right children, those below them have none. */
  lemma {:induction false} FirstFertile<R, C>(t: Tree<R, C>, n: nat, count: nat)
    requires Fertile(t, n, 0) && 2 * count <= n && SpineLength(t) >= 2 * count
    ensures Fertile(Compress(t, count), n - count, count)
    decreases count
  {
    if count > 0 {
      assert SpineLength(t) == 1 + SpineLength(t.left) && SpineLength(t.left) == 1 + SpineLength(t.left.left);
      FirstFertile(t.left.left, n - 2, count - 1);
    }
  }

  /** After any other round all nodes that were folded have. */
  lemma {:induction false} RoundFertile<R, C>(t: Tree<R, C>, count: nat)
    requires SpineLength(t) >= 2 * count
    ensures Fertile(Compress(t, count), count, count)
    decreases count
  {
    if count > 0 {
      assert SpineLength(t) == 1 + SpineLength(t.left) && SpineLength(t.left) == 1 + SpineLength(t.left.left);
      RoundFertile(t.left.left, count - 1);
    }
  }

  /** Whether the lower node of the next pair has a right child. */
  lemma {:induction false} NextPair<R, C>(t: Tree<R, C>, left: nat, a: nat)
    requires left > 0 && Fertile(t, 2 * left, a)
    ensures t.Node? && t.left.Node? && (t.left.right.Node? <==> a >= 2)
    ensures Fertile(t.left.left, 2 * (left - 1), if a >= 2 then a - 2 else 0)
  {
  }
}
