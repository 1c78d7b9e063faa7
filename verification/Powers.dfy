/** Powers of two, and the bits of a number. */
module Powers {

  function Pow2(n: nat): (p: nat)
    ensures p > 0
  {
    if n == 0 then 1 else 2 * Pow2(n - 1)
  }

  lemma {:induction false} Pow2Mono(a: nat, b: nat)
    requires a <= b
    ensures Pow2(a) <= Pow2(b)
    decreases b - a
  {
    if a < b {
      Pow2Mono(a + 1, b);
    }
  }

  /** The index of the highest bit of a. */
  function Log2(a: nat): (b: nat)
    requires a > 0
    ensures Pow2(b) <= a < Pow2(b + 1)
  {
    if a == 1 then 0 else 1 + Log2(a / 2)
  }

  /** i | (1 << b). */
  function SetBit(i: nat, b: nat): nat {
    if b == 0 then (if i % 2 == 1 then i else i + 1) else 2 * SetBit(i / 2, b - 1) + i % 2
  }

  /** Setting a bit below all set ones adds its value. */
  lemma {:induction false} SetBitBelow(q: nat, c: nat, b: nat)
    requires b < c
    ensures SetBit(q * Pow2(c), b) == q * Pow2(c) + Pow2(b)
    decreases b
  {
    var half := q * Pow2(c - 1);
    assert q * Pow2(c) == 2 * half;
    if b > 0 {
      SetBitBelow(q, c - 1, b - 1);
    }
  }

  /** A multiple of a power of two is one of every smaller power. */
  lemma {:induction false} Multiple(q: nat, c: nat, b: nat) returns (p: nat)
    requires b <= c
    ensures q * Pow2(c) == p * Pow2(b) && q * Pow2(c) + Pow2(b) == (p + 1) * Pow2(b)
    decreases c
  {
    if b == c {
      p := q;
    } else {
      assert q * Pow2(c) == 2 * q * Pow2(c - 1);
      p := Multiple(2 * q, c - 1, b);
    }
    assert (p + 1) * Pow2(b) == p * Pow2(b) + Pow2(b);
  }

  /** The lowest c bits of i are not set. */
  ghost predicate Clear(i: nat, c: nat) {
    exists q: nat :: i == q * Pow2(c)
  }

  lemma {:induction false} SetClear(i: nat, c: nat, b: nat)
    requires Clear(i, c) && b < c
    ensures SetBit(i, b) == i + Pow2(b) && Clear(i, b) && Clear(i + Pow2(b), b)
  {
    var q: nat :| i == q * Pow2(c);
    SetBitBelow(q, c, b);
    var p := Multiple(q, c, b);
  }

  lemma ClearZero(c: nat)
    ensures Clear(0, c)
  {
    assert 0 == 0 * Pow2(c);
  }

  lemma {:induction false} HighBit(a: nat, c: nat)
    requires 0 < a < Pow2(c)
    ensures Log2(a) < c && Pow2(Log2(a)) <= a < 2 * Pow2(Log2(a))
  {
    if c <= Log2(a) {
      Pow2Mono(c, Log2(a));
    }
  }
}
