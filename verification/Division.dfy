/** Quotients and remainders by a number that is not known. */
module Division {

  lemma Times(s: nat, x: nat, y: nat)
    requires x <= y
    ensures s * x <= s * y && s * (x + 1) == s * x + s
  {
    assert s * y == s * x + s * (y - x);
  }

  lemma QuotientIs(q: nat, r: nat, s: nat)
    requires r < s
    ensures (s * q + r) / s == q && (s * q + r) % s == r
  {
    var a := s * q + r;
    var d := a / s;
    assert a == s * d + a % s;
    if d < q {
      Times(s, d + 1, q);
      Times(s, d, q);
    } else if q < d {
      Times(s, q + 1, d);
      Times(s, q, d);
    }
  }

  lemma QuotientAtLeast(q: nat, a: nat, s: nat)
    requires s > 0 && s * q <= a
    ensures q <= a / s
  {
    var d := a / s;
    assert a == s * d + a % s;
    if d < q {
      Times(s, d + 1, q);
      Times(s, d, q);
    }
  }
}
