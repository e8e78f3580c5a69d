/** Quotients, remainders and products that the solver is given one at a time. */
module Arithmetic {
  lemma DivUnique(n: nat, d: nat, q: nat, r: nat)
    requires r < d && n == q * d + r
    ensures n / d == q
  {
    assert (q - n / d) * d == n % d - r;
    if q != n / d {
      MultipleIsLarge(q - n / d, d);
    }
  }

  lemma DivModUnique(n: nat, d: nat, q: nat, r: nat)
    requires r < d && n == q * d + r
    ensures n % d == r
  {
    var q' := n / d;
    assert (q - q') * d == n % d - r;
    if q != q' {
      MultipleIsLarge(q - q', d);
    }
  }

  lemma MultipleIsLarge(k: int, d: nat)
    requires k != 0
    ensures k * d >= d || k * d + d <= 0
  {
    if k > 0 {
      MulMonotone(1, k, d);
    } else {
      MulMonotone(k, -1, d);
    }
  }

  lemma MulMonotone(a: int, b: int, d: nat)
    requires a <= b
    ensures a * d <= b * d
  {
  }
}
