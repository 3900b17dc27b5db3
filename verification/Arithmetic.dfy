/** Facts about products and floor division that the other modules use. */
module Arithmetic {

  lemma MulMonotone(a: nat, x: int, y: int)
    requires x <= y
    ensures a * x <= a * y
  {
  }

  lemma CancelFactor(a: nat, x: int, y: int)
    requires a > 0 && a * x <= a * y
    ensures x <= y
  {
    if x > y {
      MulMonotone(a, y + 1, x);
    }
  }

  /** Quotient and remainder are determined by the division equation. */
  lemma DivModUnique(d: nat, q: int, r: nat, q': int, r': nat)
    requires r < d && r' < d && d * q + r == d * q' + r'
    ensures q == q' && r == r'
  {
    if q < q' {
      MulMonotone(d, q + 1, q');
    } else if q' < q {
      MulMonotone(d, q' + 1, q);
    }
  }

  lemma DivMod(x: nat, d: nat, q: nat, r: nat)
    requires 0 < d && x == d * q + r && r < d
    ensures x / d == q && x % d == r
  {
    DivModUnique(d, q, r, x / d, x % d);
  }

  /** Floor division as a Galois connection. */
  lemma DivGe(x: nat, d: nat, q: nat)
    requires 0 < d
    ensures q <= x / d <==> q * d <= x
  {
    if q <= x / d {
      MulMonotone(d, q, x / d);
    } else {
      MulMonotone(d, x / d + 1, q);
    }
  }

  lemma DivBounds(x: nat, d: nat)
    requires 0 < d
    ensures x / d * d <= x < x / d * d + d
  {
  }

  lemma DivEquation(x: nat, d: nat)
    requires 0 < d
    ensures x == d * (x / d) + x % d && 0 <= x % d < d
  {
  }

  /** Dividing by twice a number. */
  lemma HalveThenDiv(x: nat, p: nat)
    requires 0 < p
    ensures x / (2 * p) == x / 2 / p && x % (2 * p) == 2 * (x / 2 % p) + x % 2
  {
    var h := x / 2;
    var q, r := h / p, h % p;
    DivEquation(h, p);
    assert 2 * p * q == 2 * (p * q);
    DivMod(x, 2 * p, q, 2 * r + x % 2);
  }
}
