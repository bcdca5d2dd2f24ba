/** Facts about products, quotients and remainders that the solver does not find by itself. */
module Arithmetic {
  lemma ProductsGrow(x: nat, y: nat, d: nat)
    requires x <= y
    ensures x * d <= y * d
    ensures x < y ==> x * d + d <= y * d
  {
    assert (y - x) * d >= 0;
    assert (y - x) * d == y * d - x * d;
    if x < y {
      assert (y - x - 1) * d >= 0;
      assert (y - x - 1) * d == (y - x) * d - d;
    }
  }

  lemma QuotientAndRest(n: nat, d: nat)
    requires d > 0
    ensures n / d >= 0 && 0 <= n % d < d
    ensures n / d * d + n % d == n && n / d * d <= n < (n / d + 1) * d
  {}

  lemma QuotientIs(q: nat, r: nat, d: nat)
    requires r < d
    ensures (q * d + r) / d == q && (q * d + r) % d == r
  {
    var n := q * d + r;
    QuotientAndRest(n, d);
    if q < n / d {
      ProductsGrow(q, n / d, d);
    } else if n / d < q {
      ProductsGrow(n / d, q, d);
    }
  }

  lemma QuotientsGrow(m: nat, n: nat, d: nat)
    requires m <= n && d > 0
    ensures m / d <= n / d
  {
    QuotientAndRest(m, d);
    QuotientAndRest(n, d);
    if m / d > n / d {
      ProductsGrow(n / d + 1, m / d, d);
    }
  }

  lemma QuotientAtMost(n: nat, d: nat)
    requires d > 0
    ensures 0 <= n / d <= n
  {
    QuotientAndRest(n, d);
    ProductsGrow(1, d, n / d);
  }
}
