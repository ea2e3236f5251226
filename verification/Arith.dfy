// Facts about products and quotients by a variable, which the solver does not find by itself.
module Arith {

  lemma MulGap(n: nat, a: int, b: int)
    requires a < b
    ensures n * a + n <= n * b
  {
    assert n * b == n * a + n * (b - a);
    assert n * (b - a) == n + n * (b - a - 1);
  }

  lemma QuotientUnique(x: int, n: nat, q: int, r: nat)
    requires 0 < n && r < n && x == n * q + r
    ensures x / n == q && x % n == r
  {
    assert x == n * (x / n) + x % n;
    if q < x / n {
      MulGap(n, q, x / n);
      assert false;
    } else if x / n < q {
      MulGap(n, x / n, q);
      assert false;
    }
  }
}
