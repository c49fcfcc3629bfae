/** Division and remainder by a variable. */
module Arith {

  lemma MulMono(a: int, b: int, n: nat)
    requires a <= b
    ensures a * n <= b * n
  {
    assert (b - a) * n >= 0;
    assert b * n == a * n + (b - a) * n;
  }

  /** Quotient and remainder are the only ones there are. */
  lemma DivModUnique(n: nat, i: nat, q: nat, r: nat)
    requires n > 0 && r < n && i == q * n + r
    ensures i / n == q && i % n == r
  {
    var q', r' := i / n, i % n;
    assert i == n * q' + r';
    if q < q' { MulMono(q + 1, q', n); }
    if q > q' { MulMono(q' + 1, q, n); }
  }

  lemma DivModOf(n: nat, i: nat)
    requires n > 0
    ensures i == i / n * n + i % n && i % n < n
  {
  }

  /** A quotient is below a bound when the dividend is below the bound's multiple. */
  lemma DivBelow(n: nat, i: nat, bound: nat)
    requires n > 0 && i < bound * n
    ensures i / n < bound
  {
    DivModOf(n, i);
    if i / n >= bound { MulMono(bound, i / n, n); }
  }
}
