/** Facts about division and multiplication of integers. */
module Arithmetic {

  lemma MulMono(a: int, b: int, m: nat)
    ensures a <= b ==> a * m <= b * m
  {
  }

  lemma MulStep(a: int, b: int, m: nat)
    ensures a < b ==> a * m + m <= b * m
  {
    MulMono(a + 1, b, m);
  }

  /** Quotient and remainder are unique. */
  lemma DivMod(q: nat, r: nat, m: nat)
    requires r < m
    ensures (q * m + r) / m == q && (q * m + r) % m == r
  {
    var x := q * m + r;
    var d := x / m - q;
    assert x % m == r - d * m;
    MulMono(1, d, m);
    MulMono(d, -1, m);
  }

  lemma DivModIs(x: nat, m: nat)
    requires m > 0
    ensures x == x / m * m + x % m && x % m < m
  {
  }

  lemma DivBelow(x: nat, h: nat, m: nat)
    requires m > 0 && x < h * m
    ensures x / m < h
  {
    MulMono(h, x / m, m);
  }
}
