/** Multiplication and division facts with a variable factor or divisor. */
module Arith {

  lemma MulLess(a: int, b: int, c: nat)
    requires a <= b
    ensures a * c <= b * c && c * a <= c * b
  {}

  lemma MulStrict(a: int, b: int, c: nat)
    requires a < b && c > 0
    ensures a * c < b * c
  {}

  /** Quotient and remainder are determined by the division equation. */
  lemma DivUnique(n: int, r: nat, q: int, m: nat)
    requires r > 0 && n == q * r + m && m < r
    ensures n / r == q && n % r == m
  {
    var a, b := n / r, n % r;
    assert n == a * r + b;
    assert (a - q) * r == m - b && (q - a) * r == b - m;
    if a > q {
      MulLess(1, a - q, r);
      assert false;
    } else if a < q {
      MulLess(1, q - a, r);
      assert false;
    }
  }
}
