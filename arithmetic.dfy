/** Facts about Euclidean division that the calendar and the offset arithmetic
    lean on, stated once so that each use is a single linear step. */
module Arithmetic {

  lemma {:induction false} MulAtLeast(m: int, k: int)
    requires m > 0 && k >= 1
    ensures m * k >= m
    decreases k
  {
    if k > 1 {
      MulAtLeast(m, k - 1);
      assert m * k == m * (k - 1) + m;
    }
  }

  /** Quotient and remainder are the only pair that rebuilds `x` with the
      remainder below the divisor. */
  lemma DivModOf(x: int, m: int, q: int, r: int)
    requires m > 0 && x == m * q + r && 0 <= r < m
    ensures x / m == q && x % m == r
  {
    var q', r' := x / m, x % m;
    assert m * q' + r' == x;
    if q' > q {
      assert m * (q' - q) == m * q' - m * q;
      MulAtLeast(m, q' - q);
    } else if q' < q {
      assert m * (q - q') == m * q - m * q';
      MulAtLeast(m, q - q');
    }
  }
}
