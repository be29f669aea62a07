/** Facts about integer multiplication and division used by the index
    arithmetic of the grid and sheet builders. */
module Arithmetic {
  /** The product of two non-negative numbers is non-negative. */
  lemma MulNonneg(a: int, b: int)
    requires 0 <= a && 0 <= b
    ensures 0 <= a * b
  {
  }

  /** The product of two positive numbers is positive. */
  lemma MulPos(a: int, b: int)
    requires 0 < a && 0 < b
    ensures 0 < a * b
  {
    MulLe(1, a, b);
  }

  /** A non-negative number splits into quotient and remainder by a positive divisor. */
  lemma DivModParts(i: int, m: int)
    requires 0 <= i && 0 < m
    ensures i == (i / m) * m + i % m && 0 <= i % m < m && 0 <= i / m
  {
  }

  /** Multiplying by a non-negative factor keeps the order. */
  lemma MulLe(a: int, b: int, c: int)
    requires a <= b && 0 <= c
    ensures a * c <= b * c
  {
    MulNonneg(b - a, c);
  }

  /** Division by a positive `m` is determined by the quotient and remainder. */
  lemma DivModUnique(i: int, m: int, q: int, r: int)
    requires m > 0 && 0 <= r < m && i == q * m + r
    ensures i / m == q && i % m == r
  {
    var q', r' := i / m, i % m;
    assert i == q' * m + r';
    if q' < q {
      MulLe(q' + 1, q, m);
      assert false;
    } else if q < q' {
      MulLe(q + 1, q', m);
      assert false;
    }
  }

  /** A row-major offset y*n + z with both coordinates below n is below n*n. */
  lemma RowBounds(y: int, z: int, n: int)
    requires 0 <= y < n && 0 <= z < n
    ensures 0 <= y * n + z < n * n
  {
    MulLe(y, n - 1, n);
    MulNonneg(y, n);
    assert (n - 1) * n + n == n * n;
  }
}
