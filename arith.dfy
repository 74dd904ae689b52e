/** Facts about Euclidean division by a positive divisor, used to count
    how many batches or pages a sequence splits into. */
module Arith {

  /** Division is determined by any quotient/remainder pair that fits. */
  lemma DivModUnique(x: int, n: int, q: int, r: int)
    requires n > 0 && 0 <= r < n && x == q * n + r
    ensures x / n == q && x % n == r
  {
    var q', r' := x / n, x % n;
    assert x == q' * n + r' && 0 <= r' < n;
    if q' < q {
      MulAtLeast(q - q', n);
      assert false;
    } else if q < q' {
      MulAtLeast(q' - q, n);
      assert false;
    }
  }

  lemma MulAtLeast(k: int, n: int)
    requires k >= 1 && n > 0
    ensures k * n >= n
  {
  }

  lemma MulNonNegative(a: int, b: int)
    requires a >= 0 && b >= 0
    ensures a * b >= 0
  {
  }

  lemma MulSucc(a: int, b: int)
    ensures (a + 1) * b == a * b + b
  {
  }

  /** Adding one divisor adds one to the quotient and leaves the remainder. */
  lemma DivModAddDivisor(x: int, n: int)
    requires n > 0
    ensures (x + n) / n == x / n + 1 && (x + n) % n == x % n
  {
    DivModUnique(x + n, n, x / n + 1, x % n);
  }

  /** The quotient of a number smaller than the divisor is zero. */
  lemma DivModSmall(x: int, n: int)
    requires 0 <= x < n
    ensures x / n == 0 && x % n == x
  {
    DivModUnique(x, n, 0, x);
  }

  /** `m` is the ceiling of `x / n` exactly when `(m - 1) * n < x <= m * n`. */
  lemma CeilDiv(x: int, n: int, m: int)
    requires n > 0 && x >= 0 && m >= 0
    requires (m - 1) * n < x <= m * n
    ensures m == (x + n - 1) / n
  {
    var r := x + n - 1 - m * n;
    assert (m - 1) * n == m * n - n;
    DivModUnique(x + n - 1, n, m, r);
  }
}
