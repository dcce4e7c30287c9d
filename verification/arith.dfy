/** Small facts of integer multiplication and Euclidean division. */
module Arith {
  /** Multiplying by a positive factor never shrinks a natural number. */
  lemma MulAtLeast(q: int, b: int)
    requires q >= 0 && b >= 1
    ensures q * b >= q
  {
    assert q * b == q + q * (b - 1);
  }

  /** A nonzero multiplier never shrinks the magnitude of `b`. */
  lemma ProductAtLeast(a: int, b: int)
    requires a != 0
    ensures (if a * b < 0 then -(a * b) else a * b) >= (if b < 0 then -b else b)
  {
    var B := if b < 0 then -b else b;
    if a > 0 {
      assert (if a * b < 0 then -(a * b) else a * b) == a * B;
      MulAtLeast(B, a);
      assert a * B == B * a;
    } else {
      assert (if a * b < 0 then -(a * b) else a * b) == (-a) * B;
      MulAtLeast(B, -a);
      assert (-a) * B == B * (-a);
    }
  }

  /** A quotient and remainder in range are the Euclidean ones. */
  lemma DivUnique(n: int, d: int, q: int, r: int)
    requires d > 0 && 0 <= r < d && n == q * d + r
    ensures n / d == q && n % d == r
  {
    var q2, r2 := n / d, n % d;
    assert n == q2 * d + r2;
    assert (q - q2) * d == r2 - r;
    if q != q2 {
      ProductAtLeast(q - q2, d);
    }
  }

  /** Halving a quotient is dividing by twice the divisor. */
  lemma DivDiv(n: int, d: int)
    requires n >= 0 && d >= 1
    ensures n / d / 2 == n / (d * 2)
  {
    var q, r := n / d, n % d;
    var q2, r2 := q / 2, q % 2;
    assert n == q * d + r;
    assert q == q2 * 2 + r2;
    assert n == q2 * (d * 2) + (r2 * d + r);
    assert 0 <= r2 * d + r < d * 2;
    DivUnique(n, d * 2, q2, r2 * d + r);
  }

  /** Dividing a natural number by a positive divisor gives at most the number. */
  lemma DivAtMost(n: int, d: int)
    requires n >= 0 && d >= 1
    ensures 0 <= n / d <= n
  {
    var q := n / d;
    assert n == d * q + n % d;
    MulAtLeast(q, d);
    assert q * d == d * q;
  }

  /** Adding a multiple of the modulus does not change the remainder. */
  lemma ModAddMultiple(x: int, k: int, m: int)
    requires m > 0
    ensures (x + k * m) % m == x % m
  {
    var q, r := x / m, x % m;
    assert x + k * m == (q + k) * m + r;
    DivUnique(x + k * m, m, q + k, r);
  }

  /** Dividing by at least two at least halves a natural number. */
  lemma DivAtLeastTwo(n: int, d: int)
    requires n >= 0 && d >= 2
    ensures 2 * (n / d) <= n
  {
    var q, r := n / d, n % d;
    assert n == q * d + r;
    MulAtLeast(q, d - 1);
    assert q * d == q * (d - 1) + q;
  }

  /** Multiplication by a natural number is monotone. */
  lemma MulMonotone(a: int, b: int, c: int)
    requires 0 <= a <= b && c >= 0
    ensures 0 <= a * c <= b * c
  {
    assert b * c - a * c == (b - a) * c;
  }
}
