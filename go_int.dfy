/**
 * Go's integer division operators on `int`.
 *
 * Go's `/` truncates the quotient toward zero and its `%` takes the sign of
 * the dividend (`a == (a / b) * b + a % b`), whereas Dafny's `/` and `%` are
 * Euclidean. The rotation index of the fake SLAM service is computed with
 * Go's operators, so they are written out here.
 */
module GoInt {

  function Abs(x: int): (r: nat)
  {
    if x < 0 then -x else x
  }

  /** Go's `a / b`: the quotient truncated toward zero. */
  function Quo(a: int, b: int): int
    requires b != 0
  {
    var q := Abs(a) / Abs(b);
    if (a < 0) == (b < 0) then q else -q
  }

  /** Go's `a % b`: the remainder that goes with `Quo`. */
  function Rem(a: int, b: int): int
    requires b != 0
  {
    a - b * Quo(a, b)
  }

  /** On a non-negative dividend and a positive divisor, Go agrees with Dafny. */
  lemma QuoRemNatural(a: int, b: int)
    requires a >= 0 && b > 0
    ensures Quo(a, b) == a / b && Rem(a, b) == a % b
  {
  }

  /** Negating the divisor negates Go's quotient and leaves its remainder alone. */
  lemma QuoRemNegDivisor(a: int, b: int)
    requires a >= 0 && b < 0
    ensures Quo(a, b) == -(a / -b) && Rem(a, b) == a % -b
  {
  }

  /** Multiplying by a negated factor negates the product. */
  lemma MulNeg(x: int, y: int)
    ensures x * -y == -(x * y) && -x * y == -(x * y)
  {
  }

  /**
   * Go's remainder is the remainder of the magnitudes, carrying the sign of
   * the dividend.
   */
  lemma RemMagnitude(a: int, b: int)
    requires b != 0
    ensures Rem(a, b) == if a < 0 then -(Abs(a) % Abs(b)) else Abs(a) % Abs(b)
  {
    var x: int, y: int := Abs(a), Abs(b);
    var q: int := x / y;
    assert x == y * q + x % y;
    if (a < 0) == (b < 0) {
      assert Quo(a, b) == q;
      if b < 0 {
        MulNeg(y, q);
        assert b * q == -(y * q);
      }
    } else {
      assert Quo(a, b) == -q;
      MulNeg(b, q);
      if b < 0 {
        MulNeg(y, q);
        assert b * -q == y * q;
      }
    }
  }

  /**
   * The defining properties of truncated division: the remainder is smaller
   * than the divisor in magnitude and, when it is not zero, has the sign of
   * the dividend.
   */
  lemma RemBounds(a: int, b: int)
    requires b != 0
    ensures a == b * Quo(a, b) + Rem(a, b)
    ensures Abs(Rem(a, b)) < Abs(b)
    ensures a >= 0 ==> Rem(a, b) >= 0
    ensures a <= 0 ==> Rem(a, b) <= 0
  {
    RemMagnitude(a, b);
  }

  /** A positive multiple of a positive number is at least that number. */
  lemma {:induction false} MulAtLeast(a: int, t: int)
    requires a >= 1 && t > 0
    ensures a * t >= t
    decreases a
  {
    if a > 1 {
      MulAtLeast(a - 1, t);
      assert a * t == (a - 1) * t + t;
    }
  }

  /** Euclidean division is determined by its quotient-remainder decomposition. */
  lemma DivUnique(n: int, t: int, j: int, r: int)
    requires t > 0 && 0 <= r < t && n == j * t + r
    ensures n / t == j && n % t == r
  {
    var q, m := n / t, n % t;
    assert n == q * t + m && 0 <= m < t;
    assert (q - j) * t == q * t - j * t;
    assert (j - q) * t == j * t - q * t;
    if q > j {
      MulAtLeast(q - j, t);
    } else if q < j {
      MulAtLeast(j - q, t);
    }
  }
}
