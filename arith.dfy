/** Integer powers and the modular arithmetic that java.math.BigInteger
    provides to the primality test (pow, mod, modPow). */
module Arith {

  /** b raised to the e-th power (BigInteger.pow). */
  function Pow(b: int, e: nat): (r: int)
    ensures b > 0 ==> r > 0
  {
    if e == 0 then 1 else b * Pow(b, e - 1)
  }

  /** BigInteger.modPow for a positive modulus: the least non-negative
      residue of b^e modulo m. */
  function ModPow(b: int, e: nat, m: int): (r: int)
    requires m > 0
    ensures 0 <= r < m
  {
    Pow(b, e) % m
  }

  lemma {:induction false} PowAdd(b: int, e1: nat, e2: nat)
    ensures Pow(b, e1 + e2) == Pow(b, e1) * Pow(b, e2)
  {
    if e1 > 0 {
      var x, y := Pow(b, e1 - 1), Pow(b, e2);
      PowAdd(b, e1 - 1, e2);
      assert Pow(b, e1 + e2) == b * Pow(b, (e1 - 1) + e2);
      assert Pow(b, e1) == b * x;
      MulAssoc(b, x, y);
    }
  }

  /** Doubling the exponent squares the power. */
  lemma PowDouble(b: int, e: nat)
    ensures Pow(b, 2 * e) == Pow(b, e) * Pow(b, e)
  {
    PowAdd(b, e, e);
  }

  /** Division by a positive m is unique: a representation x == m*q + r with
      0 <= r < m is the one `/` and `%` compute. */
  lemma DivModUnique(x: int, m: int, q: int, r: int)
    requires m > 0 && 0 <= r < m && x == m * q + r
    ensures x % m == r && x / m == q
  {
    var q', r' := x / m, x % m;
    assert m * (q - q') == r' - r;
    MulAwayFromZero(m, q - q');
  }

  /** A non-zero multiple of m is at least m away from zero. */
  lemma MulAwayFromZero(m: int, t: int)
    requires m > 0
    ensures t == 0 || m * t >= m || m * t <= -m
  {
    if t > 0 {
      MulNonNegative(m, t - 1);
      assert m * t == m * (t - 1) + m;
    } else if t < 0 {
      MulNonNegative(m, -t - 1);
      assert m * t == -(m * (-t - 1)) - m;
    }
  }

  lemma MulNonNegative(a: int, b: int)
    requires a >= 0 && b >= 0
    ensures a * b >= 0
  {
  }

  lemma MulAssoc(a: int, b: int, c: int)
    ensures a * (b * c) == (a * b) * c
  {
  }

  lemma MulRotate(a: int, b: int, c: int)
    ensures (a * b) * c == b * (a * c)
  {
  }

  /** Adding a multiple of m does not change the residue. */
  lemma ModOfMultiple(m: int, k: int, c: int)
    requires m > 0
    ensures (m * k + c) % m == c % m
  {
    var qc, rc := c / m, c % m;
    assert m * k + c == m * (k + qc) + rc;
    DivModUnique(m * k + c, m, k + qc, rc);
  }

  lemma ModMul(x: int, y: int, m: int)
    requires m > 0
    ensures (x * y) % m == ((x % m) * (y % m)) % m
  {
    var qx, rx := x / m, x % m;
    var qy, ry := y / m, y % m;
    calc {
      x * y;
      (m * qx + rx) * (m * qy + ry);
      m * (qx * (m * qy + ry) + rx * qy) + rx * ry;
    }
    ModOfMultiple(m, qx * (m * qy + ry) + rx * qy, rx * ry);
  }

  /** Equal residues differ by a multiple of m, and conversely. */
  lemma ModEqual(x: int, y: int, m: int)
    requires m > 0
    ensures x % m == y % m <==> (x - y) % m == 0
  {
    var qx, qy := x / m, y / m;
    assert x - y == m * (qx - qy) + (x % m - y % m);
    if x % m == y % m {
      DivModUnique(x - y, m, qx - qy, 0);
    } else if x % m > y % m {
      DivModUnique(x - y, m, qx - qy, x % m - y % m);
    } else {
      DivModUnique(x - y, m, qx - qy - 1, m + x % m - y % m);
    }
  }

  lemma {:induction false} PowMod(b: int, e: nat, m: int)
    requires m > 0
    ensures Pow(b, e) % m == Pow(b % m, e) % m
  {
    if e > 0 {
      var c, p, p' := b % m, Pow(b, e - 1), Pow(b % m, e - 1);
      PowMod(b, e - 1, m);
      assert p % m == p' % m;
      assert Pow(b, e) == b * p;
      assert Pow(c, e) == c * p';
      ModMul(b, p, m);
      ModMul(c, p', m);
      ModIdempotent(b, m);
    }
  }

  lemma ModIdempotent(x: int, m: int)
    requires m > 0
    ensures (x % m) % m == x % m
  {
    DivModUnique(x % m, m, 0, x % m);
  }

  /** Reducing an operand before squaring does not change the residue:
      this is why squaring x mod n step by step follows a^(2^j) mod n. */
  lemma SquareMod(x: int, m: int)
    requires m > 0
    ensures (x * x) % m == ((x % m) * (x % m)) % m
  {
    ModMul(x, x, m);
  }

  lemma ModPowSquare(x: int, m: int)
    requires m > 0
    ensures ModPow(x, 2, m) == (x * x) % m
  {
    assert Pow(x, 2) == x * Pow(x, 1) == x * x;
  }
}
