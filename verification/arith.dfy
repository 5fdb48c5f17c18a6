/**
 * Small facts of integer arithmetic, each stated once so that the proofs of
 * the limb, byte and counter code can name the step they take.
 */
module Arith {

  lemma MulAssoc(a: int, b: int, c: int)
    ensures a * (b * c) == (a * b) * c
  {}

  lemma MulDistrib(a: int, b: int, c: int)
    ensures a * (b + c) == a * b + a * c
  {}

  lemma MulMono(a: int, b: int, m: int)
    requires a <= b && m >= 0
    ensures a * m <= b * m
  {
    assert b * m - a * m == (b - a) * m;
  }

  /** Product of bounded non-negative factors. */
  lemma MulBound(a: int, b: int, x: int, y: int)
    requires 0 <= a < x && 0 <= b < y
    ensures 0 <= a * b < x * y
  {
    MulMono(a, x - 1, b);
    MulMono(b, y, x - 1);
    assert (x - 1) * b == b * (x - 1);
    assert y * (x - 1) == x * y - y;
  }

  /** Euclidean division is unique: a quotient and remainder in range are the ones. */
  lemma ModUnique(a: int, q: int, r: int, m: int)
    requires m > 0 && 0 <= r < m && a == q * m + r
    ensures a / m == q && a % m == r
  {
    var q0 := a / m;
    if q0 < q {
      MulMono(q0 + 1, q, m);
      assert false;
    } else if q < q0 {
      MulMono(q + 1, q0, m);
      assert false;
    }
  }

  /** Adding a multiple of the modulus does not change the residue. */
  lemma ModAddMultiple(a: int, k: int, m: int)
    requires m > 0
    ensures (a + k * m) % m == a % m
  {
    var q := a / m;
    assert a + k * m == (q + k) * m + a % m;
    ModUnique(a + k * m, q + k, a % m, m);
  }

  /** Reducing a factor first does not change the residue of a product. */
  lemma ModMulLeft(a: int, b: int, m: int)
    requires m > 0
    ensures (a * b) % m == ((a % m) * b) % m
  {
    var q := a / m;
    var r := a % m;
    assert a * b == r * b + (q * b) * m by {
      assert a == q * m + r;
      MulDistrib(b, q * m, r);
    }
    ModAddMultiple(r * b, q * b, m);
  }

  /** Reducing a summand first does not change the residue of a sum. */
  lemma ModAddLeft(a: int, b: int, m: int)
    requires m > 0
    ensures (a + b) % m == ((a % m) + b) % m
  {
    ModAddMultiple((a % m) + b, a / m, m);
  }

  /** Division and remainder by a product, taken in two steps. */
  lemma DivDiv(a: int, m: int, n: int)
    requires m > 0 && n > 0
    ensures a / (m * n) == (a / m) / n
    ensures a % (m * n) == m * ((a / m) % n) + a % m
  {
    var q := (a / m) / n;
    var r := m * ((a / m) % n) + a % m;
    assert a == q * (m * n) + r by {
      assert a == m * (a / m) + a % m;
      assert a / m == n * q + (a / m) % n;
      MulDistrib(m, n * q, (a / m) % n);
      MulAssoc(m, n, q);
    }
    assert r < m * n by {
      MulMono((a / m) % n, n - 1, m);
    }
    ModUnique(a, q, r, m * n);
  }

  lemma ModSmall(a: int, m: int)
    requires 0 <= a < m
    ensures a % m == a && a / m == 0
  {
    ModUnique(a, 0, a, m);
  }

  /** Scaling both the dividend and the modulus scales the remainder. */
  lemma ModScale(a: int, k: int, m: int)
    requires k > 0 && m > 0
    ensures (k * a) % (k * m) == k * (a % m)
  {
    var q := a / m;
    var r := a % m;
    assert k * a == q * (k * m) + k * r by {
      assert a == q * m + r;
      MulDistrib(k, q * m, r);
      MulAssoc(k, q, m);
      MulAssoc(q, k, m);
    }
    MulMono(r, m - 1, k);
    ModUnique(k * a, q, k * r, k * m);
  }

  /** Fewer than m steps apart, two numbers leave different remainders modulo m. */
  lemma ModDistinct(a: int, b: int, m: int)
    requires m > 0 && a < b < a + m
    ensures a % m != b % m
  {
    var qa, qb := a / m, b / m;
    if a % m == b % m {
      assert b - a == (qb - qa) * m;
      if qb - qa <= 0 {
        MulMono(qb - qa, 0, m);
      } else {
        MulMono(1, qb - qa, m);
      }
    }
  }

  /** Conversions between small integers and octets. */
  lemma {:induction false} ByteOfInt(x: int)
    requires 0 <= x < 256
    ensures (x as bv8) as int == x
  {
    var b := Octet(x);
    assert (b as int) as bv8 == b;
  }

  /** The octet of value x, built up by increments. */
  function Octet(x: nat): (b: bv8)
    requires x < 256
    ensures b as int == x
  {
    if x == 0 then 0 else ByteSucc(Octet(x - 1)); Octet(x - 1) + 1
  }

  lemma {:induction false} ByteSucc(b: bv8)
    requires b != 0xff
    ensures (b + 1) as int == b as int + 1
  {}
}
