/**
 * Unsigned machine arithmetic used by the cipher: powers of two, the widths of
 * `unsigned int` and `unsigned short`, and C's `^` operator on unsigned operands
 * written out bit by bit over the naturals.
 */
module Bits {

  /** 2^32: values of a C `unsigned int` lie in [0, U32). */
  const U32: nat := 0x1_0000_0000

  /** A C `unsigned int`. */
  type uint32 = x: nat | x < 0x1_0000_0000

  /** Conversion to unsigned int: reduction mod 2^32. */
  function Wrap32(n: int): uint32
  {
    n % U32
  }

  /** 2^16: values of a C `unsigned short` lie in [0, U16). */
  const U16: nat := 0x1_0000

  function Pow2(n: nat): (r: nat)
    ensures r >= 1
  {
    if n == 0 then 1 else 2 * Pow2(n - 1)
  }

  lemma {:induction false} Pow2Add(a: nat, b: nat)
    ensures Pow2(a + b) == Pow2(a) * Pow2(b)
    decreases a
  {
    if a > 0 {
      Pow2Add(a - 1, b);
    }
  }

  lemma Pow2Of32()
    ensures Pow2(16) == U16 && Pow2(32) == U32
  {
    assert Pow2(2) == 4;
    assert Pow2(4) == 16 by { Pow2Add(2, 2); }
    assert Pow2(8) == 256 by { Pow2Add(4, 4); }
    assert Pow2(16) == U16 by { Pow2Add(8, 8); }
    assert Pow2(32) == U32 by { Pow2Add(16, 16); }
  }

  /** Bitwise exclusive or of two naturals (C's `^` on unsigned values). */
  function Xor(a: nat, b: nat): nat
    decreases a + b
  {
    if a == 0 && b == 0 then 0
    else 2 * Xor(a / 2, b / 2) + (if a % 2 == b % 2 then 0 else 1)
  }

  /** On single bits, Xor is "differ". */
  lemma XorOnBits(a: nat, b: nat)
    requires a <= 1 && b <= 1
    ensures Xor(a, b) == if a == b then 0 else 1
  {
  }

  /** The recursive step of Xor also holds at (0, 0). */
  lemma XorUnfold(a: nat, b: nat)
    ensures Xor(a, b) == 2 * Xor(a / 2, b / 2) + (if a % 2 == b % 2 then 0 else 1)
  {
  }

  /** Xor-ing twice with the same key gives the value back. */
  lemma {:induction false} XorInvolutive(a: nat, b: nat)
    ensures Xor(Xor(a, b), b) == a
    decreases a + b
  {
    if a == 0 && b == 0 {
    } else {
      var x := Xor(a, b);
      var e := if a % 2 == b % 2 then 0 else 1;
      assert x == 2 * Xor(a / 2, b / 2) + e;
      assert x / 2 == Xor(a / 2, b / 2) && x % 2 == e;
      XorInvolutive(a / 2, b / 2);
      XorUnfold(x, b);
    }
  }

  /** Xor of two k-bit values is a k-bit value. */
  lemma {:induction false} XorBound(a: nat, b: nat, k: nat)
    requires a < Pow2(k) && b < Pow2(k)
    ensures Xor(a, b) < Pow2(k)
    decreases k
  {
    if a == 0 && b == 0 {
    } else {
      assert k > 0;
      XorBound(a / 2, b / 2, k - 1);
    }
  }

  lemma {:induction false} MulAtLeast(d: int, k: int)
    requires d > 0 && k >= 1
    ensures d * k >= d
    decreases k
  {
    if k > 1 {
      MulAtLeast(d, k - 1);
      assert d * k == d * (k - 1) + d;
    }
  }

  /** Quotient and remainder are determined by x == d * q + r with 0 <= r < d. */
  lemma DivModUnique(x: int, d: int, q: int, r: int)
    requires d > 0 && 0 <= r < d && x == d * q + r
    ensures x / d == q && x % d == r
  {
    var q', r' := x / d, x % d;
    assert x == d * q' + r';
    assert d * (q - q') == r' - r;
    if q > q' {
      MulAtLeast(d, q - q');
    } else if q < q' {
      MulAtLeast(d, q' - q);
    }
  }

  /** Taking the low bit off and putting it back commutes with reduction mod 2m. */
  lemma ModDouble(v: nat, m: nat)
    requires m > 0
    ensures (v / 2) % m * 2 + v % 2 == v % (2 * m)
  {
    var q, r := v / 2, v % 2;
    var a, b := q / m, q % m;
    assert q == m * a + b;
    assert v == 2 * q + r;
    assert v == (2 * m) * a + (2 * b + r);
    DivModUnique(v, 2 * m, a, 2 * b + r);
  }

  /** Adding a multiple of m does not change the remainder mod m. */
  lemma ModAddMultiple(k: int, z: int, m: int)
    requires m > 0
    ensures (m * k + z) % m == z % m
  {
    assert z == m * (z / m) + z % m;
    assert m * k + z == m * (k + z / m) + z % m;
    DivModUnique(m * k + z, m, k + z / m, z % m);
  }

  /**
   * Unsigned arithmetic: x * p + y reduced mod m only depends on x and y mod m,
   * so reducing after every step gives the same result as reducing once.
   */
  lemma ModMulAdd(x: nat, p: nat, y: nat, m: nat)
    requires m > 0
    ensures (x * p + y) % m == ((x % m) * p + y % m) % m
  {
    var qx, rx, qy, ry := x / m, x % m, y / m, y % m;
    MulOfSum(m, qx, rx, p);
    assert x * p + y == m * (qx * p + qy) + (rx * p + ry) by {
      assert x * p == m * (qx * p) + rx * p;
      assert y == m * qy + ry;
      assert m * (qx * p) + m * qy == m * (qx * p + qy);
    }
    ModAddMultiple(qx * p + qy, rx * p + ry, m);
  }

  /** (m q + r) p == m (q p) + r p. */
  lemma MulOfSum(m: int, q: int, r: int, p: int)
    ensures (m * q + r) * p == m * (q * p) + r * p
  {
    assert (m * q + r) * p == (m * q) * p + r * p;
  }

  /** A value already below m is its own remainder. */
  lemma ModSmall(x: nat, m: nat)
    requires x < m
    ensures x % m == x
  {
    DivModUnique(x, m, 0, x);
  }
}
