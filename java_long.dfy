/**
 Java's 32-bit `int` and 64-bit `long`, seen through their mathematical values.

 A `long` is modelled by the signed integer Java shows for it. The operators
 that look at its 64 bits instead (overflowing multiplication and addition,
 the logical shift `>>>` and the bitwise `&`) are written out here with
 explicit arithmetic modulo 2^64.
 */
module JavaLong {

  const TWO_31: int := 0x8000_0000
  const TWO_32: int := 0x1_0000_0000
  const TWO_63: int := 0x8000_0000_0000_0000
  const TWO_64: int := 0x1_0000_0000_0000_0000

  /** The values of a Java `int`. */
  type Int = x: int | -0x8000_0000 <= x < 0x8000_0000

  /** The values of a Java `long`. */
  type Long = x: int | -0x8000_0000_0000_0000 <= x < 0x8000_0000_0000_0000

  /** 2 to the power p. */
  function Pow2(p: nat): (r: nat)
    ensures r >= 1
  {
    if p == 0 then 1 else 2 * Pow2(p - 1)
  }

  /** Powers of two add their exponents when multiplied. */
  lemma {:induction false} Pow2Add(a: nat, b: nat)
    ensures Pow2(a + b) == Pow2(a) * Pow2(b)
  {
    if a > 0 {
      Pow2Add(a - 1, b);
      assert Pow2(a + b) == 2 * Pow2(a - 1 + b);
    }
  }

  /** The powers of two the Java code spells out. */
  lemma Pow2Values()
    ensures Pow2(31) == TWO_31 && Pow2(33) == 0x2_0000_0000 && Pow2(63) == TWO_63
  {
    assert Pow2(1) == 2 by { assert Pow2(1) == 2 * Pow2(0); }
    assert Pow2(2) == 4 by { Pow2Add(1, 1); }
    assert Pow2(4) == 0x10 by { Pow2Add(2, 2); }
    assert Pow2(8) == 0x100 by { Pow2Add(4, 4); }
    assert Pow2(16) == 0x1_0000 by { Pow2Add(8, 8); }
    assert Pow2(32) == TWO_32 by { Pow2Add(16, 16); }
    assert Pow2(31) == TWO_31 by { assert Pow2(32) == 2 * Pow2(31); }
    assert Pow2(33) == 0x2_0000_0000 by { assert Pow2(33) == 2 * Pow2(32); }
    assert Pow2(64) == TWO_64 by { Pow2Add(32, 32); }
    assert Pow2(63) == TWO_63 by { assert Pow2(64) == 2 * Pow2(63); }
  }

  /** The 64 bits of `n` read as an unsigned number (two's complement). */
  function Unsigned(n: Long): (u: nat)
    ensures u < TWO_64
  {
    n % TWO_64
  }

  /**
   The `long` holding the low 64 bits of the integer `x`: what Java keeps
   of a `long` multiplication or addition that overflows.
   */
  function Wrap(x: int): (r: Long)
    ensures (x - r) % TWO_64 == 0
  {
    var u := x % TWO_64;
    if u < TWO_63 then u else u - TWO_64
  }

  /** Reading a `long` as unsigned and wrapping it back gives the same `long`. */
  lemma WrapUnsigned(n: Long)
    ensures Wrap(Unsigned(n)) == n
  {
  }

  /** Wrapping keeps exactly the low 64 bits: the unsigned reading of the result. */
  lemma UnsignedWrap(x: int)
    ensures Unsigned(Wrap(x)) == x % TWO_64
  {
  }

  /** Java's `(int)` narrowing of a `long`: the low 32 bits, read as signed. */
  function IntCast(x: Long): (r: Int)
    ensures -TWO_31 <= x < TWO_31 ==> r == x
    ensures (x - r) % TWO_32 == 0
  {
    var u := x % TWO_32;
    if u < TWO_31 then u else u - TWO_32
  }

  /**
   Java's `n >>> s` for a distance 0 < s < 64: the bits of `n`, read as an
   unsigned number, moved s places right with zeros shifted in.
   */
  function ShiftRightUnsigned(n: Long, s: nat): (r: Long)
    requires 0 < s < 64
    ensures 0 <= r < Pow2(64 - s)
  {
    Pow2Values();
    HalvingBound(Unsigned(n), s, 64 - s);
    Pow2Grows(64 - s, 63);
    Halve(Unsigned(n), s)
  }

  /** `n >>> s` is the unsigned reading of `n` divided by 2^s, rounded down. */
  lemma ShiftIsDivision(n: Long, s: nat)
    requires 0 < s < 64
    ensures ShiftRightUnsigned(n, s) == Unsigned(n) / Pow2(s)
  {
    HalveIsDivision(Unsigned(n), s);
  }

  /** u shifted right by s bits: halved s times, rounding down. */
  function Halve(u: nat, s: nat): (r: nat)
  {
    if s == 0 then u else Halve(u / 2, s - 1)
  }

  /** A value below 2^(t + s) shifted right by s bits is below 2^t. */
  lemma {:induction false} HalvingBound(u: nat, s: nat, t: nat)
    requires u < Pow2(t + s)
    ensures Halve(u, s) < Pow2(t)
  {
    if s > 0 {
      assert Pow2(t + s) == 2 * Pow2(t + s - 1);
      HalvingBound(u / 2, s - 1, t);
    }
  }

  /** Powers of two grow with their exponent. */
  lemma {:induction false} Pow2Grows(a: nat, b: nat)
    requires a <= b
    ensures Pow2(a) <= Pow2(b)
  {
    if a < b {
      Pow2Grows(a, b - 1);
    }
  }

  /** Shifting right by s bits is dividing by 2^s. */
  lemma {:induction false} HalveIsDivision(u: nat, s: nat)
    ensures Halve(u, s) == u / Pow2(s)
  {
    if s > 0 {
      HalveIsDivision(u / 2, s - 1);
      DivideTwice(u, Pow2(s - 1));
    }
  }

  /** Halving and then dividing by m is dividing by 2m. */
  lemma DivideTwice(u: nat, m: nat)
    requires m >= 1
    ensures (u / 2) / m == u / (2 * m)
  {
    var h, q := u / 2, (u / 2) / m;
    assert h == q * m + h % m;
    assert u == 2 * h + u % 2;
    assert u == q * (2 * m) + (2 * (h % m) + u % 2);
    DivUnique(u, 2 * m, q, 2 * (h % m) + u % 2);
  }

  /** Bitwise AND of two natural numbers, one bit at a time from the lowest. */
  function NatAnd(a: nat, b: nat): (r: nat)
    ensures r <= a && r <= b
  {
    if a == 0 || b == 0 then 0
    else 2 * NatAnd(a / 2, b / 2) + (if a % 2 == 1 && b % 2 == 1 then 1 else 0)
  }

  /** Java's `n & m` on two `long`s. */
  function And(n: Long, m: Long): (r: Long)
    ensures Unsigned(r) == NatAnd(Unsigned(n), Unsigned(m))
  {
    Wrap(NatAnd(Unsigned(n), Unsigned(m)))
  }

  /** AND with the mask of the low p bits keeps exactly the low p bits. */
  lemma {:induction false} NatAndLowMask(x: nat, p: nat)
    ensures NatAnd(x, Pow2(p) - 1) == x % Pow2(p)
  {
    if p == 0 {
      assert Pow2(p) == 1;
      assert NatAnd(x, 0) == 0;
    } else if x == 0 {
      assert NatAnd(0, Pow2(p) - 1) == 0;
      assert 0 % Pow2(p) == 0;
    } else {
      var m := Pow2(p - 1);
      assert Pow2(p) == 2 * m;
      var mask := 2 * m - 1;
      assert mask / 2 == m - 1 && mask % 2 == 1;
      calc {
        NatAnd(x, mask);
        2 * NatAnd(x / 2, m - 1) + x % 2;
        { NatAndLowMask(x / 2, p - 1); }
        2 * ((x / 2) % m) + x % 2;
        { HalvingMod(x, m); }
        x % (2 * m);
      }
    }
  }

  /** The remainder modulo 2m, rebuilt from the remainder of x / 2 modulo m. */
  lemma HalvingMod(x: nat, m: nat)
    requires m >= 1
    ensures 2 * ((x / 2) % m) + x % 2 == x % (2 * m)
  {
    var h, q := x / 2, (x / 2) / m;
    var r := 2 * (h % m) + x % 2;
    assert h == q * m + h % m;
    assert x == 2 * h + x % 2;
    assert x == q * (2 * m) + r;
    assert 0 <= r < 2 * m;
    DivUnique(x, 2 * m, q, r);
  }

  /** Euclidean division is unique: a quotient and remainder in range are the ones `/` and `%` give. */
  lemma DivUnique(x: int, d: int, q: int, r: int)
    requires d > 0 && 0 <= r < d && x == q * d + r
    ensures x / d == q && x % d == r
  {
    var q', r' := x / d, x % d;
    assert x == q' * d + r';
    assert (q - q') * d == r' - r by {
      assert q * d - q' * d == (q - q') * d;
    }
    if q > q' {
      MulAtLeast(q - q', d);
    } else if q < q' {
      MulAtLeast(q' - q, d);
    }
  }

  /** A positive multiple of d is at least d. */
  lemma MulAtLeast(a: int, d: int)
    requires a >= 1 && d > 0
    ensures a * d >= d
  {
  }
}
