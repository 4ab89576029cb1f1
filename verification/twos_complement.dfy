/**
 * Fixed-width two's-complement arithmetic over unbounded integers: the Java
 * `int`/`long` narrowing casts, and bitwise exclusive or as both languages
 * define it on signed values.
 */
module TwosComplement {

  const TWO_31: int := 0x8000_0000
  const TWO_32: int := 0x1_0000_0000
  const TWO_63: int := 0x8000_0000_0000_0000
  const TWO_64: int := 0x1_0000_0000_0000_0000

  /** `x` is a value of a Java `int`. */
  predicate IsInt(x: int) {
    -TWO_31 <= x < TWO_31
  }

  /** `x` is a value of a Java `long`. */
  predicate IsLong(x: int) {
    -TWO_63 <= x < TWO_63
  }

  /** The Java `int` whose low 32 bits are those of `x`: the cast `(int) x`, and the result of any `int` operation that overflows. */
  function Wrap32(x: int): (r: int)
    ensures IsInt(r)
    ensures (r - x) % TWO_32 == 0
    ensures IsInt(x) ==> r == x
  {
    (x + TWO_31) % TWO_32 - TWO_31
  }

  /** The Java `long` whose low 64 bits are those of `x`. */
  function Wrap64(x: int): (r: int)
    ensures IsLong(r)
    ensures (r - x) % TWO_64 == 0
    ensures IsLong(x) ==> r == x
  {
    (x + TWO_63) % TWO_64 - TWO_63
  }

  /** Two integers that agree modulo 2^64 narrow to the same `long`. */
  lemma Wrap64Congruent(a: int, b: int)
    requires (a - b) % TWO_64 == 0
    ensures Wrap64(a) == Wrap64(b)
  {
    assert (a + TWO_63) - (b + TWO_63) == a - b;
    CongruentMod(a + TWO_63, b + TWO_63, TWO_64);
  }

  /** Two integers that agree modulo 2^32 narrow to the same `int`. */
  lemma Wrap32Congruent(a: int, b: int)
    requires (a - b) % TWO_32 == 0
    ensures Wrap32(a) == Wrap32(b)
  {
    assert (a + TWO_31) - (b + TWO_31) == a - b;
    CongruentMod(a + TWO_31, b + TWO_31, TWO_32);
  }

  /** Two integers whose difference is a multiple of `m` leave the same remainder. */
  lemma CongruentMod(x: int, y: int, m: int)
    requires m >= 1 && (x - y) % m == 0
    ensures x % m == y % m
  {
    var c, q, k := y % m, y / m, (x - y) / m;
    assert y == m * q + c;
    assert x - y == m * k;
    assert m * q + m * k == m * (q + k);
    ModMultiple(c, m, q + k);
  }

  function Pow2(k: nat): (p: nat)
    ensures p >= 1
  {
    if k == 0 then 1 else 2 * Pow2(k - 1)
  }

  lemma Pow2Constants()
    ensures Pow2(31) == TWO_31
    ensures Pow2(32) == TWO_32
    ensures Pow2(63) == TWO_63
    ensures Pow2(64) == TWO_64
  {
    assert Pow2(4) == 0x10;
    Pow2Add(4, 4);
    assert Pow2(8) == 0x100;
    Pow2Add(8, 8);
    assert Pow2(16) == 0x1_0000;
    Pow2Add(16, 16);
    assert Pow2(32) == TWO_32;
    Pow2Add(32, 32);
    assert Pow2(64) == TWO_64;
  }

  lemma {:induction false} Pow2Add(a: nat, b: nat)
    ensures Pow2(a + b) == Pow2(a) * Pow2(b)
  {
    if a > 0 {
      Pow2Add(a - 1, b);
    }
  }

  /** Bitwise exclusive or of two naturals. */
  function XorNat(a: nat, b: nat): nat
    decreases a
  {
    if a == 0 then b
    else if b == 0 then a
    else 2 * XorNat(a / 2, b / 2) + (if a % 2 == b % 2 then 0 else 1)
  }

  /**
   * Bitwise exclusive or of two's-complement integers of unbounded width:
   * Python's `^`, and Java's `^` on any operands of one width (the result of
   * sign-extended operands is the sign extension of the result).
   * A negative `a` is the complement of the natural `-a - 1`.
   */
  function Xor(a: int, b: int): int {
    if a >= 0 && b >= 0 then XorNat(a, b)
    else if a < 0 && b < 0 then XorNat(-a - 1, -b - 1)
    else if a < 0 then -(XorNat(-a - 1, b) as int) - 1
    else -(XorNat(a, -b - 1) as int) - 1
  }

  /** Exclusive or with 0 changes nothing; with -1 (all ones) it complements. */
  lemma XorUnits(a: int)
    ensures Xor(a, 0) == a
    ensures Xor(a, -1) == -a - 1
  {
  }

  /** When `a` has a set bit at position `k` or above and `b` has none, so does their exclusive or. */
  lemma {:induction false} XorNatHighBit(a: nat, b: nat, k: nat)
    requires b < Pow2(k) <= a
    ensures XorNat(a, b) >= Pow2(k)
  {
    if k == 0 || b == 0 {
    } else {
      XorNatHighBit(a / 2, b / 2, k - 1);
    }
  }

  /** When `b` is at most half of `a`, the top bit of `a` survives the exclusive or, so the result exceeds half of `a`. */
  lemma {:induction false} XorNatHalf(a: nat, b: nat)
    requires 1 <= a && 2 * b <= a
    ensures 2 * XorNat(a, b) > a
    decreases a
  {
    if b == 0 {
    } else {
      XorNatHalf(a / 2, b / 2);
    }
  }

  /** Adding multiples of `m` leaves the remainder of a value below `m` alone. */
  lemma ModMultiple(c: int, m: int, k: int)
    requires 0 <= c < m
    ensures (c + m * k) % m == c
  {
    var x := c + m * k;
    var q, r := x / m, x % m;
    assert m * (q - k) == c - r;
    MulMono(m, q - k, 1);
    MulMono(m, -1, q - k);
  }

  /** Multiplying by a non-negative `m` keeps order. */
  lemma MulMono(m: int, j: int, c: int)
    requires m >= 0
    ensures j >= c ==> m * j >= m * c
  {
    if j >= c {
      assert m * j - m * c == m * (j - c);
    }
  }

  /** Floor division of a natural by a positive divisor gives a natural no larger. */
  lemma DivNonNegative(v: int, p: int)
    requires p >= 1 && v >= 0
    ensures 0 <= v / p <= v
  {
    QuotientNonNegative(v, p, v / p, v % p);
  }

  lemma QuotientNonNegative(v: int, p: int, q: int, r: int)
    requires p >= 1 && v >= 0
    requires v == p * q + r && 0 <= r < p
    ensures 0 <= q <= v
  {
    assert q <= -1 ==> p * q <= -p;
    assert v - q == (p - 1) * q + r;
    assert q >= 0 ==> (p - 1) * q >= 0;
  }

  /** Floor division of a negative value by a positive divisor stays negative and moves toward zero. */
  lemma DivNegative(v: int, p: int)
    requires p >= 1 && v < 0
    ensures v <= v / p < 0
  {
    QuotientNegative(v, p, v / p, v % p);
  }

  lemma QuotientNegative(v: int, p: int, q: int, r: int)
    requires p >= 1 && v < 0
    requires v == p * q + r && 0 <= r < p
    ensures v <= q < 0
  {
    assert q >= 0 ==> p * q >= 0;
    var m := -q - 1;
    assert (p - 1) * m >= 0;
    assert p * q == -(p - 1) * m - (p - 1) + q;
  }

  /** Where floor division by a positive `p` lands, by the range of the dividend. */
  lemma DivRanges(v: int, p: int)
    requires p >= 1
    ensures 0 <= v < p ==> v / p == 0
    ensures -p <= v < 0 ==> v / p == -1
    ensures v >= p ==> v / p >= 1
    ensures v < -p ==> v / p <= -2
  {
    QuotientRanges(v, p, v / p, v % p);
  }

  lemma QuotientRanges(v: int, p: int, q: int, r: int)
    requires p >= 1
    requires v == p * q + r && 0 <= r < p
    ensures 0 <= v < p ==> q == 0
    ensures -p <= v < 0 ==> q == -1
    ensures v >= p ==> q >= 1
    ensures v < -p ==> q <= -2
  {
    assert q >= 1 ==> p * q >= p;
    assert q <= -1 ==> p * q <= -p;
    assert q >= 0 ==> p * q >= 0;
    assert q >= -1 ==> p * q >= -p;
  }
}
