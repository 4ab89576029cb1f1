/**
 * The zigzag mapping of signed integers onto unsigned codes, as the Java
 * writer computes it in fixed width, as the Python writer computes it on
 * unbounded integers, and as both readers undo it.
 */
module ZigZag {
  import opened TwosComplement

  /** The zigzag code on unbounded integers: 0, -1, 1, -2, 2, ... become 0, 1, 2, 3, 4, ... */
  function Code(v: int): nat {
    if v >= 0 then 2 * v else -2 * v - 1
  }

  /**
   * `(u >> 1) ^ -(u & 1)`, the un-zigzag both readers apply: `>>` is floor
   * halving and `& 1` the low bit, so `-(u & 1)` is 0 or all ones.
   */
  function Decode(u: int): (v: int)
    ensures u >= 0 ==> Code(v) == u
    ensures IsLong(u) ==> IsLong(v)
  {
    XorUnits(u / 2);
    Xor(u / 2, -(u % 2))
  }

  /** Decoding undoes the code of every integer. */
  lemma DecodeCode(v: int)
    ensures Decode(Code(v)) == v
  {
    XorUnits(Code(v) / 2);
  }

  /**
   * Java `writeInt`'s `(val << 1) ^ (val >> 31)`: the shift left overflows the
   * `int`, the shift right copies the sign, and the `int` result is widened to
   * `long`. The code is non-negative, and then the true zigzag code, exactly
   * on [-2^30, 2^30 - 1].
   */
  function JavaInt(v: int): (z: int)
    requires IsInt(v)
    ensures IsInt(z)
    ensures z >= 0 <==> -0x4000_0000 <= v < 0x4000_0000
    ensures z >= 0 ==> z == Code(v)
  {
    DivRanges(v, TWO_31);
    XorUnits(Wrap32(2 * v));
    Xor(Wrap32(2 * v), v / TWO_31)
  }

  /**
   * Java `writeLong`'s `(val << 1) ^ (val >> 63)` in `long` arithmetic; the
   * code is non-negative, and then the true zigzag code, exactly on
   * [-2^62, 2^62 - 1].
   */
  function JavaLong(v: int): (z: int)
    requires IsLong(v)
    ensures IsLong(z)
    ensures z >= 0 <==> -0x4000_0000_0000_0000 <= v < 0x4000_0000_0000_0000
    ensures z >= 0 ==> z == Code(v)
  {
    DivRanges(v, TWO_63);
    XorUnits(Wrap64(2 * v));
    Xor(Wrap64(2 * v), v / TWO_63)
  }

  /**
   * Python's `(val << 1) ^ (val >> k)` on unbounded integers (`k` is 31 in
   * `write_int` and 63 in `write_long`): the code is below 2^(k+1) exactly
   * when `v` is a signed (k+1)-bit value, and is then the true zigzag code.
   */
  lemma PyRange(v: int, k: nat)
    ensures Xor(2 * v, v / Pow2(k)) >= 0
    ensures Xor(2 * v, v / Pow2(k)) < 2 * Pow2(k) <==> -(Pow2(k) as int) <= v < Pow2(k)
    ensures -(Pow2(k) as int) <= v < Pow2(k) ==> Xor(2 * v, v / Pow2(k)) == Code(v)
  {
    var p: int := Pow2(k);
    DivRanges(v, p);
    XorUnits(2 * v);
    if v >= p {
      DivNonNegative(v, p);
      BitsAbove(v, p, v / p, k);
    } else if v < -p {
      DivNegative(v, p);
      BitsBelow(v, p, v / p, k);
    }
  }

  /** Above the range the exclusive or of `2 * v` and of its shift `q` reaches `2 * p`. */
  lemma BitsAbove(v: int, p: int, q: int, k: nat)
    requires p == Pow2(k) && v >= p && q == v / p && 0 <= q <= v
    ensures XorNat(2 * v, q) >= 2 * p
  {
    assert Pow2(k + 1) == 2 * p;
    if q < 2 * p {
      XorNatHighBit(2 * v, q, k + 1);
    } else {
      FarAbove(v, p, q);
    }
  }

  /** Far above the range the shift is at most half of `2 * v`, so the top bit of `2 * v` survives. */
  lemma FarAbove(v: int, p: int, q: int)
    requires p >= 1 && q == v / p && 0 <= q <= v && q >= 2 * p
    ensures XorNat(2 * v, q) >= 2 * p
  {
    assert v == p * q + v % p;
    MulMono(p, q, 2);
    XorNatHalf(2 * v, q);
  }

  /** Below the range the same holds of the complements of `2 * v` and of `q`. */
  lemma BitsBelow(v: int, p: int, q: int, k: nat)
    requires p == Pow2(k) && v < -p && q == v / p && v <= q < 0
    ensures XorNat(-2 * v - 1, -q - 1) >= 2 * p
  {
    assert Pow2(k + 1) == 2 * p;
    var b := -q - 1;
    if b < 2 * p {
      XorNatHighBit(-2 * v - 1, b, k + 1);
    } else {
      FarBelow(v, p, q);
    }
  }

  /** Far below the range, `2 * v` is so large a complement that the shift cannot clear its top bit. */
  lemma FarBelow(v: int, p: int, q: int)
    requires p >= 1 && q == v / p && v <= q < 0 && -q - 1 >= 2 * p
    ensures XorNat(-2 * v - 1, -q - 1) >= 2 * p
  {
    FloorFarBelow(v, p, q);
    XorNatHalf(-2 * v - 1, -q - 1);
  }

  /** When the floor quotient `q` of `v` by `p` is at most `-2p - 1`, `v` itself is below `-2p`. */
  lemma FloorFarBelow(v: int, p: int, q: int)
    requires p >= 1 && q == v / p && -q - 1 >= 2 * p
    ensures -2 * v - 1 >= 4 * p
  {
    var b := -q - 1;
    assert v == p * q + v % p;
    assert p * b == -(p * q) - p;
    MulMono(p, b, 2);
  }

  /**
   * The fixed-width codes agree with the true code in their low 32 and 64
   * bits: read as unsigned, they are the true code.
   */
  lemma JavaUnsigned(v: int)
    ensures IsInt(v) ==> JavaInt(v) % TWO_32 == Code(v)
    ensures IsLong(v) ==> JavaLong(v) % TWO_64 == Code(v)
  {
    if IsInt(v) {
      DivRanges(v, TWO_31);
      XorUnits(Wrap32(2 * v));
      CodeModulo(v, Wrap32(2 * v), TWO_32);
    }
    if IsLong(v) {
      DivRanges(v, TWO_63);
      XorUnits(Wrap64(2 * v));
      CodeModulo(v, Wrap64(2 * v), TWO_64);
    }
  }

  /**
   * When `w` agrees with `2 * v` modulo `m`, the sign-dependent complement of
   * `w` agrees with the code of `v`, which is its remainder when below `m`.
   */
  lemma CodeModulo(v: int, w: int, m: int)
    requires m >= 1 && Code(v) < m && (w - 2 * v) % m == 0
    ensures (if v >= 0 then w else -w - 1) % m == Code(v)
  {
    var k := (w - 2 * v) / m;
    assert w - 2 * v == m * k;
    if v >= 0 {
      ModMultiple(Code(v), m, k);
    } else {
      assert -w - 1 == Code(v) + m * -k;
      ModMultiple(Code(v), m, -k);
    }
  }
}
