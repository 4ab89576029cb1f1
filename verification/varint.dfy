/**
 * The base-128 variable-length integer of the wire format: seven-bit groups,
 * most significant first, every octet but the last carrying 0x80. This is
 * the octet shape of a subidentifier in section 8.19.2 of ITU-T X.690, not
 * the little-endian Protocol Buffers varint.
 */
module Varint {
  import opened Bytes

  /**
   * The value a reader accumulates from the octets `s` when it has already
   * accumulated `acc`: each octet's low seven bits go below what came before.
   */
  function Fold(acc: int, s: seq<byte>): int
    decreases |s|
  {
    if |s| == 0 then acc else Fold(acc * 0x80 + s[0] % 0x80, s[1..])
  }

  lemma {:induction false} FoldSnoc(acc: int, s: seq<byte>, x: byte)
    ensures Fold(acc, s + [x]) == Fold(acc, s) * 0x80 + x % 0x80
    decreases |s|
  {
    if |s| > 0 {
      assert (s + [x])[1..] == s[1..] + [x];
      FoldSnoc(acc * 0x80 + s[0] % 0x80, s[1..], x);
    }
  }

  /** A complete varint: at least one octet, 0x80 set on all but the last and clear on the last. */
  predicate WellFormed(s: seq<byte>) {
    && |s| >= 1
    && s[|s| - 1] < 0x80
    && forall i :: 0 <= i < |s| - 1 ==> s[i] >= 0x80
  }

  /** The seven-bit groups of `u`, most significant first, every one of them with 0x80 set. */
  function EncodeHigh(u: nat): (r: seq<byte>)
    ensures 1 <= |r|
    decreases u
  {
    if u < 0x80 then [u + 0x80] else EncodeHigh(u / 0x80) + [u % 0x80 + 0x80]
  }

  /** Every octet of `EncodeHigh(u)` carries the continuation bit, and its groups add up to `u`. */
  lemma {:induction false} EncodeHighGroups(u: nat)
    ensures forall i :: 0 <= i < |EncodeHigh(u)| ==> EncodeHigh(u)[i] >= 0x80
    ensures Fold(0, EncodeHigh(u)) == u
    decreases u
  {
    if u >= 0x80 {
      EncodeHighGroups(u / 0x80);
      FoldSnoc(0, EncodeHigh(u / 0x80), u % 0x80 + 0x80);
    }
  }

  /**
   * The varint of `v`: a single octet equal to `v` when `v` is at most 0x7F,
   * otherwise the higher groups with continuation followed by the low group
   * without it.
   */
  function Encode(v: nat): (r: seq<byte>)
    ensures 1 <= |r|
    ensures v < 0x80 <==> |r| == 1
    ensures r[|r| - 1] == v % 0x80
  {
    if v < 0x80 then [v] else EncodeHigh(v / 0x80) + [v % 0x80]
  }

  /** `Encode(v)` is a complete varint (0x80 on every octet but the last) whose groups add up to `v`. */
  lemma EncodeWellFormed(v: nat)
    ensures WellFormed(Encode(v))
    ensures Fold(0, Encode(v)) == v
  {
    if v >= 0x80 {
      EncodeHighGroups(v / 0x80);
      FoldSnoc(0, EncodeHigh(v / 0x80), v % 0x80);
    }
  }

  function Pow128(k: nat): (p: nat)
    ensures p >= 1
  {
    if k == 0 then 1 else 0x80 * Pow128(k - 1)
  }

  lemma {:induction false} EncodeHighLength(u: nat, k: nat)
    requires k >= 1
    ensures |EncodeHigh(u)| <= k <==> u < Pow128(k)
    decreases u
  {
    if u >= 0x80 && k >= 2 {
      EncodeHighLength(u / 0x80, k - 1);
    }
  }

  /** `Encode(v)` fits in `k` octets exactly when `v` is below 128^k. */
  lemma EncodeLength(v: nat, k: nat)
    requires k >= 1
    ensures |Encode(v)| <= k <==> v < Pow128(k)
  {
    if v >= 0x80 && k >= 2 {
      EncodeHighLength(v / 0x80, k - 1);
    }
  }

  lemma Pow128Constants()
    ensures Pow128(5) == 0x8_0000_0000
    ensures Pow128(9) == 0x8000_0000_0000_0000
    ensures Pow128(10) == 0x40_0000_0000_0000_0000
  {
    assert Pow128(3) == 0x20_0000;
    assert Pow128(5) == 0x8_0000_0000;
    assert Pow128(7) == 0x2_0000_0000_0000;
    assert Pow128(9) == 0x8000_0000_0000_0000;
  }

  /**
   * The octet counts the readers' caps rely on: below 2^35 at most five
   * octets, below 2^63 between one and nine (within Java's ten-octet scratch
   * buffer), below 2^64 at most ten.
   */
  lemma EncodeSizes(v: nat)
    ensures v < 0x8_0000_0000 <==> |Encode(v)| <= 5
    ensures v < 0x8000_0000_0000_0000 <==> |Encode(v)| <= 9
    ensures v < 0x1_0000_0000_0000_0000 ==> |Encode(v)| <= 10
  {
    Pow128Constants();
    EncodeLength(v, 5);
    EncodeLength(v, 9);
    EncodeLength(v, 10);
  }

  /** The value of `k` octets is below 128^k. */
  lemma {:induction false} FoldBound(s: seq<byte>)
    ensures 0 <= Fold(0, s) < Pow128(|s|)
    decreases |s|
  {
    if |s| > 0 {
      var init := s[..|s| - 1];
      assert s == init + [s[|s| - 1]];
      FoldSnoc(0, init, s[|s| - 1]);
      FoldBound(init);
    }
  }

  lemma {:induction false} Pow128Monotone(j: nat, k: nat)
    requires j <= k
    ensures Pow128(j) <= Pow128(k)
    decreases k
  {
    if j < k {
      Pow128Monotone(j, k - 1);
    }
  }
}
