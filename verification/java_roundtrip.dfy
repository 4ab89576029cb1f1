/**
 * What Java's BlockReader recovers from what Java's BlockWriter appends, one
 * primitive kind at a time. The writer's contracts name the octets each
 * `write*` call appends; each lemma here puts a reader anywhere in any input
 * whose next octets, inside its range, are those, and says what the matching
 * `read*` call returns and where it leaves the cursor.
 */
module JavaRoundTrip {
  import opened Bytes
  import opened Errors
  import opened Varint
  import opened TwosComplement
  import ZigZag
  import Cursor
  import BlockReader
  import BlockWriter

  /** `readByte` gives back the low eight bits `writeByte` stored. */
  lemma ByteRoundTrip(v: int, r: Cursor.Reader)
    requires Cursor.Ahead(r, [v % 0x100])
    ensures Cursor.ReadByte(r) == Ok((v % 0x100, r.(offset := r.offset + 1)))
  {
    assert r.input[r.offset + 0] == [v % 0x100][0];
  }

  /** `readBool` gives back the flag `writeBool` stored as 1 or 0. */
  lemma BoolRoundTrip(b: bool, r: Cursor.Reader)
    requires Cursor.Ahead(r, [if b then 1 else 0])
    ensures Cursor.ReadBool(r) == Ok((b, r.(offset := r.offset + 1)))
  {
    assert r.input[r.offset + 0] == [if b then 1 else 0][0];
  }

  /** `readBytes(|s|)` gives back the octets `writeBytes(s)` stored. */
  lemma BytesRoundTrip(s: seq<byte>, r: Cursor.Reader)
    requires Cursor.Ahead(r, s)
    ensures Cursor.ReadBytes(r, |s|) == Ok((s, r.(offset := r.offset + |s|)))
  {
    Cursor.ReadBytesAt(r, s);
  }

  /** `readDouble` gives back the eight-octet image `writeDouble` stored. */
  lemma DoubleRoundTrip(image: seq<byte>, r: Cursor.Reader)
    requires |image| == 8
    requires Cursor.Ahead(r, image)
    ensures BlockReader.ReadDouble(r) == Ok((image, r.(offset := r.offset + 8)))
  {
    Cursor.ReadBytesAt(r, image);
  }

  /**
   * `readByteStr(maxlen)` gives back the octets `writeByteStr(s)` stored when
   * `maxlen` admits them, and consumes the length prefix with them.
   */
  lemma ByteStrRoundTrip(s: seq<byte>, maxlen: int, r: Cursor.Reader)
    requires |s| < TWO_31
    requires maxlen == 0 || |s| <= maxlen
    requires Cursor.Ahead(r, Encode(|s|) + s)
    ensures Cursor.ReadByteStr(r, maxlen) == Ok((s, r.(offset := r.offset + |Encode(|s|)| + |s|)))
  {
    Cursor.ReadByteStrEncoded(r, s, maxlen);
  }

  /**
   * A null byte string is written as the empty one is, and reads back empty
   * under any `maxlen` that is not negative (a negative one refuses even the
   * empty string).
   */
  lemma NullByteStrRoundTrip(w: BlockWriter.Writer, maxlen: int, r: Cursor.Reader)
    requires maxlen >= 0
    requires Cursor.Ahead(r, [0])
    ensures BlockWriter.WriteByteStr(w, None) == BlockWriter.WriteByteStr(w, Some([]))
    ensures Cursor.ReadByteStr(r, maxlen) == Ok(([], r.(offset := r.offset + 1)))
  {
    assert Encode(0) + [] == [0];
    Cursor.ReadByteStrEncoded(r, [], maxlen);
  }

  /** A byte string longer than a non-zero `maxlen` is refused with ArgOutOfRange. */
  lemma ByteStrTooLong(s: seq<byte>, maxlen: int, r: Cursor.Reader)
    requires |s| < TWO_31
    requires maxlen != 0 && |s| > maxlen
    requires Cursor.Ahead(r, Encode(|s|) + s)
    ensures Cursor.ReadByteStr(r, maxlen) == Err(ArgOutOfRange)
  {
    var r1 := Cursor.Advance(r, |Encode(|s|)|);
    Cursor.AheadSplit(r, Encode(|s|), s, r1);
    Cursor.ReadByteStrTooLong(r, |s|, maxlen);
  }

  /** `readUint` gives back every value below 2^35 that `writeUint` stored. */
  lemma UintRoundTrip(v: int, r: Cursor.Reader)
    requires 0 <= v < 0x8_0000_0000
    requires Cursor.Ahead(r, Encode(v))
    ensures BlockReader.ReadUint(r) == Ok((v, r.(offset := r.offset + |Encode(v)|)))
  {
    Cursor.ReadUintEncoded(r, v);
  }

  /**
   * A value of 2^35 or more takes over five octets, every one of them with
   * 0x80 set, so `readUint` refuses it.
   */
  lemma UintTooWide(v: int, r: Cursor.Reader)
    requires 0x8_0000_0000 <= v < TWO_63
    requires Cursor.Ahead(r, Encode(v))
    ensures BlockReader.ReadUint(r) == Err(MalformedMessage)
  {
    EncodeWellFormed(v);
    EncodeSizes(v);
    Cursor.ReadVarIntTooLong(r, Encode(v), 5);
  }

  /** `readUlong` gives back, as a `long`, the low 64 bits of a varint of at most ten octets. */
  lemma ReadUlongEncoded(r: Cursor.Reader, u: nat)
    requires u < TWO_64
    requires Cursor.Ahead(r, Encode(u))
    ensures BlockReader.ReadUlong(r) == Ok((Wrap64(u), r.(offset := r.offset + |Encode(u)|)))
  {
    EncodeSizes(u);
    Cursor.ReadVarIntEncoded(r, u, 10);
  }

  /** `readUlong` gives back every value below 2^63 that `writeUlong` stored. */
  lemma UlongRoundTrip(v: int, r: Cursor.Reader)
    requires 0 <= v < TWO_63
    requires Cursor.Ahead(r, Encode(v))
    ensures BlockReader.ReadUlong(r) == Ok((v, r.(offset := r.offset + |Encode(v)|)))
  {
    assert Wrap64(v) == v;
    ReadUlongEncoded(r, v);
  }

  /**
   * `writeUlong` of a negative `long` (an unsigned value of 2^63 or more
   * carried in Java's signed type) emits its low eight bits alone, from which
   * `readUlong` cannot recover the value: it either stops after that octet
   * with a value below 0x80 or goes on into octets the write did not emit.
   */
  lemma UlongAsWrittenLoses(v: int, r: Cursor.Reader)
    requires -TWO_63 <= v < 0
    requires Cursor.Ahead(r, BlockWriter.VarIntOctets(v))
    ensures BlockReader.ReadUlong(r) != Ok((v, r.(offset := r.offset + |BlockWriter.VarIntOctets(v)|)))
  {
    var res := Cursor.ReadVarInt(r, 10);
    Cursor.ReadVarIntConsumes(r, 10);
    if res.Ok? && res.value.1.offset == r.offset + 1 {
      SingleOctetValue(r.input[r.offset..r.offset + 1]);
    }
  }

  /** The value of a one-octet varint is its low seven bits. */
  lemma SingleOctetValue(s: seq<byte>)
    requires |s| == 1
    ensures Fold(0, s) == s[0] % 0x80
  {
    assert s == [] + [s[0]];
    FoldSnoc(0, [], s[0]);
  }

  /**
   * `writeUlong` as evidently intended (the `long` taken as unsigned): every
   * `long` comes back from `readUlong` as itself.
   */
  lemma UlongUnsignedRoundTrip(v: int, u: nat, r: Cursor.Reader)
    requires IsLong(v) && u == BlockWriter.Unsigned64(v)
    requires Cursor.Ahead(r, Encode(u))
    ensures BlockReader.ReadUlong(r) == Ok((v, r.(offset := r.offset + |Encode(u)|)))
  {
    ReadUlongEncoded(r, u);
  }

  /**
   * `readInt` gives back every `int` whose zigzag code was written as a
   * varint: what `writeInt` emits on [-2^30, 2^30) and what the corrected
   * writer emits for every `int`.
   */
  lemma IntRoundTrip(v: int, r: Cursor.Reader)
    requires IsInt(v)
    requires Cursor.Ahead(r, Encode(ZigZag.Code(v)))
    ensures BlockReader.ReadInt(r) == Ok((v, r.(offset := r.offset + |Encode(ZigZag.Code(v))|)))
  {
    var c := ZigZag.Code(v);
    assert c < 0x8_0000_0000;
    assert BlockReader.ReadUint(r) == Ok((c, r.(offset := r.offset + |Encode(c)|))) by {
      Cursor.ReadUintEncoded(r, c);
    }
    ZigZag.DecodeCode(v);
  }

  /**
   * `writeInt` of an `int` outside [-2^30, 2^30) emits one octet, which
   * `readInt` either reads as a value in [-64, 64) or reads past.
   */
  lemma IntAsWrittenLoses(v: int, r: Cursor.Reader)
    requires IsInt(v) && !(-0x4000_0000 <= v < 0x4000_0000)
    requires Cursor.Ahead(r, BlockWriter.VarIntOctets(ZigZag.JavaInt(v)))
    ensures BlockReader.ReadInt(r) != Ok((v, r.(offset := r.offset + |BlockWriter.VarIntOctets(ZigZag.JavaInt(v))|)))
  {
    var res := Cursor.ReadVarInt(r, 5);
    Cursor.ReadVarIntConsumes(r, 5);
    if res.Ok? && res.value.1.offset == r.offset + 1 {
      SingleOctetValue(r.input[r.offset..r.offset + 1]);
      SmallCode(ZigZag.Decode(res.value.0));
    }
  }

  /**
   * `writeLong` of a `long` outside [-2^62, 2^62) emits one octet, which
   * `readLong` either reads as a value in [-64, 64) or reads past.
   */
  lemma LongAsWrittenLoses(v: int, r: Cursor.Reader)
    requires IsLong(v) && !(-0x4000_0000_0000_0000 <= v < 0x4000_0000_0000_0000)
    requires Cursor.Ahead(r, BlockWriter.VarIntOctets(ZigZag.JavaLong(v)))
    ensures BlockReader.ReadLong(r) != Ok((v, r.(offset := r.offset + |BlockWriter.VarIntOctets(ZigZag.JavaLong(v))|)))
  {
    var res := Cursor.ReadVarInt(r, 10);
    Cursor.ReadVarIntConsumes(r, 10);
    if res.Ok? && res.value.1.offset == r.offset + 1 {
      SingleOctetValue(r.input[r.offset..r.offset + 1]);
      SmallCode(ZigZag.Decode(res.value.0));
    }
  }

  /** An integer whose zigzag code is below 0x80 lies in [-64, 64). */
  lemma SmallCode(x: int)
    requires ZigZag.Code(x) < 0x80
    ensures -64 <= x < 64 && Wrap32(x) == x
  {
  }

  /** `writeInt(2^30)` emits the single octet 0, which is the whole varint of 0. */
  lemma IntAsWrittenExample()
    ensures BlockWriter.WriteInt(BlockWriter.New([]), 0x4000_0000).data == [0]
    ensures Encode(ZigZag.Code(0)) == [0]
  {
    XorUnits(-TWO_31);
  }

  /** `readLong` where the varint of `c` lies, with the `long` its un-zigzagged image names as `x`. */
  lemma ReadLongAt(r: Cursor.Reader, c: nat, x: int)
    requires c < TWO_64 && ZigZag.Decode(Wrap64(c)) == x
    requires Cursor.Ahead(r, Encode(c))
    ensures BlockReader.ReadLong(r) == Ok((x, r.(offset := r.offset + |Encode(c)|)))
  {
    ReadUlongEncoded(r, c);
    ReadLongOf(r, Wrap64(c), r.(offset := r.offset + |Encode(c)|));
  }

  /** `readLong` un-zigzags whatever `readUlong` returns and stops where it stops. */
  lemma ReadLongOf(r: Cursor.Reader, u: int, r': Cursor.Reader)
    requires r.Valid() && BlockReader.ReadUlong(r) == Ok((u, r'))
    ensures BlockReader.ReadLong(r) == Ok((ZigZag.Decode(u), r'))
  {
  }

  /**
   * `readLong` gives back every `long` in [-2^62, 2^62) whose zigzag code `c`
   * was written as a varint: everything `writeLong` emits correctly.
   */
  lemma LongRoundTrip(v: int, c: nat, r: Cursor.Reader)
    requires -0x4000_0000_0000_0000 <= v < 0x4000_0000_0000_0000 && c == ZigZag.Code(v)
    requires Cursor.Ahead(r, Encode(c))
    ensures BlockReader.ReadLong(r) == Ok((v, r.(offset := r.offset + |Encode(c)|)))
  {
    ZigZag.DecodeCode(v);
    assert Wrap64(c) == c;
    ReadLongAt(r, c, v);
  }

  /** The `long` with bit 63 of `x` flipped. */
  function FlipTop(x: int): int {
    if x >= 0 then x - TWO_63 else x + TWO_63
  }

  /**
   * A zigzag code of 2^63 or more (the code of every `long` outside
   * [-2^62, 2^62)) comes back from `readUlong` as a negative `long`, and the
   * arithmetic shift of `readLong` copies its sign: the value it returns is
   * the coded one with bit 63 flipped.
   */
  lemma ReadLongFlipsTopBit(c: nat, r: Cursor.Reader)
    requires TWO_63 <= c < TWO_64
    requires Cursor.Ahead(r, Encode(c))
    ensures BlockReader.ReadLong(r) == Ok((FlipTop(ZigZag.Decode(c)), r.(offset := r.offset + |Encode(c)|)))
    ensures FlipTop(ZigZag.Decode(c)) != ZigZag.Decode(c)
  {
    DecodeWrapped(c);
    ReadLongAt(r, c, FlipTop(ZigZag.Decode(c)));
  }

  /** Un-zigzagging the wrapped image of a code of 2^63 or more flips bit 63 of what it codes. */
  lemma DecodeWrapped(c: int)
    requires TWO_63 <= c < TWO_64
    ensures ZigZag.Decode(Wrap64(c)) == FlipTop(ZigZag.Decode(c))
  {
    Wrap64Congruent(c, c - TWO_64);
    XorUnits(c / 2);
    XorUnits((c - TWO_64) / 2);
  }

  /** The codes of 2^63 or more are exactly the codes of the `long` values outside [-2^62, 2^62). */
  lemma WideLongCodes(v: int)
    ensures TWO_63 <= ZigZag.Code(v) < TWO_64 <==> IsLong(v) && !(-0x4000_0000_0000_0000 <= v < 0x4000_0000_0000_0000)
  {
  }

  /** `writeLong` as corrected, then `readLong`: 2^62 comes back as -2^62. */
  lemma ReadLongFlipsExample(r: Cursor.Reader)
    requires Cursor.Ahead(r, Encode(ZigZag.Code(0x4000_0000_0000_0000)))
    ensures ZigZag.Code(0x4000_0000_0000_0000) == TWO_63
    ensures BlockReader.ReadLong(r).Ok? && BlockReader.ReadLong(r).value.0 == -0x4000_0000_0000_0000
  {
    ReadLongFlipsTopBit(TWO_63, r);
    ZigZag.DecodeCode(0x4000_0000_0000_0000);
  }

  /** The corrected `readLong` un-zigzags the unsigned image of whatever `readUlong` returns. */
  lemma ReadLongUnsignedOf(r: Cursor.Reader, u: int, r': Cursor.Reader)
    requires r.Valid() && BlockReader.ReadUlong(r) == Ok((u, r'))
    ensures BlockReader.ReadLongUnsigned(r) == Ok((ZigZag.Decode(u % TWO_64), r'))
  {
  }

  /**
   * The corrected `readLong` un-zigzags every code below 2^64 that lies ahead
   * as a varint; with `ZigZag.DecodeCode`, every `long` written by the
   * corrected `writeLong` comes back as itself.
   */
  lemma ReadLongUnsignedAt(r: Cursor.Reader, c: nat)
    requires c < TWO_64
    requires Cursor.Ahead(r, Encode(c))
    ensures BlockReader.ReadLongUnsigned(r) == Ok((ZigZag.Decode(c), r.(offset := r.offset + |Encode(c)|)))
  {
    ReadUlongEncoded(r, c);
    ReadLongUnsignedOf(r, Wrap64(c), r.(offset := r.offset + |Encode(c)|));
    UnwrapBelow64(c);
  }

  /** Every `long`, written by the corrected `writeLong`, reads back as itself through the corrected `readLong`. */
  lemma LongUnsignedRoundTrip(w: BlockWriter.Writer, v: int, r: Cursor.Reader)
    requires IsLong(v)
    requires Cursor.Ahead(r, BlockWriter.WriteLongUnsigned(w, v).data[|w.data|..])
    ensures BlockReader.ReadLongUnsigned(r).Ok? && BlockReader.ReadLongUnsigned(r).value.0 == v
  {
    var c := ZigZag.Code(v);
    BlockReader.CodeBelow64(v);
    assert BlockWriter.WriteLongUnsigned(w, v).data[|w.data|..] == Encode(c);
    ReadLongUnsignedAt(r, c);
    ZigZag.DecodeCode(v);
  }

  /** Reading a wrapped `long` back as unsigned recovers what was wrapped. */
  lemma UnwrapBelow64(c: int)
    requires 0 <= c < TWO_64
    ensures Wrap64(c) % TWO_64 == c
  {
    var w := Wrap64(c);
    var k := (w - c) / TWO_64;
    assert w == c + TWO_64 * k;
    ModMultiple(c, TWO_64, k);
  }
}
