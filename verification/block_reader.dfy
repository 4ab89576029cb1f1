/**
 * Java's BlockReader: the shared cursor, with the accumulator of `readVarInt`
 * held in a 64-bit `long` and the signed reads narrowed to `int`/`long`.
 */
module BlockReader {
  import opened Bytes
  import opened Errors
  import opened Varint
  import opened TwosComplement
  import ZigZag
  import Cursor

  /**
   * The loop of `readVarInt` with its `long` accumulator: `val |= octet & 0x7f`
   * adds (the low seven bits of `val` are clear), and `val <<= 7` drops the
   * bits shifted past bit 63.
   */
  function ReadVarIntFrom(r: Cursor.Reader, maxOctets: nat, val: int): (res: Result<(int, Cursor.Reader), ErrorCode>)
    requires r.Valid() && IsLong(val) && val % 0x80 == 0
    ensures res.Err? ==> res.error == MalformedMessage
    ensures res.Ok? ==> IsLong(res.value.0)
    decreases maxOctets
  {
    if maxOctets == 0 then Err(MalformedMessage)
    else
      var p :- Cursor.ReadByte(r);
      var val1 := val + p.0 % 0x80;
      LowBitsFree(val, p.0 % 0x80);
      if p.0 < 0x80 then Ok((val1, p.1))
      else
        ShiftClearsLowBits(val1);
        ReadVarIntFrom(p.1, maxOctets - 1, Wrap64(val1 * 0x80))
  }

  /** A `long` with its low seven bits clear has room for seven more. */
  lemma LowBitsFree(val: int, low: int)
    requires IsLong(val) && val % 0x80 == 0 && 0 <= low < 0x80
    ensures IsLong(val + low)
  {
    var q := val / 0x80;
    assert val == 0x80 * q;
  }

  /** `x << 7` in `long` arithmetic has its low seven bits clear. */
  lemma ShiftClearsLowBits(x: int)
    ensures Wrap64(x * 0x80) % 0x80 == 0
  {
    var w := Wrap64(x * 0x80);
    var k := (w - x * 0x80) / TWO_64;
    assert w == x * 0x80 + TWO_64 * k;
    assert w == 0x80 * (x + 0x200_0000_0000_0000 * k);
  }

  /** Shifting two integers that agree modulo 2^64 keeps them in agreement. */
  lemma ShiftCongruent(a: int, b: int)
    requires (a - b) % TWO_64 == 0
    ensures Wrap64(a * 0x80) == Wrap64(b * 0x80)
  {
    var k := (a - b) / TWO_64;
    assert a - b == TWO_64 * k;
    assert a * 0x80 - b * 0x80 == TWO_64 * (0x80 * k);
    Wrap64Congruent(a * 0x80, b * 0x80);
  }

  /** An unbounded read's outcome as a `long` read reports it: the value narrowed to its low 64 bits. */
  function Narrowed(res: Result<(nat, Cursor.Reader), ErrorCode>): (n: Result<(int, Cursor.Reader), ErrorCode>)
    ensures n.Ok? == res.Ok?
    ensures n.Ok? ==> n.value.0 == Wrap64(res.value.0) && n.value.1 == res.value.1
    ensures n.Err? ==> n.error == res.error
  {
    if res.Ok? then Ok((Wrap64(res.value.0), res.value.1)) else Err(res.error)
  }

  /**
   * The `long` loop computes the low 64 bits of what the unbounded loop
   * computes, fails exactly when it fails, and leaves the cursor where it does.
   */
  lemma {:induction false} ReadVarIntFromWraps(r: Cursor.Reader, k: nat, val: nat, acc: int)
    requires r.Valid() && val % 0x80 == 0 && IsLong(acc) && acc % 0x80 == 0 && acc == Wrap64(val)
    ensures ReadVarIntFrom(r, k, acc) == Narrowed(Cursor.ReadVarIntFrom(r, k, val))
    decreases k
  {
    if k > 0 && r.offset < r.end {
      var o := r.input[r.offset] % 0x80;
      WrapStep(val, acc, o);
      if r.input[r.offset] >= 0x80 {
        StepWrapped(r, k, acc);
        StepUnbounded(r, k, val);
        ReadVarIntFromWraps(r.(offset := r.offset + 1), k - 1, (val + o) * 0x80, Wrap64((acc + o) * 0x80));
      } else {
        StopBoth(r, k, val, acc);
      }
    } else {
      EndBoth(r, k, val, acc);
    }
  }

  /** No octet left in the cap or the range: both loops fail alike. */
  lemma EndBoth(r: Cursor.Reader, k: nat, val: nat, acc: int)
    requires r.Valid() && val % 0x80 == 0 && IsLong(acc) && acc % 0x80 == 0
    requires k == 0 || r.offset == r.end
    ensures ReadVarIntFrom(r, k, acc) == Err(MalformedMessage)
    ensures Cursor.ReadVarIntFrom(r, k, val) == Err(MalformedMessage)
  {
  }

  /**
   * One group added to accumulators that agree modulo 2^64 keeps them in
   * agreement, before and after the shift, and keeps the `long` one in range.
   */
  lemma WrapStep(val: nat, acc: int, o: int)
    requires val % 0x80 == 0 && IsLong(acc) && acc % 0x80 == 0 && acc == Wrap64(val) && 0 <= o < 0x80
    ensures IsLong(acc + o) && acc + o == Wrap64(val + o)
    ensures ((val + o) * 0x80) % 0x80 == 0
    ensures IsLong(Wrap64((acc + o) * 0x80)) && Wrap64((acc + o) * 0x80) % 0x80 == 0
    ensures Wrap64((acc + o) * 0x80) == Wrap64((val + o) * 0x80)
  {
    LowBitsFree(acc, o);
    Wrap64Congruent(acc + o, val + o);
    ShiftCongruent(acc + o, val + o);
    ShiftClearsLowBits(acc + o);
    MulMod(val + o);
  }

  /** A multiple of 0x80 has its low seven bits clear. */
  lemma MulMod(x: int)
    ensures (x * 0x80) % 0x80 == 0
  {
  }

  /** One continuation octet: the `long` loop goes on from the next octet. */
  lemma StepWrapped(r: Cursor.Reader, k: nat, acc: int)
    requires r.Valid() && IsLong(acc) && acc % 0x80 == 0
    requires k > 0 && r.offset < r.end && r.input[r.offset] >= 0x80
    ensures IsLong(acc + r.input[r.offset] % 0x80) && Wrap64((acc + r.input[r.offset] % 0x80) * 0x80) % 0x80 == 0
    ensures ReadVarIntFrom(r, k, acc)
            == ReadVarIntFrom(r.(offset := r.offset + 1), k - 1, Wrap64((acc + r.input[r.offset] % 0x80) * 0x80))
  {
    LowBitsFree(acc, r.input[r.offset] % 0x80);
    ShiftClearsLowBits(acc + r.input[r.offset] % 0x80);
  }

  /** One continuation octet: the unbounded loop goes on from the next octet. */
  lemma StepUnbounded(r: Cursor.Reader, k: nat, val: nat)
    requires r.Valid() && val % 0x80 == 0
    requires k > 0 && r.offset < r.end && r.input[r.offset] >= 0x80
    ensures Cursor.ReadVarIntFrom(r, k, val)
            == Cursor.ReadVarIntFrom(r.(offset := r.offset + 1), k - 1, (val + r.input[r.offset] % 0x80) * 0x80)
  {
  }

  /** A final octet: both loops stop after it with what they accumulated. */
  lemma StopBoth(r: Cursor.Reader, k: nat, val: nat, acc: int)
    requires r.Valid() && val % 0x80 == 0 && IsLong(acc) && acc % 0x80 == 0
    requires k > 0 && r.offset < r.end && r.input[r.offset] < 0x80
    ensures ReadVarIntFrom(r, k, acc) == Ok((acc + r.input[r.offset], r.(offset := r.offset + 1)))
    ensures Cursor.ReadVarIntFrom(r, k, val) == Ok((val + r.input[r.offset], r.(offset := r.offset + 1)))
  {
  }

  /**
   * `readVarInt(k)`: succeeds and fails where the unbounded loop does, stops
   * at the same octet, and returns the low 64 bits of its value as a `long`.
   */
  function ReadVarInt(r: Cursor.Reader, maxOctets: nat): (res: Result<(int, Cursor.Reader), ErrorCode>)
    requires r.Valid()
    ensures res == Narrowed(Cursor.ReadVarInt(r, maxOctets))
  {
    ReadVarIntFromWraps(r, maxOctets, 0, 0);
    ReadVarIntFrom(r, maxOctets, 0)
  }

  /** `readDouble()`: the next eight octets, the IEEE 754 image taken as given. */
  function ReadDouble(r: Cursor.Reader): (res: Result<(seq<byte>, Cursor.Reader), ErrorCode>)
    requires r.Valid()
    ensures res.Err? <==> r.end - r.offset < 8
    ensures res.Err? ==> res.error == MalformedMessage
    ensures res.Ok? ==> |res.value.0| == 8 && Cursor.Moved(r, res.value.1, 8)
    ensures res.Ok? ==> res.value.0 == r.input[r.offset..r.offset + 8]
  {
    Cursor.ReadBytes(r, 8)
  }

  /** `readingPosition()`: the absolute index of the next octet in the whole input array. */
  function ReadingPosition(r: Cursor.Reader): (p: int)
    requires r.Valid()
    ensures r.beg <= p <= r.end
    ensures p == r.offset && p - r.beg == |r.input[r.beg..r.offset]|
    ensures r.input[p..r.end] == r.input[r.beg..r.end][p - r.beg..]
  {
    r.offset
  }

  /** `readUint`: at most five octets, whose value below 2^35 a `long` holds unchanged. */
  function ReadUint(r: Cursor.Reader): (res: Result<(int, Cursor.Reader), ErrorCode>)
    requires r.Valid()
    ensures res == Cursor.ReadUint(r)
  {
    ReadVarInt(r, 5)
  }

  /** `readUlong`: at most ten octets, narrowed to a `long`. */
  function ReadUlong(r: Cursor.Reader): (res: Result<(int, Cursor.Reader), ErrorCode>)
    requires r.Valid()
    ensures res.Ok? <==> Cursor.Terminated(r, 10)
    ensures res.Ok? ==> IsLong(res.value.0) && Cursor.Moved(r, res.value.1, res.value.1.offset - r.offset)
  {
    ReadVarInt(r, 10)
  }

  /** `readInt`: un-zigzag the `readUint` value and narrow it to `int`. */
  function ReadInt(r: Cursor.Reader): (res: Result<(int, Cursor.Reader), ErrorCode>)
    requires r.Valid()
    ensures res.Ok? <==> Cursor.Terminated(r, 5)
    ensures res.Ok? ==> IsInt(res.value.0) && res.value.1 == ReadUint(r).value.1
  {
    var p :- ReadUint(r);
    Ok((Wrap32(ZigZag.Decode(p.0)), p.1))
  }

  /**
   * `readLong`: un-zigzag the `readUlong` value with the arithmetic shift
   * `>>`, which copies bit 63 of a code at or above 2^63 into the result.
   */
  function ReadLong(r: Cursor.Reader): (res: Result<(int, Cursor.Reader), ErrorCode>)
    requires r.Valid()
    ensures res.Ok? <==> Cursor.Terminated(r, 10)
    ensures res.Ok? ==> IsLong(res.value.0) && res.value.1 == ReadUlong(r).value.1
  {
    var p :- ReadUlong(r);
    Ok((ZigZag.Decode(p.0), p.1))
  }

  /**
   * `readLong` as evidently intended: un-zigzag the 64-bit code as unsigned
   * (the logical shift `>>>`), so that every code below 2^64 is undone.
   */
  function ReadLongUnsigned(r: Cursor.Reader): (res: Result<(int, Cursor.Reader), ErrorCode>)
    requires r.Valid()
    ensures res.Ok? <==> Cursor.Terminated(r, 10)
    ensures res.Ok? ==> IsLong(res.value.0) && res.value.1 == ReadUlong(r).value.1
  {
    var p :- ReadUlong(r);
    var u := p.0 % TWO_64;
    CodeBelow64(ZigZag.Decode(u));
    Ok((ZigZag.Decode(u), p.1))
  }

  /** Zigzag codes below 2^64 are exactly the codes of `long` values. */
  lemma CodeBelow64(v: int)
    ensures ZigZag.Code(v) < TWO_64 <==> IsLong(v)
  {
  }
}
