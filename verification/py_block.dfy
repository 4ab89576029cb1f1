/**
 * Python's Block: in output mode a name and a growable octet buffer, written
 * with unbounded integers and explicit range checks; in input mode the
 * shared read cursor, whose varints Python accumulates without a width.
 */
module PyBlock {
  import opened Bytes
  import opened Errors
  import opened Varint
  import opened TwosComplement
  import ZigZag
  import Cursor

  /** The largest value `write_uint` accepts, 2^32 - 1. */
  const MAX_UINT: int := 0xFFFF_FFFF
  /** The largest value `write_ulong` accepts, 2^64 - 1. */
  const MAX_ULONG: int := 0xFFFF_FFFF_FFFF_FFFF

  /**
   * How a Python write fails: with the codec's own error, or with the
   * ValueError `bytearray` raises when handed an octet outside 0..255.
   */
  datatype Failure = Pcos(code: ErrorCode) | ValueError

  /** A block in output mode: its name and the octets written so far. */
  datatype Block = Block(name: seq<byte>, data: seq<byte>)

  /** `create_output_block(name)`: an empty block. */
  function NewOutput(name: seq<byte>): (b: Block)
    ensures b.name == name && b.data == []
  {
    Block(name, [])
  }

  /**
   * `_to_varint(val)`: the seven-bit groups are collected least significant
   * first, 0x80 set on every one but the first collected, then the list is
   * reversed into network order. A negative `val` skips the loop and its
   * `append` raises ValueError.
   */
  method ToVarint(val: int) returns (res: Result<seq<byte>, Failure>)
    ensures res.Err? <==> val < 0
    ensures res.Err? ==> res.error == ValueError
    ensures res.Ok? ==> res.value == Encode(val)
  {
    var dat: seq<byte> := [];
    var v := val;
    while v > 0x7f
      invariant dat == [] ==> v == val
      invariant dat != [] ==> v >= 0 && EncodeHigh(v) + Reverse(dat) == Encode(val)
      decreases v
    {
      var octet := v % 0x80;
      if dat != [] {
        octet := octet + 0x80;
      }
      GroupStep(v, dat, octet);
      dat := dat + [octet];
      v := v / 0x80;
    }
    if dat != [] {
      ReverseSnoc(dat, v + 0x80);
      res := Ok(Reverse(dat + [v + 0x80]));
    } else if v < 0 {
      res := Err(ValueError);
    } else {
      res := Ok([v]);
    }
  }

  /**
   * One turn of the `_to_varint` loop: the group taken off `v` goes in front
   * of the groups already reversed, whether it is the first one (no 0x80)
   * or a later one (with 0x80).
   */
  lemma GroupStep(v: int, dat: seq<byte>, octet: int)
    requires v > 0x7f
    requires octet == if dat == [] then v % 0x80 else v % 0x80 + 0x80
    ensures 0 <= octet < 0x100
    ensures dat == [] ==> EncodeHigh(v / 0x80) + Reverse(dat + [octet]) == Encode(v)
    ensures dat != [] ==> EncodeHigh(v / 0x80) + Reverse(dat + [octet]) == EncodeHigh(v) + Reverse(dat)
  {
    ReverseSnoc(dat, octet);
    if dat == [] {
      assert Reverse(dat + [octet]) == [octet];
    } else {
      assert EncodeHigh(v) == EncodeHigh(v / 0x80) + [octet];
    }
  }

  /** `write_byte(val)`: the octet appended; ValueError outside 0..255. */
  function WriteByte(b: Block, val: int): (res: Result<Block, Failure>)
    ensures res.Err? <==> !(0 <= val < 0x100)
    ensures res.Err? ==> res.error == ValueError
    ensures res.Ok? ==> res.value.name == b.name && res.value.data == b.data + [val]
  {
    if 0 <= val < 0x100 then Ok(b.(data := b.data + [val])) else Err(ValueError)
  }

  /** `write_bool(val)`: the octet 1 for true and 0 for false. */
  function WriteBool(b: Block, val: bool): (b': Block)
    ensures b'.name == b.name && b'.data == b.data + [if val then 1 else 0]
  {
    b.(data := b.data + [if val then 1 else 0])
  }

  /** `write_bytes(val)`: the octets verbatim. */
  function WriteBytes(b: Block, val: seq<byte>): (b': Block)
    ensures b'.name == b.name && b'.data == b.data + val
  {
    b.(data := b.data + val)
  }

  /** `write_double(val)`: the eight octets of the big-endian IEEE 754 image, taken here as given. */
  function WriteDouble(b: Block, image: seq<byte>): (b': Block)
    requires |image| == 8
    ensures b'.name == b.name && |b'.data| == |b.data| + 8 && b'.data[|b.data|..] == image
  {
    WriteBytes(b, image)
  }

  /**
   * A varint write capped at `max`: InternalError above the cap, the
   * ValueError of `_to_varint` below zero, the varint appended otherwise.
   */
  function WriteCapped(b: Block, val: int, max: int): (res: Result<Block, Failure>)
    requires max >= 0
    ensures res.Err? <==> val > max || val < 0
    ensures val > max ==> res == Err(Pcos(InternalError))
    ensures 0 > val ==> res == Err(ValueError)
    ensures res.Ok? ==> res.value.name == b.name && res.value.data == b.data + Encode(val)
  {
    if val > max then Err(Pcos(InternalError))
    else if val < 0 then Err(ValueError)
    else Ok(b.(data := b.data + Encode(val)))
  }

  /** `write_uint(val)`: refused with InternalError above 2^32 - 1, then `_to_varint`. */
  function WriteUint(b: Block, val: int): (res: Result<Block, Failure>)
    ensures res.Ok? <==> 0 <= val < TWO_32
    ensures val >= TWO_32 ==> res == Err(Pcos(InternalError))
    ensures val < 0 ==> res == Err(ValueError)
    ensures res.Ok? ==> res.value.name == b.name && res.value.data == b.data + Encode(val)
  {
    WriteCapped(b, val, MAX_UINT)
  }

  /** `write_ulong(val)`: refused with InternalError above 2^64 - 1, then `_to_varint`. */
  function WriteUlong(b: Block, val: int): (res: Result<Block, Failure>)
    ensures res.Ok? <==> 0 <= val < TWO_64
    ensures val >= TWO_64 ==> res == Err(Pcos(InternalError))
    ensures val < 0 ==> res == Err(ValueError)
    ensures res.Ok? ==> res.value.name == b.name && res.value.data == b.data + Encode(val)
  {
    WriteCapped(b, val, MAX_ULONG)
  }

  /**
   * `write_int(val)`: `(val << 1) ^ (val >> 31)` on unbounded integers, then
   * `write_uint`. It succeeds exactly on the signed 32-bit range, writing the
   * true zigzag code, and fails with InternalError elsewhere.
   */
  function WriteInt(b: Block, val: int): (res: Result<Block, Failure>)
    ensures res.Ok? <==> IsInt(val)
    ensures res.Err? ==> res.error == Pcos(InternalError)
    ensures res.Ok? ==> res.value.name == b.name && res.value.data == b.data + Encode(ZigZag.Code(val))
  {
    WriteUint(b, IntCode(val))
  }

  /** `(val << 1) ^ (val >> 31)`: below 2^32 exactly on the signed 32-bit range, and there the zigzag code. */
  function IntCode(val: int): (z: nat)
    ensures z < TWO_32 <==> IsInt(val)
    ensures IsInt(val) ==> z == ZigZag.Code(val)
  {
    Pow2Constants();
    ZigZag.PyRange(val, 31);
    Xor(2 * val, val / TWO_31)
  }

  /**
   * `write_long(val)`: `(val << 1) ^ (val >> 63)`, then `write_ulong`; it
   * succeeds exactly on the signed 64-bit range.
   */
  function WriteLong(b: Block, val: int): (res: Result<Block, Failure>)
    ensures res.Ok? <==> IsLong(val)
    ensures res.Err? ==> res.error == Pcos(InternalError)
    ensures res.Ok? ==> res.value.name == b.name && res.value.data == b.data + Encode(ZigZag.Code(val))
  {
    WriteUlong(b, LongCode(val))
  }

  /** `(val << 1) ^ (val >> 63)`: below 2^64 exactly on the signed 64-bit range, and there the zigzag code. */
  function LongCode(val: int): (z: nat)
    ensures z < TWO_64 <==> IsLong(val)
    ensures IsLong(val) ==> z == ZigZag.Code(val)
  {
    Pow2Constants();
    ZigZag.PyRange(val, 63);
    Xor(2 * val, val / TWO_63)
  }

  /**
   * `write_bytestr(val)`: `None` writes the length 0 alone; otherwise the
   * length through `write_uint`, so above 2^32 - 1 octets InternalError and
   * nothing written, then the octets.
   */
  function WriteByteStr(b: Block, val: Option<seq<byte>>): (res: Result<Block, Failure>)
    ensures val.None? ==> res == Ok(b.(data := b.data + [0]))
    ensures val.Some? ==> (res.Ok? <==> |val.value| <= MAX_UINT)
    ensures res.Err? ==> res.error == Pcos(InternalError)
    ensures val.Some? && res.Ok? ==> res.value.name == b.name && res.value.data == b.data + Encode(|val.value|) + val.value
  {
    match val
    case None => WriteUint(b, 0)
    case Some(s) =>
      var sized :- WriteUint(b, |s|);
      Ok(WriteBytes(sized, s))
  }

  /** `write_string(val)`: the UTF-8 octets (taken as given) as a byte string. */
  function WriteString(b: Block, val: seq<byte>): (res: Result<Block, Failure>)
    ensures res.Ok? <==> |val| <= MAX_UINT
    ensures res.Err? ==> res.error == Pcos(InternalError)
    ensures res.Ok? ==> res.value.name == b.name && res.value.data == b.data + Encode(|val|) + val
  {
    WriteByteStr(b, Some(val))
  }

  /** `reading_position()`: the cursor's distance from the start of the block, not from the start of the input. */
  function ReadingPosition(r: Cursor.Reader): (p: int)
    requires r.Valid()
    ensures 0 <= p <= r.Size()
    ensures r.input[r.beg..r.end][p..] == r.input[r.offset..r.end]
  {
    r.offset - r.beg
  }

  /** `read_ulong()`: a varint of at most ten octets, its value unbounded (below 2^70). */
  function ReadUlong(r: Cursor.Reader): (res: Result<(nat, Cursor.Reader), ErrorCode>)
    requires r.Valid()
    ensures res.Ok? <==> Cursor.Terminated(r, 10)
    ensures res.Err? ==> res.error == MalformedMessage
    ensures res.Ok? ==> Cursor.Moved(r, res.value.1, res.value.1.offset - r.offset)
    ensures res.Ok? ==> res.value.0 < 0x40_0000_0000_0000_0000
  {
    TenOctetsBound(r);
    Cursor.ReadVarInt(r, 10)
  }

  /** A varint of at most ten octets is below 2^70. */
  lemma TenOctetsBound(r: Cursor.Reader)
    requires r.Valid()
    ensures Cursor.ReadVarInt(r, 10).Ok? ==> Cursor.ReadVarInt(r, 10).value.0 < 0x40_0000_0000_0000_0000
  {
    Cursor.ReadVarIntConsumes(r, 10);
    if Cursor.ReadVarInt(r, 10).Ok? {
      var s := r.input[r.offset..Cursor.ReadVarInt(r, 10).value.1.offset];
      FoldBound(s);
      Pow128Monotone(|s|, 10);
      Pow128Constants();
    }
  }

  /**
   * `read_int()`: `(val >> 1) ^ (-(val & 1))` of the `read_uint` value,
   * with no narrowing: the integer whose zigzag code was read.
   */
  function ReadInt(r: Cursor.Reader): (res: Result<(int, Cursor.Reader), ErrorCode>)
    requires r.Valid()
    ensures res.Ok? <==> Cursor.ReadUint(r).Ok?
    ensures res.Err? ==> res.error == MalformedMessage
    ensures res.Ok? ==> ZigZag.Code(res.value.0) == Cursor.ReadUint(r).value.0 && res.value.1 == Cursor.ReadUint(r).value.1
  {
    var p :- Cursor.ReadUint(r);
    Ok((ZigZag.Decode(p.0), p.1))
  }

  /** `read_long()`: the un-zigzag of the `read_ulong` value, with no narrowing. */
  function ReadLong(r: Cursor.Reader): (res: Result<(int, Cursor.Reader), ErrorCode>)
    requires r.Valid()
    ensures res.Ok? <==> ReadUlong(r).Ok?
    ensures res.Err? ==> res.error == MalformedMessage
    ensures res.Ok? ==> ZigZag.Code(res.value.0) == ReadUlong(r).value.0 && res.value.1 == ReadUlong(r).value.1
  {
    var p :- ReadUlong(r);
    Ok((ZigZag.Decode(p.0), p.1))
  }

  /** Where `write_uint` wrote `val`, `read_uint` reads `val` back and moves over the octets written. */
  lemma UintRoundTrip(b: Block, val: int, b': Block, r: Cursor.Reader)
    requires WriteUint(b, val) == Ok(b') && Cursor.Ahead(r, b'.data[|b.data|..])
    ensures Cursor.ReadUint(r) == Ok((val, r.(offset := r.offset + |Encode(val)|)))
  {
    Written(b.data, b'.data, Encode(val));
    Cursor.ReadUintEncoded(r, val);
  }

  /** Where `write_ulong` wrote `val`, `read_ulong` reads `val` back: every value up to 2^64 - 1 fits its ten octets. */
  lemma UlongRoundTrip(b: Block, val: int, b': Block, r: Cursor.Reader)
    requires WriteUlong(b, val) == Ok(b') && Cursor.Ahead(r, b'.data[|b.data|..])
    ensures ReadUlong(r) == Ok((val, r.(offset := r.offset + |Encode(val)|)))
  {
    Written(b.data, b'.data, Encode(val));
    EncodeSizes(val);
    Cursor.ReadVarIntEncoded(r, val, 10);
  }

  /** Where `write_int` wrote `val`, `read_int` reads `val` back. */
  lemma IntRoundTrip(b: Block, val: int, b': Block, r: Cursor.Reader)
    requires WriteInt(b, val) == Ok(b') && Cursor.Ahead(r, b'.data[|b.data|..])
    ensures ReadInt(r) == Ok((val, r.(offset := r.offset + |Encode(ZigZag.Code(val))|)))
  {
    Written(b.data, b'.data, Encode(ZigZag.Code(val)));
    Cursor.ReadUintEncoded(r, ZigZag.Code(val));
    ZigZag.DecodeCode(val);
  }

  /** Where `write_long` wrote `val`, `read_long` reads `val` back. */
  lemma LongRoundTrip(b: Block, val: int, b': Block, r: Cursor.Reader)
    requires WriteLong(b, val) == Ok(b') && Cursor.Ahead(r, b'.data[|b.data|..])
    ensures ReadLong(r) == Ok((val, r.(offset := r.offset + |Encode(ZigZag.Code(val))|)))
  {
    Written(b.data, b'.data, Encode(ZigZag.Code(val)));
    LongAt(r, val, ZigZag.Code(val));
  }

  /** The varint of the zigzag code of a `long` reads back through `read_long` as that `long`. */
  lemma LongAt(r: Cursor.Reader, val: int, c: nat)
    requires IsLong(val) && c == ZigZag.Code(val) && Cursor.Ahead(r, Encode(c))
    ensures ReadLong(r) == Ok((val, r.(offset := r.offset + |Encode(c)|)))
  {
    EncodeSizes(c);
    Cursor.ReadVarIntEncoded(r, c, 10);
    ZigZag.DecodeCode(val);
  }

  /** What a write appended is what follows the octets there before. */
  lemma Written(before: seq<byte>, after: seq<byte>, s: seq<byte>)
    requires after == before + s
    ensures after[|before|..] == s
  {
  }

  /**
   * Where `write_bytestr` wrote `s`, `read_bytestr(maxlen)` reads `s` back
   * when `maxlen` is 0 (Python's `None`) or admits `|s|`.
   */
  lemma ByteStrRoundTrip(b: Block, s: seq<byte>, b': Block, maxlen: int, r: Cursor.Reader)
    requires WriteByteStr(b, Some(s)) == Ok(b') && Cursor.Ahead(r, b'.data[|b.data|..])
    requires maxlen == 0 || |s| <= maxlen
    ensures Cursor.ReadByteStr(r, maxlen) == Ok((s, r.(offset := r.offset + |Encode(|s|) + s|)))
  {
    Written(b.data, b'.data, Encode(|s|) + s);
    Cursor.ReadByteStrEncoded(r, s, maxlen);
  }

  /** What `write_bytestr(None)` wrote reads back as the empty string. */
  lemma NoneByteStrRoundTrip(b: Block, b': Block, maxlen: int, r: Cursor.Reader)
    requires WriteByteStr(b, None) == Ok(b') && Cursor.Ahead(r, b'.data[|b.data|..])
    requires maxlen >= 0
    ensures Cursor.ReadByteStr(r, maxlen) == Ok(([], r.(offset := r.offset + 1)))
  {
    var empty: seq<byte> := [];
    Written(b.data, b'.data, Encode(|empty|) + empty);
    Cursor.ReadByteStrEncoded(r, empty, maxlen);
  }
}
