/**
 * Java's BlockWriter: primitives appended to a growable buffer, integers as
 * varints, signed integers zigzag-coded in fixed width first.
 */
module BlockWriter {
  import opened Bytes
  import opened Errors
  import opened Varint
  import opened TwosComplement
  import ZigZag

  /**
   * A writer: its block name, every octet written through it so far, and
   * whether it owns the in-memory buffer they went to (the one-argument
   * constructor) or wrote them to a caller's stream (the two-argument one).
   */
  datatype Writer = Writer(name: seq<byte>, data: seq<byte>, ownsBuffer: bool)

  /** `new BlockWriter(name)`: an empty writer over its own buffer. */
  function New(name: seq<byte>): (w: Writer)
    ensures w.name == name && w.data == [] && w.ownsBuffer
  {
    Writer(name, [], true)
  }

  /** `new BlockWriter(name, dst)`: an empty writer over a caller's stream. */
  function NewOverStream(name: seq<byte>): (w: Writer)
    ensures w.name == name && w.data == [] && !w.ownsBuffer
  {
    Writer(name, [], false)
  }

  /** `w'` is `w` with `s` appended and nothing else changed. */
  predicate Appended(w: Writer, w': Writer, s: seq<byte>) {
    w' == w.(data := w.data + s)
  }

  /** `size()`: the number of octets written so far. */
  function Size(w: Writer): (n: nat)
    ensures n == |w.data|
  {
    |w.data|
  }

  /**
   * The octets `writeVarInt(val)` emits: the varint of a non-negative `val`;
   * for a negative `val` the loop never runs and `write((int) val)` emits the
   * low eight bits alone.
   */
  function VarIntOctets(val: int): (s: seq<byte>)
    requires IsLong(val)
    ensures val >= 0 ==> s == Encode(val)
    ensures val < 0 ==> |s| == 1 && s[0] % 0x100 == val % 0x100
  {
    if val < 0 then [val % 0x100] else Encode(val)
  }

  /**
   * `writeVarInt`: the groups are stored from the end of a ten-octet scratch
   * buffer, then the last (or only) octet is written out; the octets are
   * those of `VarIntOctets`, and they fit in nine cells.
   */
  method WriteVarInt(val: int) returns (out: seq<byte>)
    requires IsLong(val)
    ensures out == VarIntOctets(val)
    ensures 1 <= |out| <= 9
  {
    var buf, pos, v := StoreGroups(val);
    if pos == 9 {
      out := [if val < 0 then val % 0x100 else v];
    } else {
      StoreInFront(buf, pos, v + 0x80);
      buf := buf[pos := v + 0x80];
      out := buf[pos..];
    }
  }

  /**
   * The loop of `writeVarInt`: while more than seven bits remain, store the
   * low group at `pos` (with 0x80 set on all but the first one stored) and
   * shift. What is stored after `pos` is the varint of `val` without the
   * groups of `v`, and `pos` never passes below the front of the buffer.
   */
  method StoreGroups(val: int) returns (buf: seq<byte>, pos: int, v: int)
    requires IsLong(val)
    ensures v <= 0x7f
    ensures 0 <= pos <= 9 && |buf| == 10
    ensures pos == 9 ==> v == val
    ensures pos < 9 ==> 0 <= v <= 0x7f && val > 0x7f && Encode(val) == EncodeHigh(v) + buf[pos + 1..]
    ensures val >= 0 ==> |Encode(val)| <= 9
  {
    buf := seq(10, _ => 0);
    pos := 9;
    v := val;
    if val >= 0 {
      EncodeSizes(val);
    }
    while v > 0x7f
      invariant 0 <= pos <= 9 && |buf| == 10
      invariant pos == 9 ==> v == val
      invariant pos < 9 ==> val > 0x7f && 0 <= v && Encode(val) == EncodeHigh(v) + buf[pos + 1..]
      invariant val >= 0 ==> |Encode(val)| <= 9
      decreases v
    {
      var octet := v % 0x80;
      if pos != 9 {
        octet := octet + 0x80;
        HighGroups(v);
      } else {
        LowGroup(v);
      }
      StoreInFront(buf, pos, octet);
      buf := buf[pos := octet];
      pos := pos - 1;
      v := v / 0x80;
    }
  }

  /** Splitting off the low group of a varint of at least two octets. */
  lemma LowGroup(v: nat)
    requires v >= 0x80
    ensures Encode(v) == EncodeHigh(v / 0x80) + [v % 0x80]
  {
  }

  /** Splitting off the low group of the continuation octets, which leaves at least one in front. */
  lemma HighGroups(v: nat)
    requires v >= 0x80
    ensures EncodeHigh(v) == EncodeHigh(v / 0x80) + [v % 0x80 + 0x80]
    ensures |EncodeHigh(v)| >= 2
  {
  }

  /** Storing at `pos` puts the octet in front of the tail after `pos`. */
  lemma StoreInFront(buf: seq<byte>, pos: int, octet: byte)
    requires 0 <= pos < |buf|
    ensures buf[pos := octet][pos..] == [octet] + buf[pos + 1..]
    ensures buf[pos := octet][pos + 1..] == buf[pos + 1..]
  {
  }

  /** `writeByte(v)`: the low eight bits of the `int` argument. */
  function WriteByte(w: Writer, v: int): (w': Writer)
    ensures Appended(w, w', [v % 0x100])
  {
    w.(data := w.data + [v % 0x100])
  }

  /** `writeBool(b)`: one octet, 1 for true and 0 for false. */
  function WriteBool(w: Writer, b: bool): (w': Writer)
    ensures Appended(w, w', [if b then 1 else 0])
  {
    w.(data := w.data + [if b then 1 else 0])
  }

  /** `writeBytes(v)`: the octets verbatim. */
  function WriteBytes(w: Writer, v: seq<byte>): (w': Writer)
    ensures Appended(w, w', v)
  {
    w.(data := w.data + v)
  }

  /** `writeDouble(v)`: the eight octets of the IEEE 754 image, big-endian, taken here as given. */
  function WriteDouble(w: Writer, image: seq<byte>): (w': Writer)
    requires |image| == 8
    ensures Appended(w, w', image) && |w'.data| == |w.data| + 8
  {
    WriteBytes(w, image)
  }

  /** `writeUint(v)`: `writeVarInt` of the `long` argument. */
  function WriteUint(w: Writer, v: int): (w': Writer)
    requires IsLong(v)
    ensures v >= 0 ==> Appended(w, w', Encode(v))
    ensures v < 0 ==> Appended(w, w', [v % 0x100])
  {
    w.(data := w.data + VarIntOctets(v))
  }

  /**
   * `writeUlong(v)`: `writeVarInt` of the `long` argument, as `writeUint`
   * does; a negative `long` is not read as unsigned, so only its low eight
   * bits come out.
   */
  function WriteUlong(w: Writer, v: int): (w': Writer)
    requires IsLong(v)
    ensures v >= 0 ==> Appended(w, w', Encode(v))
    ensures v < 0 ==> Appended(w, w', [v % 0x100])
  {
    WriteUint(w, v)
  }

  /**
   * `writeInt(v)`: the zigzag code computed in `int` arithmetic. It is the
   * varint of the true zigzag code exactly on [-2^30, 2^30); elsewhere the
   * code is negative and its low eight bits come out as a single octet.
   */
  function WriteInt(w: Writer, v: int): (w': Writer)
    requires IsInt(v)
    ensures -0x4000_0000 <= v < 0x4000_0000 ==> Appended(w, w', Encode(ZigZag.Code(v)))
    ensures !(-0x4000_0000 <= v < 0x4000_0000) ==> Appended(w, w', [ZigZag.JavaInt(v) % 0x100])
  {
    w.(data := w.data + VarIntOctets(ZigZag.JavaInt(v)))
  }

  /**
   * `writeLong(v)`: the zigzag code computed in `long` arithmetic, the varint
   * of the true code exactly on [-2^62, 2^62), and elsewhere the low eight
   * bits of the negative code as a single octet.
   */
  function WriteLong(w: Writer, v: int): (w': Writer)
    requires IsLong(v)
    ensures -0x4000_0000_0000_0000 <= v < 0x4000_0000_0000_0000 ==> Appended(w, w', Encode(ZigZag.Code(v)))
    ensures !(-0x4000_0000_0000_0000 <= v < 0x4000_0000_0000_0000) ==> Appended(w, w', [ZigZag.JavaLong(v) % 0x100])
  {
    w.(data := w.data + VarIntOctets(ZigZag.JavaLong(v)))
  }

  /**
   * `writeInt` as evidently intended: the zigzag code as an unsigned 32-bit
   * value, so that every `int` is written as the varint of its true code.
   */
  function WriteIntUnsigned(w: Writer, v: int): (w': Writer)
    requires IsInt(v)
    ensures Appended(w, w', Encode(ZigZag.Code(v)))
  {
    ZigZag.JavaUnsigned(v);
    w.(data := w.data + Encode(ZigZag.JavaInt(v) % TWO_32))
  }

  /** `writeLong` as evidently intended: the zigzag code as an unsigned 64-bit value. */
  function WriteLongUnsigned(w: Writer, v: int): (w': Writer)
    requires IsLong(v)
    ensures Appended(w, w', Encode(ZigZag.Code(v)))
  {
    ZigZag.JavaUnsigned(v);
    w.(data := w.data + Encode(ZigZag.JavaLong(v) % TWO_64))
  }

  /** The unsigned 64-bit value with the bits of the `long` `x`: the value it carries when read as unsigned. */
  function Unsigned64(x: int): (u: nat)
    requires IsLong(x)
    ensures u < TWO_64
    ensures Wrap64(u) == x
  {
    if x >= 0 then x else x + TWO_64
  }

  /** `writeUlong` as evidently intended: the `long` argument as an unsigned 64-bit value. */
  function WriteUlongUnsigned(w: Writer, v: int): (w': Writer)
    requires IsLong(v)
    ensures Appended(w, w', Encode(Unsigned64(v)))
    ensures v >= 0 ==> w' == WriteUlong(w, v)
  {
    w.(data := w.data + Encode(Unsigned64(v)))
  }

  /**
   * `writeByteStr(s)`: the length as a `writeUint` varint, then the octets;
   * a null array writes the length 0 alone, as the empty array does. A Java
   * array's length is an `int`.
   */
  function WriteByteStr(w: Writer, s: Option<seq<byte>>): (w': Writer)
    requires s.Some? ==> |s.value| < TWO_31
    ensures s.Some? ==> Appended(w, w', Encode(|s.value|) + s.value)
    ensures s.None? ==> Appended(w, w', [0])
  {
    match s
    case None => WriteUint(w, 0)
    case Some(v) => WriteBytes(WriteUint(w, |v|), v)
  }

  /** `writeString(s)`: the string's encoded octets (taken as given) as a byte string; null as null. */
  function WriteString(w: Writer, s: Option<seq<byte>>): (w': Writer)
    requires s.Some? ==> |s.value| < TWO_31
    ensures s.Some? ==> Appended(w, w', Encode(|s.value|) + s.value)
    ensures s.None? ==> Appended(w, w', [0])
  {
    WriteByteStr(w, s)
  }

  /**
   * `toBytes()`: every octet written, when the writer owns its buffer;
   * InternalError when it wrote to a caller's stream.
   */
  function ToBytes(w: Writer): (res: Result<seq<byte>, ErrorCode>)
    ensures res.Err? <==> !w.ownsBuffer
    ensures res.Err? ==> res.error == InternalError
    ensures res.Ok? ==> res.value == w.data
  {
    if w.ownsBuffer then Ok(w.data) else Err(InternalError)
  }
}
