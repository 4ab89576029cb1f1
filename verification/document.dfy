/**
 * The document layout both implementations share: the magic "PCOS", a
 * flags octet, the document name, the block count, a directory of
 * (block name, block length) records, then the block payloads in directory
 * order. Both readers parse it with the same steps and differ only in the
 * limits they check (`Limits`); Java's offset arithmetic is narrowed to
 * `int` on top of this (module DocumentReader).
 */
module Document {
  import opened Bytes
  import opened Errors
  import opened Varint
  import opened ProtocolTag
  import Cursor

  /** A block as the writers frame it: its name and its octets. */
  datatype Entry = Entry(name: seq<byte>, data: seq<byte>)

  /** A directory record: a block name and the length it declares. */
  datatype Meta = Meta(name: seq<byte>, length: nat)

  /** Where a block lies in the input: its first index and its length. */
  datatype Extent = Extent(beg: int, len: int)

  /** A length-prefixed octet string, as `writeString` and `write_bytestr` emit it. */
  function Str(s: seq<byte>): seq<byte> {
    Encode(|s|) + s
  }

  /** A string followed by a varint: the shape of the document name and count, and of each directory record. */
  function Pair(s: seq<byte>, n: nat): seq<byte> {
    Str(s) + Encode(n)
  }

  /** The magic and the flags octet every document starts with. */
  const LEAD: seq<byte> := PROTOCOL_MAGIC + [PROTOCOL_FLAGS]

  /** The first octets of a document: magic, flags, name and block count. */
  function Preamble(name: seq<byte>, count: nat): seq<byte> {
    LEAD + Pair(name, count)
  }

  /** The directory as the writers emit it: per record the name as a string and the length as a varint. */
  function Directory(metas: seq<Meta>): seq<byte>
    decreases |metas|
  {
    if metas == [] then [] else Pair(metas[0].name, metas[0].length) + Directory(metas[1..])
  }

  /** The sum of the declared lengths. */
  function Total(metas: seq<Meta>): nat
    decreases |metas|
  {
    if metas == [] then 0 else metas[0].length + Total(metas[1..])
  }

  /** The names the records declare. */
  function Names(metas: seq<Meta>): set<seq<byte>> {
    set i | 0 <= i < |metas| :: metas[i].name
  }

  /** Record `i` is the last one with its name. */
  predicate Latest(metas: seq<Meta>, i: int) {
    0 <= i < |metas| && forall j :: i < j < |metas| ==> metas[j].name != metas[i].name
  }

  /** The directory records of a list of blocks: each block's name and size, in order. */
  function MetasOf(blocks: seq<Entry>): (metas: seq<Meta>)
    ensures |metas| == |blocks|
    ensures forall i :: 0 <= i < |blocks| ==> metas[i] == Meta(blocks[i].name, |blocks[i].data|)
  {
    seq(|blocks|, i requires 0 <= i < |blocks| => Meta(blocks[i].name, |blocks[i].data|))
  }

  /** The payloads concatenated in block order; as long as the directory of the blocks declares. */
  function Payload(blocks: seq<Entry>): seq<byte>
    decreases |blocks|
  {
    if blocks == [] then [] else blocks[0].data + Payload(blocks[1..])
  }

  /** The payloads are as long as the directory of the blocks declares. */
  lemma {:induction false} PayloadLength(blocks: seq<Entry>)
    ensures |Payload(blocks)| == Total(MetasOf(blocks))
    decreases |blocks|
  {
    if blocks != [] {
      PayloadLength(blocks[1..]);
      assert MetasOf(blocks)[1..] == MetasOf(blocks[1..]);
    }
  }

  /** A whole document as both writers frame it. */
  function Frame(name: seq<byte>, blocks: seq<Entry>): seq<byte> {
    Preamble(name, |blocks|) + Directory(MetasOf(blocks)) + Payload(blocks)
  }

  /**
   * What a reader checks beyond the format: a least input length, and caps
   * on the block count and on each block length (none when absent).
   */
  datatype Limits = Limits(minLength: nat, maxCount: Option<nat>, maxBlockLength: Option<nat>)

  /** `n` is within `cap`, if there is one. */
  predicate Allows(cap: Option<nat>, n: int) {
    cap.None? || n <= cap.value
  }

  /** The name of the cursor over the whole input, "Hd". */
  const HEADER_BLOCK_NAME: seq<byte> := [0x48, 0x64]

  /**
   * A string of at most `maxlen` octets (of any length when `maxlen` is 0)
   * followed by a `readUint` value: the document name and block count, and
   * each directory record, have this shape.
   */
  function ReadPair(r: Cursor.Reader, maxlen: int): (res: Result<(seq<byte>, nat, Cursor.Reader), ErrorCode>)
    requires r.Valid()
    ensures res.Err? ==> res.error == MalformedMessage || res.error == ArgOutOfRange
    ensures res == Err(ArgOutOfRange) <==> Cursor.ReadByteStr(r, maxlen) == Err(ArgOutOfRange)
    ensures res.Ok? ==> (maxlen == 0 || |res.value.0| <= maxlen) && res.value.1 < 0x8_0000_0000
    ensures res.Ok? ==> Cursor.Moved(r, res.value.2, res.value.2.offset - r.offset)
  {
    var s :- Cursor.ReadByteStr(r, maxlen);
    var c :- Cursor.ReadUint(s.1);
    Ok((s.0, c.0, c.1))
  }

  /**
   * One directory record: a name of at most 64 octets and a length; a
   * longer name, or a length above the cap, is refused with ArgOutOfRange.
   */
  function ReadRecord(r: Cursor.Reader, cap: Option<nat>): (res: Result<(Meta, Cursor.Reader), ErrorCode>)
    requires r.Valid()
    ensures res.Err? ==> res.error == MalformedMessage || res.error == ArgOutOfRange
    ensures var p := ReadPair(r, MAX_BLOCK_ID_LENGTH);
            res == Err(ArgOutOfRange) <==> p == Err(ArgOutOfRange) || (p.Ok? && !Allows(cap, p.value.1))
    ensures res.Ok? ==> |res.value.0.name| <= MAX_BLOCK_ID_LENGTH && Allows(cap, res.value.0.length)
    ensures res.Ok? ==> Cursor.Moved(r, res.value.1, res.value.1.offset - r.offset)
  {
    var p :- ReadPair(r, MAX_BLOCK_ID_LENGTH);
    if !Allows(cap, p.1) then Err(ArgOutOfRange) else Ok((Meta(p.0, p.1), p.2))
  }

  /** The first pass over the directory: `n` records, one after the other. */
  function ReadMetas(r: Cursor.Reader, n: nat, cap: Option<nat>): (res: Result<(seq<Meta>, Cursor.Reader), ErrorCode>)
    requires r.Valid()
    ensures res.Err? ==> res.error == MalformedMessage || res.error == ArgOutOfRange
    ensures res.Ok? ==> |res.value.0| == n && Cursor.Moved(r, res.value.1, res.value.1.offset - r.offset)
    ensures res.Ok? ==> forall i :: 0 <= i < n ==> Allows(cap, res.value.0[i].length)
    decreases n
  {
    if n == 0 then Ok(([], r))
    else
      var m :- ReadRecord(r, cap);
      var rest :- ReadMetas(m.1, n - 1, cap);
      Ok(([m.0] + rest.0, rest.1))
  }

  /** The magic, checked before anything else is read; then the flags octet, the name (at most 128 octets) and the block count. */
  function ReadPreamble(r: Cursor.Reader): (res: Result<(byte, seq<byte>, nat, Cursor.Reader), ErrorCode>)
    requires r.Valid()
    ensures res.Ok? ==> |res.value.1| <= MAX_MESSAGE_ID_LEN
    ensures res.Ok? ==> Cursor.Moved(r, res.value.3, res.value.3.offset - r.offset)
  {
    var m :- Cursor.ReadBytes(r, PROTOCOL_MAGIC_LEN);
    if m.0 != PROTOCOL_MAGIC then Err(BadMagic)
    else
      var f :- Cursor.ReadByte(m.1);
      var p :- ReadPair(f.1, MAX_MESSAGE_ID_LEN);
      Ok((f.0, p.0, p.1, p.2))
  }

  /**
   * The preamble fails with BadMagic exactly when four octets are there and
   * are not the magic, with MalformedMessage when fewer are, and succeeds
   * only after the magic.
   */
  lemma ReadPreambleMagic(r: Cursor.Reader)
    requires r.Valid()
    ensures ReadPreamble(r) == Err(BadMagic) <==>
              (r.end - r.offset >= PROTOCOL_MAGIC_LEN && r.input[r.offset..r.offset + PROTOCOL_MAGIC_LEN] != PROTOCOL_MAGIC)
    ensures r.end - r.offset < PROTOCOL_MAGIC_LEN ==> ReadPreamble(r) == Err(MalformedMessage)
    ensures ReadPreamble(r).Ok? ==> r.input[r.offset..r.offset + PROTOCOL_MAGIC_LEN] == PROTOCOL_MAGIC
  {
  }

  /**
   * The preamble is refused with ArgOutOfRange exactly when, after the magic
   * and the flags octet, the name's length prefix reads and exceeds 128.
   */
  lemma ReadPreambleName(r: Cursor.Reader)
    requires r.Valid()
    ensures var m := Cursor.ReadBytes(r, PROTOCOL_MAGIC_LEN);
            ReadPreamble(r) == Err(ArgOutOfRange) <==>
              && m.Ok? && m.value.0 == PROTOCOL_MAGIC && Cursor.ReadByte(m.value.1).Ok?
              && Cursor.ReadUint(Cursor.ReadByte(m.value.1).value.1).Ok?
              && Cursor.ReadUint(Cursor.ReadByte(m.value.1).value.1).value.0 > MAX_MESSAGE_ID_LEN
  {
  }

  /** What the header holds: flags, document name, block count, the records, and where the payloads begin. */
  datatype Header = Header(flags: byte, name: seq<byte>, count: nat, metas: seq<Meta>, dataStart: nat)

  /**
   * The header of `input[0..length)`: the least length is checked first,
   * then the preamble, then the block count against its cap, then the
   * directory; the payloads begin where the directory ends.
   */
  function ReadHeader(input: seq<byte>, length: int, limits: Limits): (res: Result<Header, ErrorCode>)
    requires 0 <= length <= |input|
    ensures res.Ok? ==> |res.value.metas| == res.value.count && res.value.dataStart <= length
  {
    if length < limits.minLength then Err(MalformedMessage)
    else
      var p :- ReadPreamble(Cursor.Open(input, 0, length, HEADER_BLOCK_NAME));
      if !Allows(limits.maxCount, p.2) then Err(ArgOutOfRange)
      else
        var m :- ReadMetas(p.3, p.2, limits.maxBlockLength);
        Ok(Header(p.0, p.1, p.2, m.0, m.1.offset))
  }

  /**
   * The checks of `ReadHeader` in their order: too short an input is
   * MalformedMessage, then four octets other than the magic are BadMagic
   * (and the magic is BadMagic nowhere), then a preamble's error is the
   * header's, and a count above the cap is ArgOutOfRange; a header read is
   * within the name and count limits.
   */
  lemma ReadHeaderChecks(input: seq<byte>, length: int, limits: Limits)
    requires 0 <= length <= |input|
    ensures var res := ReadHeader(input, length, limits);
            && (length < limits.minLength ==> res == Err(MalformedMessage))
            && (limits.minLength <= length < PROTOCOL_MAGIC_LEN ==> res == Err(MalformedMessage))
            && (limits.minLength <= length && PROTOCOL_MAGIC_LEN <= length ==>
                  (res == Err(BadMagic) <==> input[..PROTOCOL_MAGIC_LEN] != PROTOCOL_MAGIC))
            && (res.Ok? ==> limits.minLength <= length && input[..PROTOCOL_MAGIC_LEN] == PROTOCOL_MAGIC)
            && (res.Ok? ==> |res.value.name| <= MAX_MESSAGE_ID_LEN && Allows(limits.maxCount, res.value.count))
            && var p := ReadPreamble(Cursor.Open(input, 0, length, HEADER_BLOCK_NAME));
            && (limits.minLength <= length && p.Err? ==> res == Err(p.error))
            && (limits.minLength <= length && p.Ok? && !Allows(limits.maxCount, p.value.2) ==> res == Err(ArgOutOfRange))
  {
    if limits.minLength <= length {
      var r := Cursor.Open(input, 0, length, HEADER_BLOCK_NAME);
      ReadPreambleMagic(r);
      if PROTOCOL_MAGIC_LEN <= length {
        assert r.input[r.offset..r.offset + PROTOCOL_MAGIC_LEN] == input[..PROTOCOL_MAGIC_LEN];
      }
    }
  }

  /** `limits` without its caps on the block count and the block lengths. */
  function Uncapped(limits: Limits): Limits {
    limits.(maxCount := None, maxBlockLength := None)
  }

  /** A record whose declared length is above the cap. */
  predicate SomeAbove(metas: seq<Meta>, cap: Option<nat>) {
    exists i :: 0 <= i < |metas| && !Allows(cap, metas[i].length)
  }

  /**
   * The caps only ever refuse, and with ArgOutOfRange: a header read without
   * them whose count, or one of whose records, is above its cap is refused
   * with ArgOutOfRange; one within the caps reads the same with them; one
   * refused without them is refused with them, for the same reason or with
   * ArgOutOfRange.
   */
  lemma ReadHeaderCaps(input: seq<byte>, length: int, limits: Limits)
    requires 0 <= length <= |input|
    ensures var loose := ReadHeader(input, length, Uncapped(limits));
            var res := ReadHeader(input, length, limits);
            && (loose.Ok? && !Allows(limits.maxCount, loose.value.count) ==> res == Err(ArgOutOfRange))
            && (loose.Ok? && SomeAbove(loose.value.metas, limits.maxBlockLength) ==> res == Err(ArgOutOfRange))
            && (loose.Ok? && Allows(limits.maxCount, loose.value.count) && !SomeAbove(loose.value.metas, limits.maxBlockLength) ==> res == loose)
            && (loose.Err? ==> res == loose || res == Err(ArgOutOfRange))
  {
    if limits.minLength <= length {
      var p := ReadPreamble(Cursor.Open(input, 0, length, HEADER_BLOCK_NAME));
      if p.Ok? && Allows(limits.maxCount, p.value.2) {
        ReadMetasCaps(p.value.3, p.value.2, limits.maxBlockLength);
      }
    }
  }

  /**
   * Records read without a cap, some of them above `cap`, are refused with
   * ArgOutOfRange under it; all within it, they read the same under it; and
   * records refused without a cap are refused under it, for the same reason
   * or with ArgOutOfRange.
   */
  lemma ReadMetasCaps(r: Cursor.Reader, n: nat, cap: Option<nat>)
    requires r.Valid()
    ensures var loose := ReadMetas(r, n, None);
            && (loose.Ok? && SomeAbove(loose.value.0, cap) ==> ReadMetas(r, n, cap) == Err(ArgOutOfRange))
            && (loose.Ok? && !SomeAbove(loose.value.0, cap) ==> ReadMetas(r, n, cap) == loose)
            && (loose.Err? ==> ReadMetas(r, n, cap) == loose || ReadMetas(r, n, cap) == Err(ArgOutOfRange))
  {
    MetasCapRelated(r, n, cap);
  }

  /**
   * How the records read under `cap` relate to those read without a cap:
   * refused with ArgOutOfRange when one of these is above it, the same when
   * all are within it, and refused for the same reason or with
   * ArgOutOfRange when these are refused.
   */
  predicate CapRelated(loose: Result<(seq<Meta>, Cursor.Reader), ErrorCode>,
                       capped: Result<(seq<Meta>, Cursor.Reader), ErrorCode>, cap: Option<nat>) {
    if loose.Err? then capped == loose || capped == Err(ArgOutOfRange)
    else if SomeAbove(loose.value.0, cap) then capped == Err(ArgOutOfRange)
    else capped == loose
  }

  /** `ReadMetas` under a cap is related to `ReadMetas` without one, record by record. */
  lemma {:induction false} MetasCapRelated(r: Cursor.Reader, n: nat, cap: Option<nat>)
    requires r.Valid()
    ensures CapRelated(ReadMetas(r, n, None), ReadMetas(r, n, cap), cap)
    decreases n
  {
    if n > 0 {
      var m := ReadRecord(r, None);
      if m.Err? || !Allows(cap, m.value.0.length) {
        CapFirst(r, n, cap);
      } else {
        MetasCapRelated(m.value.1, n - 1, cap);
        CapLater(r, n, cap, m.value.0, m.value.1);
      }
    }
  }

  /** A first record refused without a cap, or above it, decides the relation. */
  lemma CapFirst(r: Cursor.Reader, n: nat, cap: Option<nat>)
    requires r.Valid() && n > 0
    requires ReadRecord(r, None).Err? || !Allows(cap, ReadRecord(r, None).value.0.length)
    ensures CapRelated(ReadMetas(r, n, None), ReadMetas(r, n, cap), cap)
  {
    RecordCaps(r, cap);
    MetasFailFirst(r, n, None);
    MetasFailFirst(r, n, cap);
    MetasFirst(r, n, None);
  }

  /** A first record within the cap keeps the relation the rest of the records have. */
  lemma CapLater(r: Cursor.Reader, n: nat, cap: Option<nat>, meta: Meta, r1: Cursor.Reader)
    requires r.Valid() && r1.Valid() && n > 0
    requires ReadRecord(r, None) == Ok((meta, r1)) && Allows(cap, meta.length)
    requires CapRelated(ReadMetas(r1, n - 1, None), ReadMetas(r1, n - 1, cap), cap)
    ensures CapRelated(ReadMetas(r, n, None), ReadMetas(r, n, cap), cap)
  {
    RecordCaps(r, cap);
    var rest := ReadMetas(r1, n - 1, None);
    if rest.Err? {
      MetasFailLater(r, n, None, r1);
      MetasFailLater(r, n, cap, r1);
    } else {
      ReadMetasCons(r, None, n, meta, rest.value.0, r1, rest.value.1);
      SomeAboveCons(meta, rest.value.0, cap);
      if SomeAbove(rest.value.0, cap) {
        MetasFailLater(r, n, cap, r1);
      } else {
        ReadMetasCons(r, cap, n, meta, rest.value.0, r1, rest.value.1);
      }
    }
  }

  /** When the first record is refused, `ReadMetas` fails as it does. */
  lemma MetasFailFirst(r: Cursor.Reader, n: nat, cap: Option<nat>)
    requires r.Valid() && n > 0
    ensures ReadRecord(r, cap).Err? ==> ReadMetas(r, n, cap) == Err(ReadRecord(r, cap).error)
  {
  }

  /** Records read begin with the first record. */
  lemma MetasFirst(r: Cursor.Reader, n: nat, cap: Option<nat>)
    requires r.Valid() && n > 0
    ensures ReadMetas(r, n, cap).Ok? ==> ReadRecord(r, cap).Ok? && ReadMetas(r, n, cap).value.0[0] == ReadRecord(r, cap).value.0
  {
  }

  /** Once the first record reads, `ReadMetas` fails exactly as the rest of the records do. */
  lemma MetasFailLater(r: Cursor.Reader, n: nat, cap: Option<nat>, r1: Cursor.Reader)
    requires r.Valid() && n > 0 && ReadRecord(r, cap).Ok? && ReadRecord(r, cap).value.1 == r1
    ensures ReadMetas(r1, n - 1, cap).Err? ==> ReadMetas(r, n, cap) == Err(ReadMetas(r1, n - 1, cap).error)
  {
  }

  /** Under a cap, a record read without one is refused with ArgOutOfRange above it and is read the same within it. */
  lemma RecordCaps(r: Cursor.Reader, cap: Option<nat>)
    requires r.Valid()
    ensures var m := ReadRecord(r, None);
            && (m.Ok? && Allows(cap, m.value.0.length) ==> ReadRecord(r, cap) == m)
            && (m.Ok? && !Allows(cap, m.value.0.length) ==> ReadRecord(r, cap) == Err(ArgOutOfRange))
            && (m.Err? ==> ReadRecord(r, cap) == m)
  {
  }

  /** A list with a record above the cap: its first one, or one of the rest. */
  lemma SomeAboveCons(m: Meta, rest: seq<Meta>, cap: Option<nat>)
    ensures SomeAbove([m] + rest, cap) <==> !Allows(cap, m.length) || SomeAbove(rest, cap)
  {
    var metas := [m] + rest;
    if SomeAbove(metas, cap) && Allows(cap, m.length) {
      var i :| 0 <= i < |metas| && !Allows(cap, metas[i].length);
      assert !Allows(cap, rest[i - 1].length);
    }
    if SomeAbove(rest, cap) {
      var i :| 0 <= i < |rest| && !Allows(cap, rest[i].length);
      assert metas[i + 1] == rest[i];
    }
    if !Allows(cap, m.length) {
      assert metas[0] == m;
    }
  }

  /**
   * The second pass: each record, in order, is stored under its name (a
   * later record replacing an earlier one) at the running offset, which then
   * moves on by its length. The offset reached is the start plus the total.
   */
  function Place(metas: seq<Meta>, offset: int, dir: map<seq<byte>, Extent>): (res: (map<seq<byte>, Extent>, int))
    ensures res.1 == offset + Total(metas)
    decreases |metas|
  {
    if metas == [] then (dir, offset)
    else Place(metas[1..], offset + metas[0].length, dir[metas[0].name := Extent(offset, metas[0].length)])
  }

  /** Every extent of `dir` lies within `[lo, hi)`. */
  predicate Inside(dir: map<seq<byte>, Extent>, lo: int, hi: int) {
    forall n :: n in dir ==> lo <= dir[n].beg && 0 <= dir[n].len && dir[n].beg + dir[n].len <= hi
  }

  /** A parsed document: the input, the header fields, and the extent of each block by name. */
  datatype Doc = Doc(input: seq<byte>, flags: byte, name: seq<byte>, count: nat, blocks: map<seq<byte>, Extent>) {
    /** Every block lies within the input. */
    predicate Valid() {
      Inside(blocks, 0, |input|)
    }
  }

  /**
   * Parsing `input[0..length)`: the header, then the placement, then the fit
   * check, which refuses with MalformedMessage exactly when the payloads
   * would end past `length`. Single blocks are not checked on their own.
   */
  function Parse(input: seq<byte>, length: int, limits: Limits): (res: Result<Doc, ErrorCode>)
    requires 0 <= length <= |input|
    ensures ReadHeader(input, length, limits).Err? ==> res == Err(ReadHeader(input, length, limits).error)
    ensures ReadHeader(input, length, limits).Ok? ==>
              var h := ReadHeader(input, length, limits).value;
              (res.Ok? <==> h.dataStart + Total(h.metas) <= length)
              && (res.Err? ==> res.error == MalformedMessage)
    ensures res.Ok? ==> res.value.Valid() && res.value.input == input
  {
    var h :- ReadHeader(input, length, limits);
    Fit(input, length, h)
  }

  /**
   * The placement and the fit check after a header `h`: refused with
   * MalformedMessage exactly when the payloads would end past `length`.
   */
  function Fit(input: seq<byte>, length: int, h: Header): (res: Result<Doc, ErrorCode>)
    requires length <= |input|
    ensures res.Ok? <==> h.dataStart + Total(h.metas) <= length
    ensures res.Err? ==> res.error == MalformedMessage
    ensures res.Ok? ==> res.value.Valid() && res.value.input == input
  {
    var placed := Place(h.metas, h.dataStart, map[]);
    if placed.1 > length then Err(MalformedMessage)
    else
      PlaceInside(h.metas, h.dataStart, map[], 0, length);
      Ok(Doc(input, h.flags, h.name, h.count, placed.0))
  }

  /** The octets of the block `name` of a parsed document. */
  function Contents(d: Doc, name: seq<byte>): seq<byte>
    requires d.Valid() && name in d.blocks
  {
    d.input[d.blocks[name].beg..d.blocks[name].beg + d.blocks[name].len]
  }

  /** Placed extents lie between the start offset and the offset reached. */
  lemma {:induction false} PlaceInside(metas: seq<Meta>, offset: int, dir: map<seq<byte>, Extent>, lo: int, hi: int)
    requires Inside(dir, lo, hi) && lo <= offset && offset + Total(metas) <= hi
    ensures Inside(Place(metas, offset, dir).0, lo, hi)
    decreases |metas|
  {
    if metas != [] {
      PlaceInside(metas[1..], offset + metas[0].length, dir[metas[0].name := Extent(offset, metas[0].length)], lo, hi);
    }
  }

  /** The names of a non-empty list are its first name and the names of the rest. */
  lemma NamesCons(metas: seq<Meta>)
    requires metas != []
    ensures Names(metas) == {metas[0].name} + Names(metas[1..])
  {
    forall n | n in Names(metas)
      ensures n in {metas[0].name} + Names(metas[1..])
    {
      var i :| 0 <= i < |metas| && metas[i].name == n;
      if i > 0 {
        assert metas[1..][i - 1].name == n;
      }
    }
    forall n | n in Names(metas[1..])
      ensures n in Names(metas)
    {
      var i :| 0 <= i < |metas[1..]| && metas[1..][i].name == n;
      assert metas[i + 1].name == n;
    }
  }

  /** Placing adds exactly the names the records declare. */
  lemma {:induction false} PlaceKeys(metas: seq<Meta>, offset: int, dir: map<seq<byte>, Extent>)
    ensures Place(metas, offset, dir).0.Keys == dir.Keys + Names(metas)
    decreases |metas|
  {
    if metas != [] {
      PlaceKeys(metas[1..], offset + metas[0].length, dir[metas[0].name := Extent(offset, metas[0].length)]);
      NamesCons(metas);
    }
  }

  /** A name no record declares keeps the extent it had, if any. */
  lemma {:induction false} PlaceOutside(metas: seq<Meta>, offset: int, dir: map<seq<byte>, Extent>, name: seq<byte>)
    requires name !in Names(metas)
    ensures name in Place(metas, offset, dir).0 <==> name in dir
    ensures name in dir ==> Place(metas, offset, dir).0[name] == dir[name]
    decreases |metas|
  {
    if metas != [] {
      NamesCons(metas);
      PlaceOutside(metas[1..], offset + metas[0].length, dir[metas[0].name := Extent(offset, metas[0].length)], name);
    }
  }

  /**
   * The last record with a given name decides its extent: it starts at the
   * start offset plus the lengths of all records before it.
   */
  lemma {:induction false} PlaceLatest(metas: seq<Meta>, offset: int, dir: map<seq<byte>, Extent>, i: int)
    requires Latest(metas, i)
    ensures metas[i].name in Place(metas, offset, dir).0
    ensures Place(metas, offset, dir).0[metas[i].name] == Extent(offset + Total(metas[..i]), metas[i].length)
    decreases |metas|
  {
    var m := metas[0];
    var dir' := dir[m.name := Extent(offset, m.length)];
    if i == 0 {
      assert m.name !in Names(metas[1..]);
      PlaceOutside(metas[1..], offset + m.length, dir', m.name);
    } else {
      PlaceLatest(metas[1..], offset + m.length, dir', i - 1);
      assert metas[..i][1..] == metas[1..][..i - 1];
    }
  }

  /**
   * What a successful parse holds: the header's name and count, one extent
   * per declared name, and for the last record of each name the extent at
   * the payload start plus the lengths of the records before it.
   */
  lemma ParseDirectory(input: seq<byte>, length: int, limits: Limits, i: int)
    requires 0 <= length <= |input| && Parse(input, length, limits).Ok?
    requires Latest(ReadHeader(input, length, limits).value.metas, i)
    ensures var h := ReadHeader(input, length, limits).value;
            var d := Parse(input, length, limits).value;
            && d.name == h.name && d.count == h.count && d.blocks.Keys == Names(h.metas)
            && d.blocks[h.metas[i].name] == Extent(h.dataStart + Total(h.metas[..i]), h.metas[i].length)
  {
    var h := ReadHeader(input, length, limits).value;
    PlaceKeys(h.metas, h.dataStart, map[]);
    PlaceLatest(h.metas, h.dataStart, map[], i);
  }

  /** The preamble a writer emits reads back as its flags, name and count, and ends where it ends. */
  lemma ReadPreambleOf(r: Cursor.Reader, name: seq<byte>, count: nat, r': Cursor.Reader)
    requires Cursor.Ahead(r, Preamble(name, count)) && Cursor.Moved(r, r', |Preamble(name, count)|)
    requires |name| <= MAX_MESSAGE_ID_LEN && count < 0x8_0000_0000
    ensures ReadPreamble(r) == Ok((PROTOCOL_FLAGS, name, count, r'))
  {
    var r1, r2 := PreambleReaders(r, name, count, r');
    ReadPreambleAfter(r, r1, r2, name, count, r');
  }

  /** The cursors after the magic and after the flags octet of a preamble a writer emits, and what each step reads. */
  lemma PreambleReaders(r: Cursor.Reader, name: seq<byte>, count: nat, r': Cursor.Reader) returns (r1: Cursor.Reader, r2: Cursor.Reader)
    requires Cursor.Ahead(r, Preamble(name, count)) && Cursor.Moved(r, r', |Preamble(name, count)|)
    requires |name| <= MAX_MESSAGE_ID_LEN && count < 0x8_0000_0000
    ensures r1.Valid() && r2.Valid()
    ensures Cursor.ReadBytes(r, PROTOCOL_MAGIC_LEN) == Ok((PROTOCOL_MAGIC, r1))
    ensures Cursor.ReadByte(r1) == Ok((PROTOCOL_FLAGS, r2))
    ensures ReadPair(r2, MAX_MESSAGE_ID_LEN) == Ok((name, count, r'))
  {
    r2 := Cursor.Advance(r, |LEAD|);
    Cursor.AheadSplit(r, LEAD, Pair(name, count), r2);
    r1 := ReadLeadOf(r, r2);
    ReadPairOf(r2, name, MAX_MESSAGE_ID_LEN, count, r');
  }

  /** `ReadPreamble` is the magic, the flags octet, then a name and a count. */
  lemma ReadPreambleAfter(r: Cursor.Reader, r1: Cursor.Reader, r2: Cursor.Reader, name: seq<byte>, count: nat, r3: Cursor.Reader)
    requires r.Valid() && r1.Valid() && r2.Valid()
    requires Cursor.ReadBytes(r, PROTOCOL_MAGIC_LEN) == Ok((PROTOCOL_MAGIC, r1))
    requires Cursor.ReadByte(r1) == Ok((PROTOCOL_FLAGS, r2))
    requires ReadPair(r2, MAX_MESSAGE_ID_LEN) == Ok((name, count, r3))
    ensures ReadPreamble(r) == Ok((PROTOCOL_FLAGS, name, count, r3))
  {
  }

  /** The magic and the flags octet read back as written; `r1` is the cursor between them. */
  lemma ReadLeadOf(r: Cursor.Reader, r2: Cursor.Reader) returns (r1: Cursor.Reader)
    requires Cursor.Ahead(r, LEAD) && Cursor.Moved(r, r2, |LEAD|)
    ensures r1.Valid()
    ensures Cursor.ReadBytes(r, PROTOCOL_MAGIC_LEN) == Ok((PROTOCOL_MAGIC, r1))
    ensures Cursor.ReadByte(r1) == Ok((PROTOCOL_FLAGS, r2))
  {
    r1 := Cursor.Advance(r, PROTOCOL_MAGIC_LEN);
    Cursor.MovedUpdate(r, r1, PROTOCOL_MAGIC_LEN);
    Cursor.MovedUpdate(r1, r2, 1);
    Cursor.AheadSplit(r, PROTOCOL_MAGIC, [PROTOCOL_FLAGS], r1);
    Cursor.ReadBytesAt(r, PROTOCOL_MAGIC);
    assert r1.input[r1.offset] == [PROTOCOL_FLAGS][0];
  }

  /** A string within `maxlen` followed by a varint below 2^35 reads back as the two. */
  lemma ReadPairOf(r: Cursor.Reader, s: seq<byte>, maxlen: int, n: nat, r': Cursor.Reader)
    requires Cursor.Ahead(r, Pair(s, n)) && Cursor.Moved(r, r', |Pair(s, n)|)
    requires (maxlen == 0 || |s| <= maxlen) && |s| < 0x8_0000_0000 && n < 0x8_0000_0000
    ensures ReadPair(r, maxlen) == Ok((s, n, r'))
  {
    var r1 := Cursor.Advance(r, |Str(s)|);
    Cursor.AheadSplit(r, Str(s), Encode(n), r1);
    Cursor.ReadByteStrTo(r, s, maxlen, r1);
    Cursor.ReadUintTo(r1, n, r');
    ReadPairAfter(r, maxlen, s, r1, n, r');
  }

  /** `ReadPair` is `readByteStr`, then `readUint`. */
  lemma ReadPairAfter(r: Cursor.Reader, maxlen: int, s: seq<byte>, r1: Cursor.Reader, n: nat, r2: Cursor.Reader)
    requires r.Valid() && r1.Valid()
    requires Cursor.ReadByteStr(r, maxlen) == Ok((s, r1)) && Cursor.ReadUint(r1) == Ok((n, r2))
    ensures ReadPair(r, maxlen) == Ok((s, n, r2))
  {
  }

  /** A directory record a reader accepts: a name of at most 64 octets, a length below 2^35 and within the cap. */
  predicate Recordable(m: Meta, cap: Option<nat>) {
    |m.name| <= MAX_BLOCK_ID_LENGTH && m.length < 0x8_0000_0000 && Allows(cap, m.length)
  }

  /** A record a writer emits reads back as written when the reader accepts it. */
  lemma ReadRecordOf(r: Cursor.Reader, m: Meta, cap: Option<nat>, r': Cursor.Reader)
    requires Cursor.Ahead(r, Pair(m.name, m.length)) && Cursor.Moved(r, r', |Pair(m.name, m.length)|)
    requires Recordable(m, cap)
    ensures ReadRecord(r, cap) == Ok((m, r'))
  {
    ReadPairOf(r, m.name, MAX_BLOCK_ID_LENGTH, m.length, r');
  }

  /** The directory a writer emits reads back as its records, when the reader accepts each of them. */
  lemma ReadMetasOf(r: Cursor.Reader, metas: seq<Meta>, cap: Option<nat>, r': Cursor.Reader)
    requires Cursor.Ahead(r, Directory(metas)) && Cursor.Moved(r, r', |Directory(metas)|)
    requires forall i :: 0 <= i < |metas| ==> Recordable(metas[i], cap)
    ensures ReadMetas(r, |metas|, cap) == Ok((metas, r'))
  {
    var rs := RecordReaders(r, metas, cap, r');
    ReadMetasChain(rs, metas, cap);
  }

  /**
   * `rs` are cursors at which the records `metas` are read one after the
   * other: each record read from one cursor ends at the next.
   */
  predicate Chained(rs: seq<Cursor.Reader>, metas: seq<Meta>, cap: Option<nat>)
    decreases |metas|
  {
    && |rs| == |metas| + 1
    && rs[0].Valid()
    && (metas != [] ==> ReadRecord(rs[0], cap) == Ok((metas[0], rs[1])) && Chained(rs[1..], metas[1..], cap))
  }

  /** The cursors at which the records of a directory a writer emits begin, and the one where it ends. */
  lemma {:induction false} RecordReaders(r: Cursor.Reader, metas: seq<Meta>, cap: Option<nat>, r': Cursor.Reader)
    returns (rs: seq<Cursor.Reader>)
    requires Cursor.Ahead(r, Directory(metas)) && Cursor.Moved(r, r', |Directory(metas)|)
    requires forall i :: 0 <= i < |metas| ==> Recordable(metas[i], cap)
    ensures Chained(rs, metas, cap) && rs[0] == r && rs[|metas|] == r'
    decreases |metas|
  {
    if metas == [] {
      rs := [r];
      ChainedNil(r, r', cap);
    } else {
      var r1 := RecordStep(r, metas, cap, r');
      var rest := RecordReaders(r1, metas[1..], cap, r');
      rs := [r] + rest;
      ChainedCons(r, rest, metas, cap, r');
    }
  }

  /** The first record of a directory a writer emits reads back, and the rest of the directory follows it. */
  lemma RecordStep(r: Cursor.Reader, metas: seq<Meta>, cap: Option<nat>, r': Cursor.Reader) returns (r1: Cursor.Reader)
    requires metas != [] && Cursor.Ahead(r, Directory(metas)) && Cursor.Moved(r, r', |Directory(metas)|)
    requires forall i :: 0 <= i < |metas| ==> Recordable(metas[i], cap)
    ensures ReadRecord(r, cap) == Ok((metas[0], r1))
    ensures Cursor.Ahead(r1, Directory(metas[1..])) && Cursor.Moved(r1, r', |Directory(metas[1..])|)
    ensures forall i :: 0 <= i < |metas[1..]| ==> Recordable(metas[1..][i], cap)
  {
    var m := metas[0];
    var record := Pair(m.name, m.length);
    assert Recordable(metas[0], cap);
    r1 := Cursor.Advance(r, |record|);
    Cursor.AheadSplit(r, record, Directory(metas[1..]), r1);
    ReadRecordOf(r, m, cap, r1);
  }

  /** A cursor that does not move is a chain of no records. */
  lemma ChainedNil(r: Cursor.Reader, r': Cursor.Reader, cap: Option<nat>)
    requires Cursor.Moved(r, r', 0)
    ensures Chained([r], [], cap) && [r][0] == r'
  {
    Cursor.MovedUpdate(r, r', 0);
  }

  /** A record read from `r` that ends where a chain begins extends it. */
  lemma ChainedCons(r: Cursor.Reader, rs: seq<Cursor.Reader>, metas: seq<Meta>, cap: Option<nat>, r': Cursor.Reader)
    requires metas != [] && r.Valid() && Chained(rs, metas[1..], cap) && ReadRecord(r, cap) == Ok((metas[0], rs[0]))
    requires rs[|metas| - 1] == r'
    ensures Chained([r] + rs, metas, cap) && ([r] + rs)[0] == r && ([r] + rs)[|metas|] == r'
  {
    assert ([r] + rs)[1..] == rs;
  }

  /** Records read one after the other from chained cursors make up `ReadMetas`. */
  lemma {:induction false} ReadMetasChain(rs: seq<Cursor.Reader>, metas: seq<Meta>, cap: Option<nat>)
    requires Chained(rs, metas, cap)
    ensures ReadMetas(rs[0], |metas|, cap) == Ok((metas, rs[|metas|]))
    decreases |metas|
  {
    if metas == [] {
      assert ReadMetas(rs[0], 0, cap) == Ok(([], rs[0]));
    } else {
      ReadMetasChain(rs[1..], metas[1..], cap);
      ReadMetasStep(rs[0], cap, metas, rs[1], rs[|metas|]);
    }
  }

  /** `ReadMetas` of a count of records is one record, then the rest. */
  lemma ReadMetasStep(r: Cursor.Reader, cap: Option<nat>, metas: seq<Meta>, r1: Cursor.Reader, r2: Cursor.Reader)
    requires r.Valid() && r1.Valid() && metas != []
    requires ReadRecord(r, cap) == Ok((metas[0], r1)) && ReadMetas(r1, |metas| - 1, cap) == Ok((metas[1..], r2))
    ensures ReadMetas(r, |metas|, cap) == Ok((metas, r2))
  {
    ConsSplit(metas);
    ReadMetasCons(r, cap, |metas|, metas[0], metas[1..], r1, r2);
  }

  /** A non-empty list is its first element followed by the rest. */
  lemma ConsSplit<T>(s: seq<T>)
    requires s != []
    ensures [s[0]] + s[1..] == s
  {
  }

  /** `ReadMetas` of `n` records is a record, then `n - 1` more from where it ends. */
  lemma ReadMetasCons(r: Cursor.Reader, cap: Option<nat>, n: nat, m: Meta, rest: seq<Meta>, r1: Cursor.Reader, r2: Cursor.Reader)
    requires r.Valid() && r1.Valid() && n >= 1
    requires ReadRecord(r, cap) == Ok((m, r1)) && ReadMetas(r1, n - 1, cap) == Ok((rest, r2))
    ensures ReadMetas(r, n, cap) == Ok(([m] + rest, r2))
  {
  }

  /**
   * What a reader with `limits` accepts of a writer's document: a name of at
   * most 128 octets, a block count below 2^35 and within the count cap, each
   * block acceptable as a directory record, and the whole at least as long
   * as the least length.
   */
  predicate Readable(name: seq<byte>, blocks: seq<Entry>, limits: Limits) {
    && |name| <= MAX_MESSAGE_ID_LEN
    && |blocks| < 0x8_0000_0000
    && Allows(limits.maxCount, |blocks|)
    && (forall i :: 0 <= i < |blocks| ==> Recordable(MetasOf(blocks)[i], limits.maxBlockLength))
    && limits.minLength <= |Frame(name, blocks)|
  }

  /** The header of a document a writer frames reads back as the writer's name, count and records. */
  lemma ReadHeaderOf(name: seq<byte>, blocks: seq<Entry>, limits: Limits, start: nat)
    requires Readable(name, blocks, limits) && start == |Preamble(name, |blocks|)| + |Directory(MetasOf(blocks))|
    ensures var input := Frame(name, blocks);
            ReadHeader(input, |input|, limits) == Ok(Header(PROTOCOL_FLAGS, name, |blocks|, MetasOf(blocks), start))
  {
    var input := Frame(name, blocks);
    Cursor.AheadPrefix(input, Preamble(name, |blocks|) + Directory(MetasOf(blocks)), Payload(blocks), HEADER_BLOCK_NAME);
    ReadHeaderFrom(input, name, MetasOf(blocks), limits, start);
  }

  /** Any input that starts with the preamble and the directory a writer emits reads back as that header. */
  lemma ReadHeaderFrom(input: seq<byte>, name: seq<byte>, metas: seq<Meta>, limits: Limits, start: nat)
    requires Cursor.Ahead(Cursor.Open(input, 0, |input|, HEADER_BLOCK_NAME), Preamble(name, |metas|) + Directory(metas))
    requires |name| <= MAX_MESSAGE_ID_LEN && |metas| < 0x8_0000_0000 && Allows(limits.maxCount, |metas|)
    requires forall i :: 0 <= i < |metas| ==> Recordable(metas[i], limits.maxBlockLength)
    requires limits.minLength <= |input| && start == |Preamble(name, |metas|)| + |Directory(metas)|
    ensures ReadHeader(input, |input|, limits) == Ok(Header(PROTOCOL_FLAGS, name, |metas|, metas, start))
  {
    var r1, r2 := HeaderCursors(input, name, metas);
    ReadHeaderAt(input, r1, r2, name, metas, limits, start);
  }

  /** The cursors after the preamble and after the directory at the start of an input. */
  lemma HeaderCursors(input: seq<byte>, name: seq<byte>, metas: seq<Meta>) returns (r1: Cursor.Reader, r2: Cursor.Reader)
    requires Cursor.Ahead(Cursor.Open(input, 0, |input|, HEADER_BLOCK_NAME), Preamble(name, |metas|) + Directory(metas))
    ensures Cursor.Ahead(Cursor.Open(input, 0, |input|, HEADER_BLOCK_NAME), Preamble(name, |metas|))
    ensures Cursor.Moved(Cursor.Open(input, 0, |input|, HEADER_BLOCK_NAME), r1, |Preamble(name, |metas|)|)
    ensures Cursor.Ahead(r1, Directory(metas)) && Cursor.Moved(r1, r2, |Directory(metas)|)
    ensures r2.offset == |Preamble(name, |metas|)| + |Directory(metas)|
  {
    var r0 := Cursor.Open(input, 0, |input|, HEADER_BLOCK_NAME);
    r1 := Cursor.Advance(r0, |Preamble(name, |metas|)|);
    Cursor.AheadSplit(r0, Preamble(name, |metas|), Directory(metas), r1);
    r2 := Cursor.Advance(r1, |Directory(metas)|);
  }

  /**
   * A header reads back as the preamble and the directory a writer emits
   * when they lie one after the other from the start of the input, `r1`
   * and `r2` being the cursors after each.
   */
  lemma ReadHeaderAt(input: seq<byte>, r1: Cursor.Reader, r2: Cursor.Reader, name: seq<byte>, metas: seq<Meta>, limits: Limits, start: nat)
    requires Cursor.Ahead(Cursor.Open(input, 0, |input|, HEADER_BLOCK_NAME), Preamble(name, |metas|))
    requires Cursor.Moved(Cursor.Open(input, 0, |input|, HEADER_BLOCK_NAME), r1, |Preamble(name, |metas|)|)
    requires Cursor.Ahead(r1, Directory(metas)) && Cursor.Moved(r1, r2, |Directory(metas)|)
    requires |name| <= MAX_MESSAGE_ID_LEN && |metas| < 0x8_0000_0000 && Allows(limits.maxCount, |metas|)
    requires forall i :: 0 <= i < |metas| ==> Recordable(metas[i], limits.maxBlockLength)
    requires limits.minLength <= |input| && r2.offset == start
    ensures ReadHeader(input, |input|, limits) == Ok(Header(PROTOCOL_FLAGS, name, |metas|, metas, start))
  {
    var r0 := Cursor.Open(input, 0, |input|, HEADER_BLOCK_NAME);
    HeaderReads(r0, r1, r2, name, metas, limits.maxBlockLength);
    ReadHeaderAfter(input, limits, r0, name, |metas|, r1, metas, r2);
  }

  /** The preamble and the directory a writer emits read back one after the other. */
  lemma HeaderReads(r0: Cursor.Reader, r1: Cursor.Reader, r2: Cursor.Reader, name: seq<byte>, metas: seq<Meta>, cap: Option<nat>)
    requires Cursor.Ahead(r0, Preamble(name, |metas|)) && Cursor.Moved(r0, r1, |Preamble(name, |metas|)|)
    requires Cursor.Ahead(r1, Directory(metas)) && Cursor.Moved(r1, r2, |Directory(metas)|)
    requires |name| <= MAX_MESSAGE_ID_LEN && |metas| < 0x8_0000_0000
    requires forall i :: 0 <= i < |metas| ==> Recordable(metas[i], cap)
    ensures ReadPreamble(r0) == Ok((PROTOCOL_FLAGS, name, |metas|, r1))
    ensures ReadMetas(r1, |metas|, cap) == Ok((metas, r2))
  {
    ReadPreambleOf(r0, name, |metas|, r1);
    ReadMetasOf(r1, metas, cap, r2);
  }

  /** `ReadHeader` is the preamble, the count check, then the directory. */
  lemma ReadHeaderAfter(input: seq<byte>, limits: Limits, r0: Cursor.Reader, name: seq<byte>, count: nat,
                        r1: Cursor.Reader, metas: seq<Meta>, r2: Cursor.Reader)
    requires limits.minLength <= |input| && r1.Valid() && Allows(limits.maxCount, count)
    requires r0 == Cursor.Open(input, 0, |input|, HEADER_BLOCK_NAME)
    requires ReadPreamble(r0) == Ok((PROTOCOL_FLAGS, name, count, r1))
    requires ReadMetas(r1, count, limits.maxBlockLength) == Ok((metas, r2))
    ensures ReadHeader(input, |input|, limits) == Ok(Header(PROTOCOL_FLAGS, name, count, metas, r2.offset))
  {
  }

  /** The payloads of the blocks before `i`, then block `i`'s, then those after it. */
  lemma {:induction false} PayloadSplit(blocks: seq<Entry>, i: int)
    requires 0 <= i < |blocks|
    ensures Payload(blocks) == Payload(blocks[..i]) + blocks[i].data + Payload(blocks[i + 1..])
    decreases i
  {
    if i == 0 {
      assert blocks[..0] == [];
    } else {
      PayloadSplit(blocks[1..], i - 1);
      assert blocks[..i][1..] == blocks[1..][..i - 1];
      assert blocks[1..][i..] == blocks[i + 1..];
      assert blocks[..i][0] == blocks[0];
    }
  }

  /** The records of the first `i` blocks are the first `i` records. */
  lemma MetasOfPrefix(blocks: seq<Entry>, i: int)
    requires 0 <= i <= |blocks|
    ensures MetasOf(blocks[..i]) == MetasOf(blocks)[..i]
  {
  }

  /** Block `i`'s octets lie in the payloads after the lengths the records before it declare. */
  lemma PayloadAt(blocks: seq<Entry>, i: int)
    requires 0 <= i < |blocks|
    ensures var at := Total(MetasOf(blocks)[..i]);
            at + |blocks[i].data| <= |Payload(blocks)| && Payload(blocks)[at..at + |blocks[i].data|] == blocks[i].data
  {
    PayloadSplit(blocks, i);
    PayloadLength(blocks[..i]);
    MetasOfPrefix(blocks, i);
  }

  /**
   * Parsing a whole document a writer frames, within what the reader
   * accepts, succeeds with the writer's flags, name and count, one block per
   * distinct block name, and for every name the octets of the last block
   * added under it.
   */
  lemma FrameRoundTrip(name: seq<byte>, blocks: seq<Entry>, limits: Limits)
    requires Readable(name, blocks, limits)
    ensures var input := Frame(name, blocks);
            var res := Parse(input, |input|, limits);
            && res.Ok?
            && res.value.flags == PROTOCOL_FLAGS && res.value.name == name && res.value.count == |blocks|
            && res.value.blocks.Keys == Names(MetasOf(blocks))
            && forall i :: Latest(MetasOf(blocks), i) ==> Contents(res.value, blocks[i].name) == blocks[i].data
  {
    var start := |Preamble(name, |blocks|)| + |Directory(MetasOf(blocks))|;
    FrameParses(name, blocks, limits, start);
    forall i | Latest(MetasOf(blocks), i)
      ensures var input := Frame(name, blocks);
              Contents(Parse(input, |input|, limits).value, blocks[i].name) == blocks[i].data
    {
      FrameContents(name, blocks, limits, start, i);
    }
  }

  /** A document a writer frames parses, with the writer's flags, name, count and block names. */
  lemma FrameParses(name: seq<byte>, blocks: seq<Entry>, limits: Limits, start: nat)
    requires Readable(name, blocks, limits) && start == |Preamble(name, |blocks|)| + |Directory(MetasOf(blocks))|
    ensures var input := Frame(name, blocks);
            var res := Parse(input, |input|, limits);
            && ReadHeader(input, |input|, limits) == Ok(Header(PROTOCOL_FLAGS, name, |blocks|, MetasOf(blocks), start))
            && res.Ok?
            && res.value.flags == PROTOCOL_FLAGS && res.value.name == name && res.value.count == |blocks|
            && res.value.blocks.Keys == Names(MetasOf(blocks))
  {
    ReadHeaderOf(name, blocks, limits, start);
    PayloadLength(blocks);
    PlaceKeys(MetasOf(blocks), start, map[]);
  }

  /** Each block of a document a writer frames, the latest of its name, parses back to its octets. */
  lemma FrameContents(name: seq<byte>, blocks: seq<Entry>, limits: Limits, start: nat, i: int)
    requires Readable(name, blocks, limits) && start == |Preamble(name, |blocks|)| + |Directory(MetasOf(blocks))|
    requires Latest(MetasOf(blocks), i)
    requires var input := Frame(name, blocks);
             && ReadHeader(input, |input|, limits) == Ok(Header(PROTOCOL_FLAGS, name, |blocks|, MetasOf(blocks), start))
             && Parse(input, |input|, limits).Ok?
    ensures var input := Frame(name, blocks);
            var d := Parse(input, |input|, limits).value;
            blocks[i].name in d.blocks && Contents(d, blocks[i].name) == blocks[i].data
  {
    var input := Frame(name, blocks);
    var metas := MetasOf(blocks);
    var at, len := Total(metas[..i]), metas[i].length;
    FrameExtent(name, blocks, limits, start, i);
    FrameAt(name, blocks, i, start, at, len);
    var d := Parse(input, |input|, limits).value;
    assert d.input == input && d.blocks[blocks[i].name] == Extent(start + at, len);
  }

  /** Where the parse of a document a writer frames places each block, the latest of its name. */
  lemma FrameExtent(name: seq<byte>, blocks: seq<Entry>, limits: Limits, start: nat, i: int)
    requires Latest(MetasOf(blocks), i)
    requires var input := Frame(name, blocks);
             && ReadHeader(input, |input|, limits) == Ok(Header(PROTOCOL_FLAGS, name, |blocks|, MetasOf(blocks), start))
             && Parse(input, |input|, limits).Ok?
    ensures var input := Frame(name, blocks);
            var d := Parse(input, |input|, limits).value;
            var metas := MetasOf(blocks);
            && blocks[i].name in d.blocks
            && d.blocks[blocks[i].name] == Extent(start + Total(metas[..i]), metas[i].length)
  {
    var input := Frame(name, blocks);
    ParseDirectory(input, |input|, limits, i);
  }

  /** Each block's octets lie in the frame a writer emits `Total` of the lengths before it past the header. */
  lemma FrameAt(name: seq<byte>, blocks: seq<Entry>, i: int, start: int, at: int, len: int)
    requires 0 <= i < |blocks| && start == |Preamble(name, |blocks|)| + |Directory(MetasOf(blocks))|
    requires at == Total(MetasOf(blocks)[..i]) && len == |blocks[i].data|
    ensures 0 <= start + at && start + at + len <= |Frame(name, blocks)|
    ensures Frame(name, blocks)[start + at..start + at + len] == blocks[i].data
  {
    PayloadAt(blocks, i);
    FrameSlice(Frame(name, blocks), Preamble(name, |blocks|) + Directory(MetasOf(blocks)), Payload(blocks), blocks[i].data, at, len);
  }

  /** A slice of the part after a prefix is the slice of the whole shifted by the prefix. */
  lemma FrameSlice(whole: seq<byte>, head: seq<byte>, tail: seq<byte>, data: seq<byte>, at: int, len: int)
    requires whole == head + tail
    requires 0 <= at && 0 <= len && at + len <= |tail| && tail[at..at + len] == data
    ensures |head| + at + len <= |whole| && whole[|head| + at..|head| + at + len] == data
  {
  }
}
