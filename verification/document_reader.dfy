/**
 * Java's DocumentReader: the shared header and directory passes with no
 * least length and no caps, then the placement pass in Java `int`
 * arithmetic. The running offset is an `int` that `block_offset +=
 * blk.length` narrows, each block's length is cast to `int`, and a block
 * reader's end is the `int` sum of its start and length.
 */
module DocumentReader {
  import opened Bytes
  import opened Errors
  import opened Varint
  import opened TwosComplement
  import opened ProtocolTag
  import Cursor
  import Document
  import DocumentWriter
  import BlockWriter

  /** Java checks no least length and caps neither the block count nor the block lengths. */
  const JAVA_LIMITS: Document.Limits := Document.Limits(0, None, None)

  /**
   * The placement pass as written: each record is stored under its name at
   * the running offset with its length cast to `int`, and the offset then
   * moves on by the full length, narrowed to `int`. The offset reached is the
   * start plus the total, narrowed.
   */
  function PlaceAsWritten(metas: seq<Document.Meta>, offset: int, dir: map<seq<byte>, Document.Extent>)
    : (res: (map<seq<byte>, Document.Extent>, int))
    requires IsInt(offset)
    ensures res.1 == Wrap32(offset + Document.Total(metas))
    decreases |metas|
  {
    if metas == [] then (dir, offset)
    else
      var next := Wrap32(offset + metas[0].length);
      Wrap32Congruent(next + Document.Total(metas[1..]), offset + Document.Total(metas));
      PlaceAsWritten(metas[1..], next, dir[metas[0].name := Document.Extent(offset, Wrap32(metas[0].length))])
  }

  /**
   * The placement and the fit check as written, after a header `h`: the
   * input is refused with MalformedMessage exactly when the narrowed end of
   * the payloads lies past `length`.
   */
  function PlaceAndFit(input: seq<byte>, length: int, h: Document.Header): (res: Result<Document.Doc, ErrorCode>)
    requires h.dataStart <= length < TWO_31
    ensures res.Ok? <==> Wrap32(h.dataStart + Document.Total(h.metas)) <= length
    ensures res.Err? ==> res.error == MalformedMessage
    ensures res.Ok? ==> res.value.input == input && res.value.name == h.name && res.value.count == h.count
  {
    var placed := PlaceAsWritten(h.metas, h.dataStart, map[]);
    if placed.1 > length then Err(MalformedMessage)
    else Ok(Document.Doc(input, h.flags, h.name, h.count, placed.0))
  }

  /**
   * `parseBytes(input, length)` as written: the header as in every reader,
   * then the `int` placement and the fit check on the narrowed offset.
   */
  function ParseAsWritten(input: seq<byte>, length: int): (res: Result<Document.Doc, ErrorCode>)
    requires 0 <= length <= |input| && length < TWO_31
    ensures Document.ReadHeader(input, length, JAVA_LIMITS).Err? ==>
              res == Err(Document.ReadHeader(input, length, JAVA_LIMITS).error)
    ensures Document.ReadHeader(input, length, JAVA_LIMITS).Ok? ==>
              res == PlaceAndFit(input, length, Document.ReadHeader(input, length, JAVA_LIMITS).value)
  {
    var h :- Document.ReadHeader(input, length, JAVA_LIMITS);
    PlaceAndFit(input, length, h)
  }

  /** While the running offset stays below 2^31 nothing narrows: the placement is the unbounded one. */
  lemma {:induction false} PlaceAgrees(metas: seq<Document.Meta>, offset: int, dir: map<seq<byte>, Document.Extent>)
    requires 0 <= offset && offset + Document.Total(metas) < TWO_31
    ensures PlaceAsWritten(metas, offset, dir) == Document.Place(metas, offset, dir)
    decreases |metas|
  {
    if metas != [] {
      PlaceAgrees(metas[1..], offset + metas[0].length, dir[metas[0].name := Document.Extent(offset, metas[0].length)]);
    }
  }

  /**
   * The narrowing changes nothing for a directory whose payloads end below
   * 2^31: placement and fit check as written agree with the unbounded ones.
   */
  lemma FitAgrees(input: seq<byte>, length: int, h: Document.Header)
    requires h.dataStart <= length <= |input| && length < TWO_31
    requires h.dataStart + Document.Total(h.metas) < TWO_31
    ensures PlaceAndFit(input, length, h) == Document.Fit(input, length, h)
  {
    PlaceAgrees(h.metas, h.dataStart, map[]);
  }

  /**
   * Whatever the unbounded reader accepts, the reader as written accepts the
   * same way: the narrowing never changes a document that fits.
   */
  lemma AcceptedAgrees(input: seq<byte>, length: int)
    requires 0 <= length <= |input| && length < TWO_31
    requires Document.Parse(input, length, JAVA_LIMITS).Ok?
    ensures ParseAsWritten(input, length) == Document.Parse(input, length, JAVA_LIMITS)
  {
    FitAgrees(input, length, Document.ReadHeader(input, length, JAVA_LIMITS).value);
  }

  /**
   * The two fit checks part only past 2^31: when the check as written passes
   * a header the unbounded check refuses, the payloads it declares end at
   * 2^31 or later, and their narrowed end lies within `length`.
   */
  lemma NarrowingAccepts(input: seq<byte>, length: int, h: Document.Header)
    requires h.dataStart <= length <= |input| && length < TWO_31
    requires PlaceAndFit(input, length, h).Ok? && Document.Fit(input, length, h).Err?
    ensures h.dataStart + Document.Total(h.metas) >= TWO_31
    ensures Wrap32(h.dataStart + Document.Total(h.metas)) <= length
  {
    if h.dataStart + Document.Total(h.metas) < TWO_31 {
      FitAgrees(input, length, h);
    }
  }

  /** `getBlock(name)`: a reader over the block stored under `name`, or BlockNotFound. */
  function GetBlock(d: Document.Doc, name: seq<byte>): (res: Result<Cursor.Reader, ErrorCode>)
    requires d.Valid()
    ensures res.Err? <==> name !in d.blocks
    ensures res.Err? ==> res.error == BlockNotFound
    ensures res.Ok? ==> && res.value.Valid() && res.value.offset == res.value.beg && res.value.name == name
                        && res.value.input[res.value.beg..res.value.end] == Document.Contents(d, name)
  {
    if name in d.blocks then
      var e := d.blocks[name];
      Ok(Cursor.Open(d.input, e.beg, e.len, name))
    else Err(BlockNotFound)
  }

  /** The block reader Java builds as written: its end is the `int` sum of start and length. */
  function BlockAsWritten(d: Document.Doc, name: seq<byte>): (res: Result<Cursor.Reader, ErrorCode>)
    requires name in d.blocks ==> IsInt(d.blocks[name].beg) && IsInt(d.blocks[name].len)
    ensures res.Err? <==> name !in d.blocks
    ensures res.Ok? ==> res.value.beg == res.value.offset == d.blocks[name].beg
                        && res.value.end == Wrap32(d.blocks[name].beg + d.blocks[name].len)
  {
    if name in d.blocks then
      var e := d.blocks[name];
      Ok(Cursor.Reader(Cursor.Source(d.input), e.beg, Wrap32(e.beg + e.len), e.beg, name))
    else Err(BlockNotFound)
  }

  /**
   * What `toBytes` writes, `parseBytes` as written reads back: the flags,
   * the name, the count, one block per distinct block name, and for each
   * name a reader over the octets of the last block added under it. Block
   * names must be at most 64 octets, which the writer does not check, and
   * the document shorter than 2^31, as a Java array is.
   */
  lemma DocumentRoundTrip(w: DocumentWriter.Writer, bytes: seq<byte>)
    requires DocumentWriter.JavaSized(w) && DocumentWriter.ToBytes(w) == Ok(bytes) && |bytes| < TWO_31
    requires |w.name| <= MAX_MESSAGE_ID_LEN
    requires forall i :: 0 <= i < |w.blocks| ==> |w.blocks[i].name| <= MAX_BLOCK_ID_LENGTH
    ensures var res := ParseAsWritten(bytes, |bytes|);
            && res.Ok? && res.value.Valid()
            && res.value.flags == PROTOCOL_FLAGS && res.value.name == w.name && res.value.count == |w.blocks|
            && res.value.blocks.Keys == Document.Names(Document.MetasOf(DocumentWriter.Entries(w.blocks)))
            && forall i :: Document.Latest(Document.MetasOf(DocumentWriter.Entries(w.blocks)), i) ==>
                 var b := GetBlock(res.value, w.blocks[i].name);
                 b.Ok? && b.value.input[b.value.beg..b.value.end] == w.blocks[i].data
  {
    var blocks := DocumentWriter.Entries(w.blocks);
    assert Document.Readable(w.name, blocks, JAVA_LIMITS) by {
      forall i | 0 <= i < |blocks|
        ensures Document.Recordable(Document.MetasOf(blocks)[i], None)
      {
        assert |w.blocks[i].name| <= MAX_BLOCK_ID_LENGTH && |w.blocks[i].data| < TWO_31;
      }
    }
    Document.FrameRoundTrip(w.name, blocks, JAVA_LIMITS);
    AcceptedAgrees(bytes, |bytes|);
  }

  /** The records of the narrowing example: a block "A" of 2^31 octets and a block "B" of one. */
  predicate WideMetas(metas: seq<Document.Meta>) {
    metas == [Document.Meta([0x41], TWO_31), Document.Meta([0x42], 1)]
  }

  /**
   * A 17-octet input (empty name, the two records of `WideMetas`, no
   * payload) that `parseBytes` as written accepts: the running offset wraps
   * to 18 - 2^31, which passes the fit check, and block "A" gets the length
   * -2^31. The unbounded reader refuses it with MalformedMessage.
   */
  lemma NarrowingExample(input: seq<byte>, metas: seq<Document.Meta>)
    requires WideMetas(metas) && input == Document.Preamble([], 2) + Document.Directory(metas)
    ensures |input| == 17
    ensures ParseAsWritten(input, 17).Ok?
    ensures [0x41] in ParseAsWritten(input, 17).value.blocks
    ensures ParseAsWritten(input, 17).value.blocks[[0x41]] == Document.Extent(17, -TWO_31)
    ensures Document.Parse(input, 17, JAVA_LIMITS) == Err(MalformedMessage)
  {
    var h := Document.Header(PROTOCOL_FLAGS, [], 2, metas, 17);
    WideHeader(input, metas);
    WidePlaced(metas);
    assert ParseAsWritten(input, 17) == PlaceAndFit(input, 17, h);
    assert Document.Parse(input, 17, JAVA_LIMITS) == Document.Fit(input, 17, h);
  }

  /** The placement as written of the narrowing example: "A" at 17 with length -2^31, and the offset wrapped. */
  lemma WidePlaced(metas: seq<Document.Meta>)
    requires WideMetas(metas)
    ensures Document.Total(metas) == TWO_31 + 1
    ensures PlaceAsWritten(metas, 17, map[]).1 == 18 - TWO_31
    ensures [0x41] in PlaceAsWritten(metas, 17, map[]).0
    ensures PlaceAsWritten(metas, 17, map[]).0[[0x41]] == Document.Extent(17, -TWO_31)
  {
    var rest := metas[1..];
    assert rest[1..] == [];
    assert Wrap32(TWO_31) == -TWO_31 && Wrap32(17 + TWO_31) == 17 - TWO_31 && Wrap32(18 - TWO_31) == 18 - TWO_31;
    var dir := map[[0x41] := Document.Extent(17, -TWO_31)];
    assert PlaceAsWritten(metas, 17, map[]) == PlaceAsWritten(rest, 17 - TWO_31, dir);
    assert PlaceAsWritten(rest, 17 - TWO_31, dir)
           == (dir[[0x42] := Document.Extent(17 - TWO_31, 1)], 18 - TWO_31);
  }

  /** The header of the narrowing example reads back with its payloads starting at 17. */
  lemma WideHeader(input: seq<byte>, metas: seq<Document.Meta>)
    requires WideMetas(metas) && input == Document.Preamble([], 2) + Document.Directory(metas)
    ensures |input| == 17
    ensures Document.ReadHeader(input, 17, JAVA_LIMITS) == Ok(Document.Header(PROTOCOL_FLAGS, [], 2, metas, 17))
  {
    WideLengths(metas);
    assert input == (Document.Preamble([], 2) + Document.Directory(metas)) + [];
    Cursor.AheadPrefix(input, Document.Preamble([], 2) + Document.Directory(metas), [], Document.HEADER_BLOCK_NAME);
    Document.ReadHeaderFrom(input, [], metas, JAVA_LIMITS, 17);
  }

  /** The preamble of the narrowing example takes 7 octets and its directory 10. */
  lemma WideLengths(metas: seq<Document.Meta>)
    requires WideMetas(metas)
    ensures |Document.Preamble([], 2)| == 7
    ensures |Document.Directory(metas)| == 10
  {
    assert Encode(TWO_31) == [0x88, 0x80, 0x80, 0x80, 0x00];
    var rest := metas[1..];
    assert rest[1..] == [];
    assert |Document.Pair(metas[0].name, metas[0].length)| == 7;
    assert |Document.Pair(rest[0].name, rest[0].length)| == 3;
    assert Document.Directory(rest) == Document.Pair(rest[0].name, rest[0].length) + Document.Directory(rest[1..]);
    assert Document.Directory(metas) == Document.Pair(metas[0].name, metas[0].length) + Document.Directory(rest);
  }
}
