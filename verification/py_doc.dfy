/**
 * Python's Doc: parsing an input with Python's limits (at least eight
 * octets, at most eight blocks of at most 10240 octets each), looking up a
 * block, adding a block to a document being written, and writing the
 * document out.
 */
module PyDoc {
  import opened Bytes
  import opened Errors
  import opened Varint
  import opened ProtocolTag
  import Cursor
  import Document
  import PyBlock

  const MIN_MESSAGE_HEADER_LENGTH: nat := 8
  const MAX_BLOCK_COUNT: nat := 8
  const MAX_BLOCK_LENGTH: nat := 10240

  /** What Python's parser checks beyond the format. */
  const PY_LIMITS: Document.Limits := Document.Limits(MIN_MESSAGE_HEADER_LENGTH, Some(MAX_BLOCK_COUNT), Some(MAX_BLOCK_LENGTH))

  /**
   * `Doc(data, name)`: an empty `data` is not parsed and gives a document
   * named `name` with no block; any other input is parsed whole with
   * Python's limits, so that fewer than eight octets are MalformedMessage,
   * a wrong magic is BadMagic, a name above 128 octets, more than eight
   * blocks or a block above 10240 octets is ArgOutOfRange, and a parsed
   * document has at most eight blocks of at most 10240 octets each.
   */
  function Parse(data: seq<byte>, name: seq<byte>): (res: Result<Document.Doc, ErrorCode>)
    ensures data == [] ==> res == Ok(Document.Doc([], PROTOCOL_FLAGS, name, 0, map[]))
    ensures 0 < |data| < MIN_MESSAGE_HEADER_LENGTH ==> res == Err(MalformedMessage)
    ensures |data| >= MIN_MESSAGE_HEADER_LENGTH ==> (res == Err(BadMagic) <==> data[..PROTOCOL_MAGIC_LEN] != PROTOCOL_MAGIC)
    ensures res.Ok? ==> res.value.Valid() && res.value.input == data
    ensures res.Ok? && data != [] ==> res.value.count <= MAX_BLOCK_COUNT && |res.value.name| <= MAX_MESSAGE_ID_LEN
    ensures res.Ok? ==> forall n :: n in res.value.blocks ==> res.value.blocks[n].len <= MAX_BLOCK_LENGTH
    ensures NameTooLong(data) || OverCaps(data) ==> res == Err(ArgOutOfRange)
  {
    if data == [] then Ok(Document.Doc([], PROTOCOL_FLAGS, name, 0, map[]))
    else
      ParseCapped(data);
      Document.Parse(data, |data|, PY_LIMITS)
  }

  /** An input long enough to be read whose document name is above 128 octets. */
  predicate NameTooLong(data: seq<byte>) {
    && |data| >= MIN_MESSAGE_HEADER_LENGTH
    && Document.ReadPreamble(Cursor.Open(data, 0, |data|, Document.HEADER_BLOCK_NAME)) == Err(ArgOutOfRange)
  }

  /** An input whose header reads without Python's caps but has more than eight blocks or one above 10240 octets. */
  predicate OverCaps(data: seq<byte>) {
    && |data| >= MIN_MESSAGE_HEADER_LENGTH
    && var loose := Document.ReadHeader(data, |data|, Document.Uncapped(PY_LIMITS));
    && loose.Ok?
    && (loose.value.count > MAX_BLOCK_COUNT || Document.SomeAbove(loose.value.metas, Some(MAX_BLOCK_LENGTH)))
  }

  /**
   * What Python's limits guarantee of a document the shared parser accepts,
   * and the ArgOutOfRange with which they refuse the rest.
   */
  lemma ParseCapped(data: seq<byte>)
    ensures var res := Document.Parse(data, |data|, PY_LIMITS);
            && (0 < |data| < MIN_MESSAGE_HEADER_LENGTH ==> res == Err(MalformedMessage))
            && (|data| >= MIN_MESSAGE_HEADER_LENGTH ==> (res == Err(BadMagic) <==> data[..PROTOCOL_MAGIC_LEN] != PROTOCOL_MAGIC))
            && (res.Ok? ==> res.value.count <= MAX_BLOCK_COUNT && |res.value.name| <= MAX_MESSAGE_ID_LEN)
            && (res.Ok? ==> forall n :: n in res.value.blocks ==> res.value.blocks[n].len <= MAX_BLOCK_LENGTH)
            && (NameTooLong(data) || OverCaps(data) ==> res == Err(ArgOutOfRange))
  {
    Document.ReadHeaderChecks(data, |data|, PY_LIMITS);
    Document.ReadHeaderCaps(data, |data|, PY_LIMITS);
    var h := Document.ReadHeader(data, |data|, PY_LIMITS);
    if h.Ok? {
      HeaderCapped(data, |data|, PY_LIMITS);
      PlaceCapped(h.value.metas, h.value.dataStart, map[], MAX_BLOCK_LENGTH);
      ParsePlaces(data, |data|, PY_LIMITS, h.value);
    }
  }

  /** A successful parse carries the header's name and count and the extents placing its records gives. */
  lemma ParsePlaces(input: seq<byte>, length: int, limits: Document.Limits, h: Document.Header)
    requires 0 <= length <= |input| && Document.ReadHeader(input, length, limits) == Ok(h)
    ensures var res := Document.Parse(input, length, limits);
            res.Ok? ==> && res.value.name == h.name && res.value.count == h.count
                        && res.value.blocks == Document.Place(h.metas, h.dataStart, map[]).0
  {
    assert Document.Parse(input, length, limits) == Document.Fit(input, length, h);
  }

  /** Every record of a header read is within the block-length cap. */
  lemma HeaderCapped(input: seq<byte>, length: int, limits: Document.Limits)
    requires 0 <= length <= |input| && Document.ReadHeader(input, length, limits).Ok?
    ensures var metas := Document.ReadHeader(input, length, limits).value.metas;
            forall i :: 0 <= i < |metas| ==> Document.Allows(limits.maxBlockLength, metas[i].length)
  {
    var p := Document.ReadPreamble(Cursor.Open(input, 0, length, Document.HEADER_BLOCK_NAME)).value;
  }

  /** Placing records within a cap keeps every extent within it. */
  lemma {:induction false} PlaceCapped(metas: seq<Document.Meta>, offset: int, dir: map<seq<byte>, Document.Extent>, cap: nat)
    requires forall n :: n in dir ==> dir[n].len <= cap
    requires forall i :: 0 <= i < |metas| ==> Document.Allows(Some(cap), metas[i].length)
    ensures var placed := Document.Place(metas, offset, dir).0;
            forall n :: n in placed ==> placed[n].len <= cap
    decreases |metas|
  {
    if metas != [] {
      var dir' := dir[metas[0].name := Document.Extent(offset, metas[0].length)];
      assert Document.Allows(Some(cap), metas[0].length);
      PlaceCapped(metas[1..], offset + metas[0].length, dir', cap);
      assert Document.Place(metas, offset, dir) == Document.Place(metas[1..], offset + metas[0].length, dir');
    }
  }

  /**
   * `block(name, optional)`: a reader at the start of the block when the
   * document has it; otherwise nothing when the block is optional and
   * BlockNotFound when it is not.
   */
  function Block(d: Document.Doc, name: seq<byte>, optional: bool): (res: Result<Option<Cursor.Reader>, ErrorCode>)
    requires d.Valid()
    ensures res.Err? <==> name !in d.blocks && !optional
    ensures res.Err? ==> res.error == BlockNotFound
    ensures res == Ok(None) <==> name !in d.blocks && optional
    ensures res.Ok? && res.value.Some? ==>
              var r := res.value.value;
              && r.Valid() && r.offset == r.beg && r.name == name
              && r.input[r.beg..r.end] == Document.Contents(d, name)
  {
    if name in d.blocks then
      var e := d.blocks[name];
      Ok(Some(Cursor.Open(d.input, e.beg, e.len, name)))
    else if optional then Ok(None)
    else Err(BlockNotFound)
  }

  /**
   * `parse_block(data, message_id, block_name)`: raw block octets wrapped in
   * a one-block document named `message_id`, and the reader `block` gives
   * for it: at the start of exactly those octets.
   */
  function ParseBlock(data: seq<byte>, messageId: seq<byte>, blockName: seq<byte>): (r: Cursor.Reader)
    ensures r.Valid() && r.offset == r.beg && r.name == blockName
    ensures r.input[r.beg..r.end] == data
  {
    var d := Document.Doc(data, PROTOCOL_FLAGS, messageId, 1, map[blockName := Document.Extent(0, |data|)]);
    assert d.Valid();
    Block(d, blockName, false).value.value
  }

  /**
   * A document being written: its name and its dictionary of blocks, each
   * stored under its own name.
   */
  datatype Out = Out(name: seq<byte>, blocks: map<seq<byte>, PyBlock.Block>) {
    /** Each block is stored under its own name. */
    predicate Valid() {
      forall n :: n in blocks ==> blocks[n].name == n
    }
  }

  /** `Doc(name = name)` without data: a document to write, with no block. */
  function New(name: seq<byte>): (d: Out)
    ensures d.name == name && d.blocks == map[] && d.Valid()
  {
    Out(name, map[])
  }

  /**
   * `add(block)`: the block is stored under its name, replacing any block
   * of that name; every other block stays.
   */
  function Add(d: Out, b: PyBlock.Block): (d': Out)
    ensures d'.name == d.name && d'.blocks.Keys == d.blocks.Keys + {b.name}
    ensures d'.blocks[b.name] == b
    ensures forall n :: n in d.blocks && n != b.name ==> d'.blocks[n] == d.blocks[n]
    ensures d.Valid() ==> d'.Valid()
  {
    d.(blocks := d.blocks[b.name := b])
  }

  /**
   * `order` lists every name of the dictionary exactly once: the order in
   * which the dictionary is iterated, which Python leaves unspecified.
   */
  predicate Enumerates(order: seq<seq<byte>>, d: Out) {
    && |order| == |d.blocks|
    && (forall i :: 0 <= i < |order| ==> order[i] in d.blocks)
    && (forall n :: n in d.blocks ==> n in order)
    && (forall i, j :: 0 <= i < j < |order| ==> order[i] != order[j])
  }

  /** The blocks in `order`, as the document framing sees them: name and octets. */
  function Entries(d: Out, order: seq<seq<byte>>): (es: seq<Document.Entry>)
    requires forall i :: 0 <= i < |order| ==> order[i] in d.blocks
    ensures |es| == |order|
    ensures forall i :: 0 <= i < |order| ==> es[i] == Document.Entry(order[i], d.blocks[order[i]].data)
  {
    seq(|order|, i requires 0 <= i < |order| => Document.Entry(order[i], d.blocks[order[i]].data))
  }

  /**
   * `as_bytearray()`: the magic, the flags octet, the name with its
   * `_to_varint` length, the block count, then a first pass over the
   * dictionary writing each name and size and a second pass writing each
   * block's octets. With both passes in the order `order`, the result is the
   * document framing of the blocks in that order.
   */
  method AsBytes(d: Out, order: seq<seq<byte>>) returns (out: seq<byte>)
    requires Enumerates(order, d)
    ensures out == Document.Frame(d.name, Entries(d, order))
  {
    var entries := Entries(d, order);
    var payload: seq<byte> := PROTOCOL_MAGIC + [PROTOCOL_FLAGS];
    var t := PyBlock.ToVarint(|d.name|);
    payload := payload + t.value + d.name;
    t := PyBlock.ToVarint(|d.blocks|);
    payload := payload + t.value;
    PreambleBuilt(d.name, |entries|, payload);
    payload := AppendMetas(payload, d, order, entries);
    out := AppendData(payload, d, order, entries);
  }

  /** The octets written before the first pass are the document preamble. */
  lemma PreambleBuilt(name: seq<byte>, count: nat, payload: seq<byte>)
    requires payload == PROTOCOL_MAGIC + [PROTOCOL_FLAGS] + Encode(|name|) + name + Encode(count)
    ensures payload == Document.Preamble(name, count)
  {
  }

  /** The first pass of `as_bytearray`: per block its name with its `_to_varint` length, then its size. */
  method AppendMetas(payload: seq<byte>, d: Out, order: seq<seq<byte>>, entries: seq<Document.Entry>) returns (out: seq<byte>)
    requires (forall i :: 0 <= i < |order| ==> order[i] in d.blocks) && entries == Entries(d, order)
    ensures out == payload + Document.Directory(Document.MetasOf(entries))
  {
    out := payload;
    var i := 0;
    while i < |order|
      invariant 0 <= i <= |order|
      invariant out == payload + Document.Directory(Document.MetasOf(entries[..i]))
    {
      var b := d.blocks[order[i]];
      var named := PyBlock.ToVarint(|order[i]|);
      var sized := PyBlock.ToVarint(|b.data|);
      DirectoryStep(payload, out, entries, i);
      out := out + (named.value + order[i] + sized.value);
      i := i + 1;
    }
    assert entries[..i] == entries;
  }

  /** The second pass of `as_bytearray`: each block's octets. */
  method AppendData(payload: seq<byte>, d: Out, order: seq<seq<byte>>, entries: seq<Document.Entry>) returns (out: seq<byte>)
    requires (forall i :: 0 <= i < |order| ==> order[i] in d.blocks) && entries == Entries(d, order)
    ensures out == payload + Document.Payload(entries)
  {
    out := payload;
    var i := 0;
    while i < |order|
      invariant 0 <= i <= |order|
      invariant out == payload + Document.Payload(entries[..i])
    {
      PayloadSnoc(entries, i);
      out := out + d.blocks[order[i]].data;
      i := i + 1;
    }
    assert entries[..i] == entries;
  }

  /** Appending the next block's record to a partly written directory extends it by that block. */
  lemma DirectoryStep(payload: seq<byte>, out: seq<byte>, entries: seq<Document.Entry>, i: int)
    requires 0 <= i < |entries| && out == payload + Document.Directory(Document.MetasOf(entries[..i]))
    ensures out + (Encode(|entries[i].name|) + entries[i].name + Encode(|entries[i].data|))
            == payload + Document.Directory(Document.MetasOf(entries[..i + 1]))
  {
    var p := Document.Pair(entries[i].name, |entries[i].data|);
    assert Encode(|entries[i].name|) + entries[i].name + Encode(|entries[i].data|) == p;
    DirectorySnoc(entries, i);
    AppendAssoc(payload, Document.Directory(Document.MetasOf(entries[..i])), p);
  }

  /** The directory of one more block is the directory so far and then its record. */
  lemma DirectorySnoc(entries: seq<Document.Entry>, i: int)
    requires 0 <= i < |entries|
    ensures Document.Directory(Document.MetasOf(entries[..i + 1]))
            == Document.Directory(Document.MetasOf(entries[..i])) + Document.Pair(entries[i].name, |entries[i].data|)
  {
    var m := Document.Meta(entries[i].name, |entries[i].data|);
    assert Document.MetasOf(entries[..i + 1]) == Document.MetasOf(entries[..i]) + [m];
    DirectoryAppend(Document.MetasOf(entries[..i]), m);
  }

  /** Appending a record appends its pair to the directory. */
  lemma {:induction false} DirectoryAppend(metas: seq<Document.Meta>, m: Document.Meta)
    ensures Document.Directory(metas + [m]) == Document.Directory(metas) + Document.Pair(m.name, m.length)
    decreases |metas|
  {
    if metas == [] {
      assert [m][1..] == [];
    } else {
      assert (metas + [m])[1..] == metas[1..] + [m];
      DirectoryAppend(metas[1..], m);
    }
  }

  /** The payloads of one more block are the payloads so far and then its octets. */
  lemma PayloadSnoc(entries: seq<Document.Entry>, i: int)
    requires 0 <= i < |entries|
    ensures Document.Payload(entries[..i + 1]) == Document.Payload(entries[..i]) + entries[i].data
  {
    assert entries[..i + 1] == entries[..i] + [entries[i]];
    PayloadAppend(entries[..i], entries[i]);
  }

  /** Appending a block appends its octets to the payloads. */
  lemma {:induction false} PayloadAppend(blocks: seq<Document.Entry>, e: Document.Entry)
    ensures Document.Payload(blocks + [e]) == Document.Payload(blocks) + e.data
    decreases |blocks|
  {
    if blocks == [] {
      assert [e][1..] == [];
    } else {
      assert (blocks + [e])[1..] == blocks[1..] + [e];
      PayloadAppend(blocks[1..], e);
    }
  }

  /**
   * What Python's reader accepts of a written document: a name of at most
   * 128 octets, at most eight blocks, block names of at most 64 octets and
   * blocks of at most 10240 octets.
   */
  predicate Acceptable(d: Out) {
    && |d.name| <= MAX_MESSAGE_ID_LEN && |d.blocks| <= MAX_BLOCK_COUNT
    && forall n :: n in d.blocks ==> |n| <= MAX_BLOCK_ID_LENGTH && |d.blocks[n].data| <= MAX_BLOCK_LENGTH
  }

  /**
   * A document `as_bytearray` writes, within Python's limits and with a name
   * or a block, parses back (whatever name the reader is given) with its
   * name, its block count, its block names, and each block's octets behind
   * `block(name)`.
   */
  lemma RoundTrip(d: Out, order: seq<seq<byte>>, reader: seq<byte>)
    requires d.Valid() && Enumerates(order, d) && Acceptable(d)
    requires d.name != [] || d.blocks != map[]
    ensures var res := Parse(Document.Frame(d.name, Entries(d, order)), reader);
            && res.Ok?
            && res.value.name == d.name && res.value.count == |d.blocks|
            && res.value.blocks.Keys == d.blocks.Keys
            && forall n :: n in d.blocks ==>
                 var b := Block(res.value, n, false);
                 && b.Ok? && b.value.Some?
                 && b.value.value.input[b.value.value.beg..b.value.value.end] == d.blocks[n].data
  {
    var entries := Entries(d, order);
    var metas := Document.MetasOf(entries);
    Accepted(d, order);
    OrderNames(d, order);
    Document.FrameRoundTrip(d.name, entries, PY_LIMITS);
    var frame := Document.Frame(d.name, entries);
    var parsed := Document.Parse(frame, |frame|, PY_LIMITS).value;
    assert Parse(frame, reader) == Ok(parsed);
    forall n | n in d.blocks
      ensures Document.Contents(parsed, n) == d.blocks[n].data
    {
      var i :| 0 <= i < |order| && order[i] == n;
      assert Document.Latest(metas, i);
    }
  }

  /** Python's limits accept the framing of a document within them that has a name or a block. */
  lemma Accepted(d: Out, order: seq<seq<byte>>)
    requires Enumerates(order, d) && Acceptable(d)
    requires d.name != [] || d.blocks != map[]
    ensures Document.Readable(d.name, Entries(d, order), PY_LIMITS)
  {
    var entries := Entries(d, order);
    FrameLength(d.name, entries);
    if d.name == [] {
      var n :| n in d.blocks;
      assert n in order;
    }
  }

  /**
   * Listing each name once makes every record the last of its name, and the
   * names the records declare those of the dictionary.
   */
  lemma OrderNames(d: Out, order: seq<seq<byte>>)
    requires Enumerates(order, d)
    ensures var metas := Document.MetasOf(Entries(d, order));
            && Document.Names(metas) == d.blocks.Keys
            && forall i :: 0 <= i < |order| ==> Document.Latest(metas, i)
  {
    var metas := Document.MetasOf(Entries(d, order));
    forall n | n in d.blocks
      ensures n in Document.Names(metas)
    {
      var i :| 0 <= i < |order| && order[i] == n;
      assert metas[i].name == n;
    }
  }

  /**
   * A document with no name and no block is seven octets long, shorter than
   * Python's reader accepts: `as_bytearray` writes what Python's parser
   * refuses with MalformedMessage.
   */
  lemma EmptyRejected(d: Out, order: seq<seq<byte>>, reader: seq<byte>)
    requires Enumerates(order, d) && d.name == [] && d.blocks == map[]
    ensures |Document.Frame(d.name, Entries(d, order))| == MIN_MESSAGE_LENGTH
    ensures Parse(Document.Frame(d.name, Entries(d, order)), reader) == Err(MalformedMessage)
  {
    FrameLength(d.name, Entries(d, order));
  }

  /** A document frame is seven octets when it has neither a name nor a block, and longer otherwise. */
  lemma FrameLength(name: seq<byte>, blocks: seq<Document.Entry>)
    ensures name == [] && blocks == [] ==> |Document.Frame(name, blocks)| == MIN_MESSAGE_LENGTH
    ensures name != [] || blocks != [] ==> |Document.Frame(name, blocks)| >= MIN_MESSAGE_HEADER_LENGTH
  {
    if blocks != [] {
      assert |Document.Directory(Document.MetasOf(blocks))| >= 1;
    }
  }
}
