/**
 * Java's DocumentWriter: a document name and a list of block writers; the
 * document is written through one more block writer, over a stream, as the
 * magic, the flags, the name, the block count, the directory and then the
 * payloads.
 */
module DocumentWriter {
  import opened Bytes
  import opened Errors
  import opened Varint
  import opened TwosComplement
  import opened ProtocolTag
  import BlockWriter
  import Document

  /** A document writer: its name and the blocks added so far, in order. */
  datatype Writer = Writer(name: seq<byte>, blocks: seq<BlockWriter.Writer>)

  /**
   * `new DocumentWriter(name)`: refused with MalformedMessage when the name
   * is longer than 128, with no block yet otherwise.
   */
  function New(name: seq<byte>): (res: Result<Writer, ErrorCode>)
    ensures res.Err? <==> |name| > MAX_MESSAGE_ID_LEN
    ensures res.Err? ==> res.error == MalformedMessage
    ensures res.Ok? ==> res.value.name == name && res.value.blocks == []
  {
    if |name| > MAX_MESSAGE_ID_LEN then Err(MalformedMessage) else Ok(Writer(name, []))
  }

  /** `addBlock(b)`: `b` goes after every block added before, whatever its name. */
  function AddBlock(w: Writer, b: BlockWriter.Writer): (w': Writer)
    ensures w'.name == w.name && |w'.blocks| == |w.blocks| + 1
    ensures w'.blocks[..|w.blocks|] == w.blocks && w'.blocks[|w.blocks|] == b
  {
    w.(blocks := w.blocks + [b])
  }

  /**
   * What Java's types guarantee of the values `toBytes` writes: strings and
   * arrays, and the list of blocks, hold fewer than 2^31 elements.
   */
  predicate JavaSized(w: Writer) {
    && |w.name| < TWO_31 && |w.blocks| < TWO_31
    && forall i :: 0 <= i < |w.blocks| ==> |w.blocks[i].name| < TWO_31 && |w.blocks[i].data| < TWO_31
  }

  /** The blocks as the document framing sees them: each block's name and octets. */
  function Entries(blocks: seq<BlockWriter.Writer>): (es: seq<Document.Entry>)
    ensures |es| == |blocks|
    ensures forall i :: 0 <= i < |blocks| ==> es[i] == Document.Entry(blocks[i].name, blocks[i].data)
  {
    seq(|blocks|, i requires 0 <= i < |blocks| => Document.Entry(blocks[i].name, blocks[i].data))
  }

  /** The directory loop: per block its name as a string and its `size()` as a `writeUint` varint. */
  function WriteMetas(out: BlockWriter.Writer, blocks: seq<BlockWriter.Writer>): (out': BlockWriter.Writer)
    requires forall i :: 0 <= i < |blocks| ==> |blocks[i].name| < TWO_31 && |blocks[i].data| < TWO_31
    decreases |blocks|
  {
    if blocks == [] then out
    else
      var named := BlockWriter.WriteString(out, Some(blocks[0].name));
      WriteMetas(BlockWriter.WriteUint(named, BlockWriter.Size(blocks[0])), blocks[1..])
  }

  /**
   * The payload loop: each block's `toBytes()` written out in order; the
   * first block that wrote to a caller's stream stops it with InternalError.
   */
  function WriteData(out: BlockWriter.Writer, blocks: seq<BlockWriter.Writer>): (res: Result<BlockWriter.Writer, ErrorCode>)
    decreases |blocks|
  {
    if blocks == [] then Ok(out)
    else
      var data :- BlockWriter.ToBytes(blocks[0]);
      WriteData(BlockWriter.WriteBytes(out, data), blocks[1..])
  }

  /**
   * `toBytes()`: the magic, the flags octet, the name, the block count, the
   * directory and the payloads, all written through a writer over a stream.
   * It fails with InternalError exactly when some block wrote to a caller's
   * stream, and otherwise yields the document framing of the blocks.
   */
  function ToBytes(w: Writer): (res: Result<seq<byte>, ErrorCode>)
    requires JavaSized(w)
    ensures res.Err? <==> exists i :: 0 <= i < |w.blocks| && !w.blocks[i].ownsBuffer
    ensures res.Err? ==> res.error == InternalError
    ensures res.Ok? ==> res.value == Document.Frame(w.name, Entries(w.blocks))
  {
    var out := BlockWriter.NewOverStream([0x3f, 0x3f]);
    var out := BlockWriter.WriteBytes(out, PROTOCOL_MAGIC);
    var out := BlockWriter.WriteByte(out, PROTOCOL_FLAGS);
    var out := BlockWriter.WriteString(out, Some(w.name));
    var out := BlockWriter.WriteUint(out, |w.blocks|);
    var metas := WriteMetas(out, w.blocks);
    WriteMetasDirectory(out, w.blocks);
    WriteDataPayload(metas, w.blocks);
    PreambleWritten(w.name, |w.blocks|, out.data);
    var written :- WriteData(metas, w.blocks);
    Ok(written.data)
  }

  /** The header `toBytes` writes before the directory is the document preamble. */
  lemma PreambleWritten(name: seq<byte>, count: nat, data: seq<byte>)
    requires data == [] + PROTOCOL_MAGIC + [PROTOCOL_FLAGS % 0x100] + (Encode(|name|) + name) + Encode(count)
    ensures data == Document.Preamble(name, count)
  {
  }

  /** The directory loop appends the directory of the blocks' names and sizes. */
  lemma {:induction false} WriteMetasDirectory(out: BlockWriter.Writer, blocks: seq<BlockWriter.Writer>)
    requires forall i :: 0 <= i < |blocks| ==> |blocks[i].name| < TWO_31 && |blocks[i].data| < TWO_31
    ensures WriteMetas(out, blocks).data == out.data + Document.Directory(Document.MetasOf(Entries(blocks)))
    decreases |blocks|
  {
    if blocks != [] {
      var sized := MetaWritten(out, blocks[0]);
      WriteMetasDirectory(sized, blocks[1..]);
      DirectoryCons(blocks);
      AppendAssoc(out.data, Document.Pair(blocks[0].name, |blocks[0].data|),
                  Document.Directory(Document.MetasOf(Entries(blocks[1..]))));
    }
  }

  /** One step of the directory loop appends one directory record. */
  lemma MetaWritten(out: BlockWriter.Writer, b: BlockWriter.Writer) returns (sized: BlockWriter.Writer)
    requires |b.name| < TWO_31 && |b.data| < TWO_31
    ensures sized == BlockWriter.WriteUint(BlockWriter.WriteString(out, Some(b.name)), BlockWriter.Size(b))
    ensures sized.data == out.data + Document.Pair(b.name, |b.data|)
  {
    sized := BlockWriter.WriteUint(BlockWriter.WriteString(out, Some(b.name)), BlockWriter.Size(b));
  }

  /** The directory of a non-empty list of blocks is the first record and then the directory of the rest. */
  lemma DirectoryCons(blocks: seq<BlockWriter.Writer>)
    requires blocks != []
    ensures Document.Directory(Document.MetasOf(Entries(blocks)))
            == Document.Pair(blocks[0].name, |blocks[0].data|) + Document.Directory(Document.MetasOf(Entries(blocks[1..])))
  {
    assert Document.MetasOf(Entries(blocks[1..])) == Document.MetasOf(Entries(blocks))[1..];
  }

  /**
   * The payload loop fails with InternalError exactly when a block wrote to a
   * caller's stream, and otherwise appends the payloads of the blocks.
   */
  lemma {:induction false} WriteDataPayload(out: BlockWriter.Writer, blocks: seq<BlockWriter.Writer>)
    ensures WriteData(out, blocks).Err? <==> exists i :: 0 <= i < |blocks| && !blocks[i].ownsBuffer
    ensures WriteData(out, blocks).Err? ==> WriteData(out, blocks).error == InternalError
    ensures WriteData(out, blocks).Ok? ==> WriteData(out, blocks).value.data == out.data + Document.Payload(Entries(blocks))
    decreases |blocks|
  {
    if blocks != [] {
      if blocks[0].ownsBuffer {
        WriteDataPayload(BlockWriter.WriteBytes(out, blocks[0].data), blocks[1..]);
        assert Entries(blocks[1..]) == Entries(blocks)[1..];
        if exists i :: 0 <= i < |blocks[1..]| && !blocks[1..][i].ownsBuffer {
          var i :| 0 <= i < |blocks[1..]| && !blocks[1..][i].ownsBuffer;
          assert !blocks[i + 1].ownsBuffer;
        }
        if exists i :: 0 <= i < |blocks| && !blocks[i].ownsBuffer {
          var i :| 0 <= i < |blocks| && !blocks[i].ownsBuffer;
          assert !blocks[1..][i - 1].ownsBuffer;
        }
      }
    }
  }
}
