/**
 * The two messages the Python module writes as samples, Pong and Error,
 * with the octets it compares them against, and the Pong message read back.
 */
module PyVectors {
  import opened Bytes
  import opened Errors
  import Document
  import PyBlock
  import PyDoc
  import Cursor
  import Varint

  /** Block and document names: "Tm", "Po", "Bo", "Er". */
  const TM: seq<byte> := [0x54, 0x6d]
  const PO: seq<byte> := [0x50, 0x6f]
  const BO: seq<byte> := [0x42, 0x6f]
  const ER: seq<byte> := [0x45, 0x72]

  /** The Pong block's timestamp. */
  const EPOCH: nat := 1335795040

  /** "only a test", the Error block's string. */
  const ONLY_A_TEST: seq<byte> := [0x6f, 0x6e, 0x6c, 0x79, 0x20, 0x61, 0x20, 0x74, 0x65, 0x73, 0x74]

  /** The sample Pong message, 50434f530002506f0102546d0584fcfaba60, in the pieces of its framing. */
  const PONG: seq<byte> :=
    [0x50, 0x43, 0x4f, 0x53, 0x00, 0x02] + [0x50, 0x6f] + [0x01, 0x02] + [0x54, 0x6d] + [0x05] + [0x84, 0xfc, 0xfa, 0xba, 0x60]

  /**
   * The sample Error message, 50434f53000245720102426f0d640b followed by
   * "only a test", in the pieces of its framing.
   */
  const ERROR: seq<byte> :=
    [0x50, 0x43, 0x4f, 0x53, 0x00, 0x02] + [0x45, 0x72] + [0x01, 0x02] + [0x42, 0x6f] + [0x0d] + ([0x64, 0x0b] + ONLY_A_TEST)

  /** The Pong document: a block "Tm" holding the timestamp as an unsigned long, in a document "Po". */
  function PongDoc(): (d: PyDoc.Out)
    ensures d.Valid() && PyDoc.Enumerates([TM], d) && PyDoc.Acceptable(d)
    ensures d.name == PO && TM in d.blocks && d.blocks[TM].data == [0x84, 0xfc, 0xfa, 0xba, 0x60]
  {
    var tm := PyBlock.WriteUlong(PyBlock.NewOutput(TM), EPOCH).value;
    PyDoc.Add(PyDoc.New(PO), tm)
  }

  /** The Error document: a block "Bo" holding 100 as an unsigned int and then "only a test", in a document "Er". */
  function ErrorDoc(): (d: PyDoc.Out)
    ensures d.Valid() && PyDoc.Enumerates([BO], d) && PyDoc.Acceptable(d)
    ensures d.name == ER && BO in d.blocks && d.blocks[BO].data == [0x64, 0x0b] + ONLY_A_TEST
  {
    var bo := PyBlock.WriteUint(PyBlock.NewOutput(BO), 100).value;
    var bo := PyBlock.WriteString(bo, ONLY_A_TEST).value;
    PyDoc.Add(PyDoc.New(ER), bo)
  }

  /** `_writing_test_pong`: writing the Pong document gives the sample octets. */
  lemma PongWritten()
    ensures Document.Frame(PongDoc().name, PyDoc.Entries(PongDoc(), [TM])) == PONG
  {
    var d := PongDoc();
    var data: seq<byte> := [0x84, 0xfc, 0xfa, 0xba, 0x60];
    OneEntry(d, TM, data);
    FrameOne(PO, TM, data);
  }

  /** `_writing_test_error`: writing the Error document gives the sample octets. */
  lemma ErrorWritten()
    ensures Document.Frame(ErrorDoc().name, PyDoc.Entries(ErrorDoc(), [BO])) == ERROR
  {
    var d := ErrorDoc();
    var data: seq<byte> := [0x64, 0x0b] + ONLY_A_TEST;
    OneEntry(d, BO, data);
    FrameOne(ER, BO, data);
  }

  /** The framing of a document of two-octet name with one block of two-octet name and fewer than 128 octets. */
  lemma FrameOne(name: seq<byte>, block: seq<byte>, data: seq<byte>)
    requires |name| == 2 && |block| == 2 && |data| < 0x80
    ensures Document.Frame(name, [Document.Entry(block, data)])
            == [0x50, 0x43, 0x4f, 0x53, 0x00, 0x02] + name + [0x01, 0x02] + block + [|data|] + data
  {
    var blocks := [Document.Entry(block, data)];
    assert Document.Preamble(name, 1) == [0x50, 0x43, 0x4f, 0x53, 0x00, 0x02] + name + [0x01];
    assert Document.MetasOf(blocks) == [Document.Meta(block, |data|)];
    assert Document.Directory([Document.Meta(block, |data|)]) == [0x02] + block + [|data|];
    assert Document.Payload(blocks) == data;
  }

  /** A dictionary listed by a single name holds one block, which is all its entries. */
  lemma OneEntry(d: PyDoc.Out, block: seq<byte>, data: seq<byte>)
    requires block in d.blocks && d.blocks[block].data == data
    ensures PyDoc.Entries(d, [block]) == [Document.Entry(block, data)]
  {
  }

  /** `_reading_test_pong`: the sample Pong parses, and its block "Tm" reads back the timestamp as an unsigned long. */
  lemma PongRead(name: seq<byte>)
    ensures var res := PyDoc.Parse(PONG, name);
            && res.Ok?
            && var tm := PyDoc.Block(res.value, TM, false);
            && tm.Ok? && tm.value.Some?
            && var v := PyBlock.ReadUlong(tm.value.value);
            v.Ok? && v.value.0 == EPOCH
  {
    PongParsed(name);
    EpochEncoded();
    ReadsUlong(PyDoc.Block(PyDoc.Parse(PONG, name).value, TM, false).value.value, EPOCH);
  }

  /** The sample Pong parses, and its block "Tm" holds the unsigned long the writer wrote. */
  lemma PongParsed(name: seq<byte>)
    ensures var res := PyDoc.Parse(PONG, name);
            && res.Ok?
            && var tm := PyDoc.Block(res.value, TM, false);
            && tm.Ok? && tm.value.Some?
            && var r := tm.value.value;
            r.Valid() && r.offset == r.beg && r.input[r.beg..r.end] == [0x84, 0xfc, 0xfa, 0xba, 0x60]
  {
    PongWritten();
    PyDoc.RoundTrip(PongDoc(), [TM], name);
  }

  /** The timestamp's varint is the Pong block's octets. */
  lemma EpochEncoded()
    ensures Varint.Encode(EPOCH) == [0x84, 0xfc, 0xfa, 0xba, 0x60]
  {
  }

  /** A reader at the start of a block holding exactly one varint of at most ten octets reads it as an unsigned long. */
  lemma ReadsUlong(r: Cursor.Reader, val: nat)
    requires r.Valid() && r.offset == r.beg && r.input[r.beg..r.end] == Varint.Encode(val) && val <= PyBlock.MAX_ULONG
    ensures PyBlock.ReadUlong(r).Ok? && PyBlock.ReadUlong(r).value.0 == val
  {
    Cursor.MatchesAt(r.input, r.offset, Varint.Encode(val));
    Varint.EncodeSizes(val);
    Cursor.ReadVarIntEncoded(r, val, 10);
  }
}
