# PCOS codec in Dafny

PCOS is the binary message format of the PushCoin protocol. A document
starts with the magic "PCOS" and a flags octet. Then come:

- the document name, as a length-prefixed string;
- the block count, as a varint;
- a directory of (block name, block length) records;
- the blocks' octets, back to back.

Inside a block, values are written as follows:

- unsigned integers are base-128 varints, most significant group first;
- signed integers are zigzag-coded varints;
- strings are length-prefixed;
- doubles are eight raw octets.

The repository implements the format twice. There is a Java library:
BlockWriter, BlockReader, DocumentWriter and DocumentReader. There is also a
Python module, `pcos.py`, with its Doc and Block classes. A third piece,
`base16.py`, writes octets as text in a 16-letter alphabet (PCOS-16).

This project models all three in Dafny and proves properties of the models.

| file | module | models |
|---|---|---|
| errors.dfy | Errors | the error codes, `Result` and `Option` |
| bytes.dfy | Bytes, ProtocolTag | octets, sequence helpers, protocol constants |
| twos_complement.dfy | TwosComplement | Java `int`/`long` narrowing, two's-complement XOR, powers of two |
| varint.dfy | Varint | the reference base-128 varint and its length bounds |
| zigzag.dfy | ZigZag | the zigzag code, the readers' un-zigzag, both writers' zigzag expressions |
| cursor.dfy | Cursor | the bounds-checked read cursor both implementations share |
| block_writer.dfy | BlockWriter | Java BlockWriter, including the `writeVarInt` loop |
| block_reader.dfy | BlockReader | Java BlockReader, including its 64-bit `readVarInt` accumulator |
| java_roundtrip.dfy | JavaRoundTrip | what each Java `read*` gives back from what the matching `write*` appends |
| document.dfy | Document | the document framing, the header reader, block placement and the framing round trip |
| document_writer.dfy | DocumentWriter | Java DocumentWriter |
| document_reader.dfy | DocumentReader | Java DocumentReader, with its 32-bit block offsets |
| py_block.dfy | PyBlock | Python Block (output and input mode) and `_to_varint` |
| py_doc.dfy | PyDoc | Python Doc: parse, `block`, `add`, `as_bytearray`, `parse_block` |
| py_vectors.dfy | PyVectors | the Pong and Error sample messages of `pcos.py` |
| base16.dfy | Base16 | PCOS-16 `encode` and `decode` |

## How the model is built

Integers are unbounded. Java's 32- and 64-bit arithmetic is written out
where it matters:

- `Wrap32`/`Wrap64` model casts and overflow;
- `Xor` is two's-complement exclusive or on any integer;
- `>>` is floor halving.

Python's integers are unbounded, as in the model.

Both readers run the same checks over a range of one input array. The
`Cursor` module holds those shared reads. Java's `readVarInt` differs in one
respect: it accumulates in a 64-bit `long`. `BlockReader.ReadVarIntFromWraps`
proves that this equals the unbounded read wrapped to 64 bits.

Both writers produce the same framing, `Document.Frame`. Both readers parse
with one header reader, `Document.ReadHeader`, which takes the checks that
differ between them as parameters (`Document.Limits`):

- Python: at least eight octets, at most eight blocks, and at most 10240
  octets per block;
- Java: no such caps.

`Document.Parse` places the blocks with unbounded offsets.
`DocumentReader.ParseAsWritten` is Java's reader as written, with `int`
offsets. `DocumentReader.AcceptedAgrees` proves the two agree on every input
the unbounded reader accepts.

## Model

| member | source | states |
|---|---|---|
| ZigZag.Decode | Java/src/main/com/pushcoin/lib/pcos/BlockReader.java:132-138 | the readers' un-zigzag `(u >> 1) ^ -(u & 1)` inverts the zigzag code for every non-negative `u`, and maps longs to longs; Python's `read_long` (pcos.py:360-364) applies the same expression |
| ZigZag.DecodeCode | Python/pcos.py:360-364 | un-zigzagging the zigzag code of any integer gives the integer back |
| ZigZag.JavaInt | Java/src/main/java/com/pushcoin/lib/pcos/BlockWriter.java:132-137 | in 32-bit arithmetic, `(val << 1) ^ (val >> 31)` is non-negative exactly when `val` lies in [-2^30, 2^30), and there it is the zigzag code |
| ZigZag.JavaLong | Java/src/main/java/com/pushcoin/lib/pcos/BlockWriter.java:146-151 | in 64-bit arithmetic, `(val << 1) ^ (val >> 63)` is non-negative exactly when `val` lies in [-2^62, 2^62), and there it is the zigzag code |
| ZigZag.JavaUnsigned | Java/src/main/java/com/pushcoin/lib/pcos/BlockWriter.java:132-151 | the Java zigzag expressions, read as unsigned 32- or 64-bit numbers, are the zigzag code of every `int` and every `long` |
| ZigZag.PyRange | Python/pcos.py:391-406 | on unbounded integers, `(val << 1) ^ (val >> k)` is never negative; it is below 2^(k+1) exactly when `val` lies in [-2^k, 2^k), and there it is the zigzag code |
| Varint.EncodeWellFormed | Python/pcos.py:53-75 | the reference varint of `v` has 0x80 set on every octet but the last, and its 7-bit groups, most significant first, add back up to `v` |
| Varint.EncodeLength | Python/pcos.py:325-342 | the varint of `v` has at most `k` octets exactly when `v` is below 128^k |
| Varint.EncodeSizes | Java/src/main/com/pushcoin/lib/pcos/BlockReader.java:126-144 | a varint has at most 5 octets (`readUint`'s limit) exactly below 2^35, and at most 9 exactly below 2^63; below 2^64 it has at most 10 (`readUlong`'s limit) |
| Cursor.Open | Java/src/main/com/pushcoin/lib/pcos/BlockReader.java:35-42 | a new reader stands at the start of its range, and its size is the length given; Python's `create_input_block` (pcos.py:238-248) builds the same |
| Cursor.ReadByte | Java/src/main/com/pushcoin/lib/pcos/BlockReader.java:51-59 | fails with MalformedMessage exactly at the end of the range; otherwise gives the octet under the cursor and moves one on; Python's `read_byte` (pcos.py:290-297) behaves the same |
| Cursor.ReadBool | Java/src/main/com/pushcoin/lib/pcos/BlockReader.java:45-48 | one octet, true exactly when it is non-zero; fails exactly at the end of the range (Python `read_bool`, pcos.py:320-322) |
| Cursor.ReadBytes | Java/src/main/com/pushcoin/lib/pcos/BlockReader.java:62-72 | fails exactly when fewer than `n` octets remain; otherwise gives the next `n` octets verbatim and moves `n` on (Python `read_bytes`, pcos.py:300-309) |
| Cursor.ReadVarInt | Python/pcos.py:325-342 | succeeds exactly when an octet with 0x80 clear lies within the first `k` octets before the end of the range, and then moves past that octet; otherwise MalformedMessage |
| Cursor.ReadVarIntConsumes | Python/pcos.py:325-342 | the octets a successful read consumes form a well-formed varint, and the value is their 7-bit groups added up, most significant first |
| Cursor.WellFormedUnique | Python/pcos.py:325-342 | well-formed varints are prefix-free: two starting at the same place have the same length |
| Cursor.ReadVarIntEncoded | Python/pcos.py:53-75 | reading the varint the writers emit for `v` gives back `v` and moves past it, whenever it fits the octet limit |
| Cursor.ReadVarIntTooLong | Java/src/main/com/pushcoin/lib/pcos/BlockReader.java:109-111 | a well-formed varint longer than the limit is refused |
| Cursor.NonMinimalAccepted | Java/src/main/com/pushcoin/lib/pcos/BlockReader.java:89-114 | the readers accept a non-minimal varint: 0x80 0x01 reads as 1, whose varint is the single octet 0x01 |
| Cursor.ReadUint | Java/src/main/com/pushcoin/lib/pcos/BlockReader.java:126-129 | a varint of at most five octets, so a value below 2^35; succeeds exactly when such a varint ends within reach (Python `read_uint`, pcos.py:345-346) |
| Cursor.ReadUintEncoded | Python/pcos.py:345-346 | every value below 2^35, written as a varint, reads back as itself |
| Cursor.ReadByteStr | Java/src/main/com/pushcoin/lib/pcos/BlockReader.java:75-81 | ArgOutOfRange exactly when the length prefix reads and exceeds a non-zero `maxlen`; on success the length prefix equals the length of the octets returned, which respect `maxlen`, and the cursor moves past both (Python `read_bytestr`/`read_string`, pcos.py:312-317, 371-375) |
| Cursor.ReadByteStrEncoded | Python/pcos.py:312-317 | a length-prefixed string within `maxlen` reads back as itself, with the cursor moved past it |
| Cursor.ReadByteStrTooLong | Python/pcos.py:373-374 | a length prefix above a non-zero `maxlen` is refused with ArgOutOfRange |
| BlockWriter.New | Java/src/main/java/com/pushcoin/lib/pcos/BlockWriter.java:41-46 | a block over its own buffer starts empty, under the given name |
| BlockWriter.NewOverStream | Java/src/main/java/com/pushcoin/lib/pcos/BlockWriter.java:35-39 | a block writing to a caller's stream starts empty and has no buffer of its own |
| BlockWriter.VarIntOctets | Java/src/main/java/com/pushcoin/lib/pcos/BlockWriter.java:162-197 | the octets `writeVarInt` emits: the reference varint for a non-negative long, and one octet holding the low eight bits for a negative one |
| BlockWriter.WriteVarInt | Java/src/main/java/com/pushcoin/lib/pcos/BlockWriter.java:162-197 | the buffer-filling loop emits exactly `VarIntOctets(val)`, which is one to nine octets |
| BlockWriter.StoreGroups | Java/src/main/java/com/pushcoin/lib/pcos/BlockWriter.java:164-176 | after the loop, the octets stored behind `pos` and the remaining group are the reference varint of the value; positive longs need at most nine octets |
| BlockWriter.WriteByte | Java/src/main/java/com/pushcoin/lib/pcos/BlockWriter.java:72-80 | appends the low eight bits of the int |
| BlockWriter.WriteBool | Java/src/main/java/com/pushcoin/lib/pcos/BlockWriter.java:61-69 | appends 1 for true and 0 for false |
| BlockWriter.WriteBytes | Java/src/main/java/com/pushcoin/lib/pcos/BlockWriter.java:83-90 | appends the octets verbatim |
| BlockWriter.WriteDouble | Java/src/main/java/com/pushcoin/lib/pcos/BlockWriter.java:93-100 | appends the eight-octet image of the double |
| BlockWriter.WriteUint | Java/src/main/java/com/pushcoin/lib/pcos/BlockWriter.java:140-143 | a non-negative value is appended as its varint; a negative one as the single octet of its low eight bits, since the varint loop never runs |
| BlockWriter.WriteUlong | Java/src/main/java/com/pushcoin/lib/pcos/BlockWriter.java:154-157 | a non-negative long is appended as its varint; a negative one is not read as unsigned, and only the single octet of its low eight bits is appended |
| BlockWriter.WriteInt | Java/src/main/java/com/pushcoin/lib/pcos/BlockWriter.java:132-137 | on [-2^30, 2^30) appends the varint of the zigzag code; any other int gives a negative code, whose low eight bits alone are appended |
| BlockWriter.WriteLong | Java/src/main/java/com/pushcoin/lib/pcos/BlockWriter.java:146-151 | on [-2^62, 2^62) appends the varint of the zigzag code; any other long gives a negative code, whose low eight bits alone are appended |
| BlockWriter.WriteIntUnsigned | Java/src/main/java/com/pushcoin/lib/pcos/BlockWriter.java:132-137 | the corrected `writeInt`: every int is appended as the varint of its zigzag code |
| BlockWriter.WriteLongUnsigned | Java/src/main/java/com/pushcoin/lib/pcos/BlockWriter.java:146-151 | the corrected `writeLong`: every long is appended as the varint of its zigzag code |
| BlockWriter.Unsigned64 | Java/src/main/java/com/pushcoin/lib/pcos/BlockWriter.java:154 | the unsigned 64-bit reading of a long: below 2^64, and it narrows back to the long |
| BlockWriter.WriteUlongUnsigned | Java/src/main/java/com/pushcoin/lib/pcos/BlockWriter.java:154-157 | the corrected `writeUlong`: a long is appended as the varint of its unsigned reading, as before for non-negative longs |
| BlockWriter.WriteByteStr | Java/src/main/java/com/pushcoin/lib/pcos/BlockWriter.java:103-113 | appends the length varint and then the octets; a null string appends the single octet 0 |
| BlockWriter.WriteString | Java/src/main/java/com/pushcoin/lib/pcos/BlockWriter.java:116-129 | a string's encoded octets are appended after the varint of their length; null appends the single octet 0 |
| BlockWriter.ToBytes | Java/src/main/java/com/pushcoin/lib/pcos/BlockWriter.java:200-206 | fails with InternalError exactly when the block writes to a caller's stream; otherwise gives everything written |
| BlockReader.ReadVarIntFrom | Java/src/main/com/pushcoin/lib/pcos/BlockReader.java:89-114 | the Java loop with its `long` accumulator gives a long, or MalformedMessage |
| BlockReader.ReadVarIntFromWraps | Java/src/main/com/pushcoin/lib/pcos/BlockReader.java:91-107 | the Java loop's result is the unbounded read's, wrapped to 64 bits, with the same cursor and the same failures |
| BlockReader.ReadVarInt | Java/src/main/com/pushcoin/lib/pcos/BlockReader.java:89-114 | Java's `readVarInt` is the shared varint read, wrapped to 64 bits |
| BlockReader.ReadDouble | Java/src/main/com/pushcoin/lib/pcos/BlockReader.java:84-87 | the next eight octets, or MalformedMessage exactly when fewer remain (Python `read_double`, pcos.py:367-368) |
| BlockReader.ReadingPosition | Java/src/main/com/pushcoin/lib/pcos/BlockReader.java:158-161 | the absolute index of the next unread octet in the whole input, not one relative to the block's start: the block's start plus the octets read so far; the unread octets of the block follow it |
| BlockReader.ReadUint | Java/src/main/com/pushcoin/lib/pcos/BlockReader.java:126-129 | within five octets the 64-bit accumulator never wraps, so Java's `readUint` is the shared unbounded read |
| BlockReader.ReadUlong | Java/src/main/com/pushcoin/lib/pcos/BlockReader.java:141-144 | succeeds exactly when a varint ends within ten octets, and gives a long |
| BlockReader.ReadInt | Java/src/main/com/pushcoin/lib/pcos/BlockReader.java:117-123 | succeeds exactly when `readUint` does, gives an int, and leaves the cursor where `readUint` does |
| BlockReader.ReadLong | Java/src/main/com/pushcoin/lib/pcos/BlockReader.java:132-138 | succeeds exactly when `readUlong` does, gives a long, and leaves the cursor where `readUlong` does |
| BlockReader.ReadLongUnsigned | Java/src/main/com/pushcoin/lib/pcos/BlockReader.java:132-138 | the corrected `readLong`, with a logical shift; same success condition and cursor as `readUlong` |
| BlockReader.CodeBelow64 | Java/src/main/com/pushcoin/lib/pcos/BlockReader.java:141-144 | the zigzag code of an integer is below 2^64 exactly when the integer is a long |
| JavaRoundTrip.ByteRoundTrip | Java/test/TestPcos.java:31 | `readByte` gives back the low eight bits `writeByte` stored |
| JavaRoundTrip.BoolRoundTrip | Java/test/TestPcos.java:33-34 | `readBool` gives back what `writeBool` stored |
| JavaRoundTrip.BytesRoundTrip | Java/test/TestPcos.java:32 | `readBytes(n)` gives back the `n` octets `writeBytes` stored |
| JavaRoundTrip.DoubleRoundTrip | Java/test/TestPcos.java:45 | `readDouble` gives back the eight-octet image `writeDouble` stored |
| JavaRoundTrip.ByteStrRoundTrip | Java/test/TestPcos.java:47 | a byte string within `maxlen` reads back as itself, with the cursor moved past prefix and octets |
| JavaRoundTrip.NullByteStrRoundTrip | Java/src/main/java/com/pushcoin/lib/pcos/BlockWriter.java:110-112 | a null byte string is written as the empty one and reads back as empty |
| JavaRoundTrip.ByteStrTooLong | Java/src/main/com/pushcoin/lib/pcos/BlockReader.java:78-79 | a written byte string longer than a non-zero `maxlen` is refused with ArgOutOfRange |
| JavaRoundTrip.UintRoundTrip | Java/test/TestPcos.java:36-37 | every value below 2^35 written by `writeUint` comes back from `readUint` |
| JavaRoundTrip.UintTooWide | Java/src/main/com/pushcoin/lib/pcos/BlockReader.java:128 | a long of 2^35 or more, written by `writeUint`, is refused by `readUint` |
| JavaRoundTrip.ReadUlongEncoded | Java/src/main/com/pushcoin/lib/pcos/BlockReader.java:141-144 | the varint of any value below 2^64 comes back from `readUlong` as that value narrowed to a long |
| JavaRoundTrip.UlongRoundTrip | Java/test/TestPcos.java:41-42 | every non-negative long written by `writeUlong` comes back from `readUlong` |
| JavaRoundTrip.UlongAsWrittenLoses | Java/src/main/java/com/pushcoin/lib/pcos/BlockWriter.java:154-157 | no negative long written by `writeUlong` as written comes back from `readUlong` |
| JavaRoundTrip.UlongUnsignedRoundTrip | Java/src/main/com/pushcoin/lib/pcos/BlockReader.java:141-144 | every long written by the corrected `writeUlong` comes back from `readUlong` |
| JavaRoundTrip.IntRoundTrip | Java/test/TestPcos.java:38-39 | every int, written as the varint of its zigzag code, comes back from `readInt` |
| JavaRoundTrip.LongAsWrittenLoses | Java/src/main/java/com/pushcoin/lib/pcos/BlockWriter.java:146-151 | no long outside [-2^62, 2^62) written by `writeLong` as written comes back from `readLong` |
| JavaRoundTrip.IntAsWrittenLoses | Java/src/main/java/com/pushcoin/lib/pcos/BlockWriter.java:132-137 | no int outside [-2^30, 2^30) written by `writeInt` as written comes back from `readInt` |
| JavaRoundTrip.IntAsWrittenExample | Java/src/main/java/com/pushcoin/lib/pcos/BlockWriter.java:135-136 | `writeInt(2^30)` emits the single octet 0, which is what `writeInt(0)` emits |
| JavaRoundTrip.LongRoundTrip | Java/test/TestPcos.java:43-44 | every long in [-2^62, 2^62), written as the varint of its zigzag code, comes back from `readLong` |
| JavaRoundTrip.ReadLongFlipsTopBit | Java/src/main/com/pushcoin/lib/pcos/BlockReader.java:137 | a code of 2^63 or more comes back from `readLong` with bit 63 flipped, so not as the long that was coded |
| JavaRoundTrip.WideLongCodes | Java/src/main/java/com/pushcoin/lib/pcos/BlockWriter.java:149 | the zigzag codes of 2^63 or more are exactly those of the longs outside [-2^62, 2^62) |
| JavaRoundTrip.ReadLongFlipsExample | Java/src/main/com/pushcoin/lib/pcos/BlockReader.java:132-138 | the code of 2^62 comes back from `readLong` as -2^62 |
| JavaRoundTrip.ReadLongUnsignedAt | Java/src/main/com/pushcoin/lib/pcos/BlockReader.java:135-137 | the corrected `readLong` un-zigzags every code below 2^64 |
| JavaRoundTrip.LongUnsignedRoundTrip | Java/src/main/java/com/pushcoin/lib/pcos/BlockWriter.java:146-151 | every long written by the corrected `writeLong` comes back from the corrected `readLong` |
| Document.MetasOf | Java/src/main/java/com/pushcoin/lib/pcos/DocumentWriter.java:87-94 | the directory has one record per block, in order, holding the block's name and size |
| Document.PayloadLength | Java/src/main/java/com/pushcoin/lib/pcos/DocumentWriter.java:55-62 | the payload is as long as the directory's lengths add up to |
| Document.ReadPair | Java/src/com/pushcoin/lib/pcos/DocumentReader.java:98-101 | a string then a `readUint` count: ArgOutOfRange exactly when the string's length prefix is above a non-zero `maxlen`; an accepted string is within it |
| Document.ReadRecord | Java/src/com/pushcoin/lib/pcos/DocumentReader.java:110-113 | a directory record has a name of at most 64 octets, and a length within the reader's cap; ArgOutOfRange exactly when the name is longer or the length is above the cap |
| Document.ReadMetas | Python/pcos.py:136-145 | reads exactly `n` records, each within the block-length cap; fails with MalformedMessage or ArgOutOfRange |
| Document.ReadPreamble | Java/src/com/pushcoin/lib/pcos/DocumentReader.java:87-101 | a successful read has a name of at most 128 octets and leaves the cursor further on |
| Document.ReadPreambleName | Java/src/com/pushcoin/lib/pcos/DocumentReader.java:98 | the preamble is refused with ArgOutOfRange exactly when, after the magic and the flags octet, the name's length prefix is above 128 |
| Document.ReadPreambleMagic | Java/src/com/pushcoin/lib/pcos/DocumentReader.java:89-91 | BadMagic exactly when four octets are there and they are not "PCOS"; fewer than four is MalformedMessage |
| Document.ReadHeader | Java/src/com/pushcoin/lib/pcos/DocumentReader.java:85-118 | the header holds as many records as its count, and the blocks start at or before the end of the input |
| Document.ReadHeaderChecks | Python/pcos.py:105-126 | the order of the checks: too short is MalformedMessage before the magic is looked at; then BadMagic exactly on a wrong magic; then the preamble's error is the header's, and a count above the cap is ArgOutOfRange; an accepted header has the magic, a name of at most 128 octets, and a count within the cap |
| Document.ReadHeaderCaps | Python/pcos.py:124-143 | compared with the same reader without caps: a count or a block length above its cap is ArgOutOfRange; within the caps the header is the same; a header refused without caps is refused with them, for the same reason or with ArgOutOfRange |
| Document.ReadMetasCaps | Python/pcos.py:136-145 | the same comparison for the record loop: a record above the length cap makes it ArgOutOfRange, records within it read the same |
| Document.Place | Python/pcos.py:152-160 | placing the records advances the offset by the sum of their lengths |
| Document.Fit | Python/pcos.py:162-163 | refuses with MalformedMessage exactly when the placed blocks would end past the input's length; an accepted document has every block inside the input |
| Document.Parse | Java/src/com/pushcoin/lib/pcos/DocumentReader.java:85-133 | header errors pass through unchanged; a good header is accepted exactly when the blocks fit; an accepted document lies inside its input |
| Document.PlaceInside | Python/pcos.py:152-163 | placed blocks lie between the start of the payload and the offset reached |
| Document.PlaceKeys | Python/pcos.py:157 | the parsed directory holds exactly the names of the records |
| Document.PlaceOutside | Python/pcos.py:157 | placing records leaves alone every name none of them carries |
| Document.PlaceLatest | Java/src/com/pushcoin/lib/pcos/DocumentReader.java:121-128 | when a name repeats, the last record with that name wins, and it lies where the preceding lengths put it |
| Document.ParseDirectory | Java/src/com/pushcoin/lib/pcos/DocumentReader.java:118-128 | a parsed document carries the header's name and count; its blocks are the records' names, each at its place behind the directory |
| Document.ReadHeaderOf | Java/src/com/pushcoin/lib/pcos/DocumentReader.java:87-114 | the header of any framed document the reader's limits admit reads back as the writer's flags, name, count and records |
| Document.FrameRoundTrip | Java/src/main/java/com/pushcoin/lib/pcos/DocumentWriter.java:68-103 | every framed document the reader's limits admit parses back with the flags, name and count written; its block names are the ones written, and each block's latest contents are the octets written |
| DocumentWriter.New | Java/src/main/java/com/pushcoin/lib/pcos/DocumentWriter.java:32-38 | refused with MalformedMessage exactly when the name is longer than 128; otherwise no block yet |
| DocumentWriter.AddBlock | Java/src/main/java/com/pushcoin/lib/pcos/DocumentWriter.java:47-50 | appends the block after the earlier ones, which stay as they were |
| DocumentWriter.ToBytes | Java/src/main/java/com/pushcoin/lib/pcos/DocumentWriter.java:68-103 | fails with InternalError exactly when some block writes to a caller's stream; otherwise gives the document's framing |
| DocumentWriter.WriteMetasDirectory | Java/src/main/java/com/pushcoin/lib/pcos/DocumentWriter.java:87-94 | the record loop appends exactly the directory of the blocks |
| DocumentWriter.WriteDataPayload | Java/src/main/java/com/pushcoin/lib/pcos/DocumentWriter.java:97-99 | the data loop fails exactly when some block has no buffer; otherwise it appends exactly the payload |
| DocumentReader.PlaceAsWritten | Java/src/com/pushcoin/lib/pcos/DocumentReader.java:121-128 | the running offset of the placement loop is the sum of the lengths, wrapped to 32 bits |
| DocumentReader.PlaceAndFit | Java/src/com/pushcoin/lib/pcos/DocumentReader.java:118-132 | refuses with MalformedMessage exactly when the wrapped end offset passes the length |
| DocumentReader.ParseAsWritten | Java/src/com/pushcoin/lib/pcos/DocumentReader.java:85-133 | `parseBytes` as written: the shared header reader with no caps, then the 32-bit placement and the fit check |
| DocumentReader.PlaceAgrees | Java/src/com/pushcoin/lib/pcos/DocumentReader.java:124-127 | while the offsets stay below 2^31, the 32-bit placement equals the unbounded one |
| DocumentReader.FitAgrees | Java/src/com/pushcoin/lib/pcos/DocumentReader.java:130-132 | while the end offset stays below 2^31, the 32-bit fit check equals the unbounded one |
| DocumentReader.AcceptedAgrees | Java/src/com/pushcoin/lib/pcos/DocumentReader.java:66-74 | on every input the unbounded reader accepts, `parseBytes` as written gives the same document |
| DocumentReader.NarrowingAccepts | Java/src/com/pushcoin/lib/pcos/DocumentReader.java:127-132 | when the 32-bit reader accepts what the unbounded one refuses, the lengths add up to 2^31 or more |
| DocumentReader.GetBlock | Java/src/com/pushcoin/lib/pcos/DocumentReader.java:77-83 | BlockNotFound exactly when the name is missing; otherwise a reader at the start of exactly that block's octets |
| DocumentReader.BlockAsWritten | Java/src/com/pushcoin/lib/pcos/DocumentReader.java:124 | the reader built from an extent begins at its offset and ends at offset plus length, wrapped to 32 bits |
| DocumentReader.DocumentRoundTrip | Java/test/TestPcos.java:28-88 | every document DocumentWriter writes, shorter than 2^31 octets, with names within limits, parses back with its name and count; `getBlock` of each block's name gives the block's octets |
| DocumentReader.NarrowingExample | Java/src/com/pushcoin/lib/pcos/DocumentReader.java:118-132 | a 17-octet input that `parseBytes` accepts, giving block "A" the length -2^31, while the unbounded reader refuses it |
| DocumentReader.WidePlaced | Java/src/com/pushcoin/lib/pcos/DocumentReader.java:121-128 | with lengths 2^31 and 1, the 32-bit running offset wraps to 18 - 2^31 |
| PyBlock.NewOutput | Python/pcos.py:228-234 | an output block starts empty, under its name |
| PyBlock.ToVarint | Python/pcos.py:53-75 | the loop, with its reversal, emits exactly the reference varint of a non-negative value; a negative value raises ValueError, from appending it to a bytearray |
| PyBlock.WriteByte | Python/pcos.py:413-416 | appends the value when it is an octet; any other value raises ValueError |
| PyBlock.WriteBool | Python/pcos.py:378-382 | appends 1 for true and 0 for false |
| PyBlock.WriteBytes | Python/pcos.py:419-422 | appends the octets verbatim |
| PyBlock.WriteDouble | Python/pcos.py:409-410 | appends the eight-octet image of the double |
| PyBlock.WriteCapped | Python/pcos.py:385-388 | a value above the cap raises InternalError; a negative one raises ValueError; any other is appended as its varint |
| PyBlock.WriteUint | Python/pcos.py:385-388 | accepted exactly below 2^32: larger is InternalError, negative is ValueError; appends the varint |
| PyBlock.WriteUlong | Python/pcos.py:397-400 | accepted exactly below 2^64: larger is InternalError, negative is ValueError; appends the varint |
| PyBlock.IntCode | Python/pcos.py:393 | `(val << 1) ^ (val >> 31)` is below 2^32 exactly for 32-bit values, and there it is the zigzag code |
| PyBlock.WriteInt | Python/pcos.py:391-394 | accepted exactly for 32-bit values (any other raises InternalError); appends the varint of the zigzag code |
| PyBlock.LongCode | Python/pcos.py:405 | `(val << 1) ^ (val >> 63)` is below 2^64 exactly for 64-bit values, and there it is the zigzag code |
| PyBlock.WriteLong | Python/pcos.py:403-406 | accepted exactly for 64-bit values (any other raises InternalError); appends the varint of the zigzag code |
| PyBlock.WriteByteStr | Python/pcos.py:425-432 | None appends the single octet 0; a string is accepted exactly when its length fits `write_uint`, and then appends its length varint and its octets |
| PyBlock.WriteString | Python/pcos.py:435-437 | a string's encoded octets are accepted exactly when their length fits `write_uint`, and are then appended length-prefixed |
| PyBlock.ReadingPosition | Python/pcos.py:286-287 | an index relative to the block's start, from which the unread octets of the block follow |
| PyBlock.ReadUlong | Python/pcos.py:356-357 | succeeds exactly when a varint ends within ten octets; the value is below 2^70 |
| PyBlock.ReadInt | Python/pcos.py:349-353 | succeeds exactly when `read_uint` does, and gives the integer whose zigzag code `read_uint` read |
| PyBlock.ReadLong | Python/pcos.py:360-364 | succeeds exactly when `read_ulong` does, and gives the integer whose zigzag code `read_ulong` read |
| PyBlock.UintRoundTrip | Python/pcos.py:519-520 | whatever `write_uint` accepts comes back from `read_uint` |
| PyBlock.UlongRoundTrip | Python/pcos.py:524-525 | whatever `write_ulong` accepts comes back from `read_ulong` |
| PyBlock.IntRoundTrip | Python/pcos.py:521-522 | whatever `write_int` accepts comes back from `read_int` |
| PyBlock.LongRoundTrip | Python/pcos.py:526-527 | whatever `write_long` accepts comes back from `read_long` |
| PyBlock.ByteStrRoundTrip | Python/pcos.py:530 | whatever `write_bytestr` accepts comes back from `read_bytestr` within `maxlen` |
| PyBlock.NoneByteStrRoundTrip | Python/pcos.py:427-429 | `write_bytestr(None)` reads back as the empty string |
| PyDoc.Parse | Python/pcos.py:97-163 | empty data is not parsed and gives an empty document; 1 to 7 octets are MalformedMessage; from 8 octets on, BadMagic exactly on a wrong magic; an accepted document lies inside its data, has at most 8 blocks and a name of at most 128 octets, and no block over 10240 octets; a name over 128 octets, a count over 8 or a block length over 10240 is ArgOutOfRange |
| PyDoc.ParseCapped | Python/pcos.py:107-143 | the shared reader under Python's limits refuses short inputs and wrong magics, caps the count, the name and each block length, and refuses a name over 128 octets, a count over 8 or a block over 10240 octets with ArgOutOfRange |
| PyDoc.Block | Python/pcos.py:166-176 | BlockNotFound exactly when the name is missing and the block is required; nothing exactly when it is missing and optional; otherwise a reader at the start of exactly that block's octets |
| PyDoc.ParseBlock | Python/pcos.py:440-454 | a reader at the start of exactly the raw octets given, under the block name given |
| PyDoc.New | Python/pcos.py:97-103 | a document to write, under its name, with no block |
| PyDoc.Add | Python/pcos.py:179-182 | the block is stored under its name, replacing one of the same name; every other block stays |
| PyDoc.AsBytes | Python/pcos.py:185-217 | the two loops over the dictionary write exactly the framing of its blocks, in the dictionary's order |
| PyDoc.AppendMetas | Python/pcos.py:205-212 | the record loop appends exactly the directory of the blocks |
| PyDoc.AppendData | Python/pcos.py:214-216 | the data loop appends exactly the payload of the blocks |
| PyDoc.RoundTrip | Python/pcos.py:498-531 | every document `as_bytearray` writes, within Python's limits and not empty, parses back with its name, block count and block names, and `block(name)` gives each block's octets |
| PyDoc.EmptyRejected | Python/pcos.py:107-108 | a document with an empty name and no block is written as 7 octets, and Python's own reader refuses that with MalformedMessage |
| PyDoc.FrameLength | Python/pcos.py:23 | only the empty document frames to fewer than 8 octets |
| PyVectors.PongDoc | Python/pcos.py:537-541 | the Pong document: block "Tm" holding 1335795040 as an unsigned long, in a document "Po" within Python's limits |
| PyVectors.ErrorDoc | Python/pcos.py:556-561 | the Error document: block "Bo" holding 100 and then "only a test", in a document "Er" within Python's limits |
| PyVectors.PongWritten | Python/pcos.py:544-549 | writing the Pong document gives the sample octets 50434f530002506f0102546d0584fcfaba60 |
| PyVectors.ErrorWritten | Python/pcos.py:564-568 | writing the Error document gives the sample octets 50434f53000245720102426f0d640b6f6e6c7920612074657374 |
| PyVectors.PongRead | Python/pcos.py:457-469 | the sample Pong parses, has block "Tm", and `read_ulong` there gives 1335795040 |
| PyVectors.EpochEncoded | Python/pcos.py:538 | the varint of 1335795040 is 84 fc fa ba 60 |
| Base16.TablesInverse | Python/base16.py:47-48 | the two tables are inverse: 16 distinct symbols, each mapped back to its value |
| Base16.Encode | Python/base16.py:52-57 | two symbols per octet, the high nibble's first |
| Base16.EncodeAlphabet | Python/base16.py:52-57 | `encode` writes only symbols of the alphabet |
| Base16.Octet | Python/base16.py:74 | a symbol pair stands for the octet whose high nibble is the first symbol's value and whose low nibble is the second's |
| Base16.Decode | Python/base16.py:59-75 | an odd length is refused; an even-length text is refused exactly when it holds a character outside the alphabet; otherwise each pair gives one octet |
| Base16.DecodeEncode | Python/base16.py:52-75 | decoding what `encode` writes gives back the octets |
| Base16.EncodeDecode | Python/base16.py:52-75 | encoding what `decode` accepts gives back the text |

## Left out

- Doubles are opaque eight-octet images. Java's `writeDouble`/`readDouble`
  and Python's `struct.pack("!d")`/`unpack` convert them to and from
  floating point; the model does not, because floating point is outside it.
- Text encoding: strings are their UTF-8 octets. `getBytes`, `new String`,
  `.encode("utf-8")` and `.decode("utf-8")` are the identity on octets. So
  are the BadCharEncoding paths they can raise.
- Java's `DocumentWriter` checks `name.length()` in UTF-16 units. The model
  compares the octet length instead.
- I/O: the stream exceptions of Java's `DataOutputStream` (turned into
  MalformedMessage) cannot happen on an in-memory buffer and are not
  modelled. A block writing to a caller's stream keeps its octets in the
  model, so that `toBytes` can fail exactly where Java's does.
- Python's dictionary iteration order is a parameter of `PyDoc.AsBytes`: any
  listing of the blocks, each once. Both loops of `as_bytearray` use it.
- `_datatype_test` writes its output to a file. The file I/O is left out; the
  values it checks are covered, type by type, by the round-trip lemmas.
- The base16 `randbytes` helper and command-line front end: randomness and
  I/O.
- `InputBlock.inspect`, `getMagic` and the other getters have no logic to
  model. Java's `BlockWriter.size()` and Python's `Block.size()` are the
  length of the octets written so far; `BlockWriter.Size` gives it to the
  document writer, and the Python side reads `|data|` directly.
- Python `Block.as_bytearray` is the `data` field in output mode and
  `Document.Contents` in input mode. Neither has a member of its own.
- Java's `getBlock` hands out one shared, stateful reader per block, so a
  second `getBlock` continues where the first left off. The model gives a
  fresh reader at the block's start.
- Java's `int` loop counter in `parseBytes` and the `(int)` cast of a block
  length: `BlockAsWritten` wraps the end offset. The counter comparison
  `i < blockCount_` is modelled as unbounded. Every record takes at least
  two octets of an input shorter than 2^31 octets, so a read fails before
  `i` could reach 2^31 - 1 and wrap.
- DocumentWriter.AddBlock and PyDoc.Add: they store the block's value as it
  is when added. Java's `blocks_.add(blk)` and Python's
  `self.blocks[block.name()] = block` keep a reference, so writes to a block
  after it is added still reach `toBytes` and `as_bytearray`. The model has
  no shared mutable state; it covers the order in which the source's own
  tests use the writers, which write every block before adding it.
- Python's `write_string(None)` raises AttributeError. The model's
  `PyBlock.WriteString` takes a string and has no None case.
- Cursor.ReadByte: gives the octet as 0..255. Java's `readByte` returns the
  signed byte with the same eight bits (octet - 256 from 0x80 on), and the
  model does not repeat that conversion.
- Cursor.ReadBytes: the length is a `nat`. Java's `readBytes(long)` with a
  negative length passes its bounds check and then `Arrays.copyOfRange`
  throws IllegalArgumentException; Python's `read_bytes` returns an empty
  slice and moves the offset backward. Neither is modelled. Within both libraries
  and their tests the length is never negative: a `readUint` value, a
  constant (4 for the magic, 8 for a double) or an array's length.
- Base16: the comment table at the top of `base16.py` (lines 21-39) lists 17
  symbols, including '3'. The code's tables at lines 47-48 have 16 symbols
  and no '3'. The model follows the code.

## Findings

| source | as written | input that shows it | evidently intended | confidence | as-written member | corrected member |
|---|---|---|---|---|---|---|
| Java/src/main/java/com/pushcoin/lib/pcos/BlockWriter.java:132-137 | `writeInt` computes the zigzag code in 32-bit `int` arithmetic. For values outside [-2^30, 2^30) the code overflows to a negative `int`, and `writeVarInt` writes a negative value as one octet | `writeInt(2^30)` emits the single octet 0x00, which `readInt` reads as 0 | every int written as the varint of its unsigned 32-bit zigzag code | not executed | JavaRoundTrip.IntAsWrittenLoses | JavaRoundTrip.IntRoundTrip |
| Java/src/main/java/com/pushcoin/lib/pcos/BlockWriter.java:146-151 | `writeLong` computes the zigzag code in 64-bit `long` arithmetic. Outside [-2^62, 2^62) it overflows and is written as one octet. Codes of 2^63 and more, read by `readLong` (BlockReader.java:137), come back with bit 63 flipped by the arithmetic shift | a varint holding the zigzag code of 2^62 reads back through `readLong` as -2^62 | every long written as the varint of its unsigned 64-bit zigzag code, and read back with a logical shift | not executed | JavaRoundTrip.ReadLongFlipsExample | JavaRoundTrip.LongUnsignedRoundTrip |
| Java/src/main/java/com/pushcoin/lib/pcos/BlockWriter.java:154-157 | `writeUlong` passes its `long` to `writeVarInt`, which writes a negative value as one octet. So no negative long comes back | `writeUlong(-1)` emits one octet 0xff, which `readUlong` does not read as -1 | a long written as the varint of its unsigned 64-bit reading | not executed | JavaRoundTrip.UlongAsWrittenLoses | JavaRoundTrip.UlongUnsignedRoundTrip |
| Java/src/com/pushcoin/lib/pcos/DocumentReader.java:118-132 | `block_offset` is an `int`, and `block_offset += blk.length` narrows the `long` sum to 32 bits. Lengths adding up past 2^31 wrap the offset, so the fit check passes and a block gets a negative length | a 17-octet header with records "A" of length 2^31 and "B" of length 1: accepted, with "A" at offset 17 and length -2^31 | offsets computed without overflow, so the fit check refuses blocks that do not fit | not executed | DocumentReader.NarrowingExample | Document.Parse |
