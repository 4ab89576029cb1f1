/**
 * The bounds-checked read cursor shared by both implementations: Java's
 * BlockReader and Python's Block in input mode run the same checks over a
 * range `[beg, end)` of one byte array. This module holds the reads whose
 * results are the same in both languages.
 */
module Cursor {
  import opened Bytes
  import opened Errors
  import opened Varint

  /**
   * A cursor at `offset` over `input[beg..end)`. `name` is the block name,
   * kept for diagnostics only.
   */
  datatype Source = Source(octets: seq<byte>)

  datatype Reader = Reader(src: Source, beg: int, end: int, offset: int, name: seq<byte>) {
    const input: seq<byte> := src.octets

    /** The cursor lies within its range and the range within the input. */
    predicate Valid() {
      0 <= beg <= offset <= end <= |input|
    }

    /** `size()`: the length of the range, wherever the cursor stands. */
    function Size(): int {
      end - beg
    }
  }

  /** `r'` is `r` with its cursor `n` octets further on, still valid. */
  predicate Moved(r: Reader, r': Reader, n: int) {
    && r'.src == r.src && r'.beg == r.beg && r'.end == r.end && r'.name == r.name
    && r'.offset == r.offset + n && r'.Valid()
  }

  /** A fresh cursor at the start of `input[beg..beg + len)`, as both constructors build it. */
  function Open(input: seq<byte>, beg: int, len: int, name: seq<byte>): (r: Reader)
    requires 0 <= beg && 0 <= len && beg + len <= |input|
    ensures r.Valid() && r.offset == r.beg == beg && r.Size() == len
  {
    Reader(Source(input), beg, beg + len, beg, name)
  }

  /** `readByte`: the octet under the cursor; fails with MalformedMessage exactly when the cursor is at the end. */
  function ReadByte(r: Reader): (res: Result<(byte, Reader), ErrorCode>)
    requires r.Valid()
    ensures res.Err? <==> r.offset == r.end
    ensures res.Err? ==> res.error == MalformedMessage
    ensures res.Ok? ==> res.value.0 == r.input[r.offset] && Moved(r, res.value.1, 1)
  {
    if r.end - r.offset > 0 then Ok((r.input[r.offset], r.(offset := r.offset + 1)))
    else Err(MalformedMessage)
  }

  /** `readBool`: one octet, true when it is non-zero. */
  function ReadBool(r: Reader): (res: Result<(bool, Reader), ErrorCode>)
    requires r.Valid()
    ensures res.Err? <==> r.offset == r.end
    ensures res.Ok? ==> res.value.0 == (r.input[r.offset] != 0) && Moved(r, res.value.1, 1)
  {
    var p :- ReadByte(r);
    Ok((p.0 != 0, p.1))
  }

  /**
   * `readBytes(n)`: the next `n` octets verbatim, or MalformedMessage when
   * fewer than `n` remain before the end of the range.
   */
  function ReadBytes(r: Reader, n: nat): (res: Result<(seq<byte>, Reader), ErrorCode>)
    requires r.Valid()
    ensures res.Err? <==> r.end - r.offset < n
    ensures res.Err? ==> res.error == MalformedMessage
    ensures res.Ok? ==> res.value.0 == r.input[r.offset..r.offset + n] && Moved(r, res.value.1, n)
  {
    if r.end - r.offset >= n then Ok((r.input[r.offset..r.offset + n], r.(offset := r.offset + n)))
    else Err(MalformedMessage)
  }

  /**
   * An octet with 0x80 clear lies within the first `k` octets before the
   * end: the condition under which the loop of `readVarInt` stops on its own.
   */
  predicate Terminated(r: Reader, k: nat)
    requires r.Valid()
    decreases k
  {
    && k > 0
    && r.offset < r.end
    && (r.input[r.offset] < 0x80 || Terminated(r.(offset := r.offset + 1), k - 1))
  }

  /** An octet with 0x80 clear at `j`, within the first `k` before the end, makes `r` terminated. */
  lemma {:induction false} TerminatedWitness(r: Reader, k: nat, j: int)
    requires r.Valid() && r.offset <= j < r.end && j < r.offset + k && r.input[j] < 0x80
    ensures Terminated(r, k)
    decreases k
  {
    if r.input[r.offset] >= 0x80 {
      TerminatedWitness(r.(offset := r.offset + 1), k - 1, j);
    }
  }

  /** A terminated cursor has an octet with 0x80 clear within the first `k` before the end. */
  lemma {:induction false} TerminatedAt(r: Reader, k: nat) returns (j: int)
    requires r.Valid() && Terminated(r, k)
    ensures r.offset <= j < r.end && j < r.offset + k && r.input[j] < 0x80
    decreases k
  {
    if r.input[r.offset] < 0x80 {
      j := r.offset;
    } else {
      j := TerminatedAt(r.(offset := r.offset + 1), k - 1);
    }
  }

  /**
   * `r'` is `r` moved over one complete varint of at most `k` octets: it
   * stopped at the first octet with 0x80 clear.
   */
  predicate ConsumedVarInt(r: Reader, r': Reader, k: nat)
    requires r.Valid()
  {
    && Moved(r, r', r'.offset - r.offset)
    && r.offset < r'.offset <= r.offset + k
    && WellFormed(r.input[r.offset..r'.offset])
  }

  /**
   * The loop of `readVarInt` with an unbounded accumulator `val`: read an
   * octet, `val |= octet & 0x7f` (the low seven bits of `val` are clear, so
   * this adds), stop if 0x80 is clear, otherwise `val <<= 7` and go on while
   * octets remain in the cap. What it consumes and computes is stated by
   * `ReadVarIntFromConsumes`.
   */
  function ReadVarIntFrom(r: Reader, maxOctets: nat, val: nat): (res: Result<(nat, Reader), ErrorCode>)
    requires r.Valid() && val % 0x80 == 0
    ensures res.Ok? <==> Terminated(r, maxOctets)
    ensures res.Err? ==> res.error == MalformedMessage
    ensures res.Ok? ==> Moved(r, res.value.1, res.value.1.offset - r.offset)
    ensures res.Ok? ==> r.offset < res.value.1.offset <= r.offset + maxOctets
    decreases maxOctets
  {
    if maxOctets == 0 then Err(MalformedMessage)
    else
      var p :- ReadByte(r);
      var octet, r1 := p.0, p.1;
      var val1 := val + octet % 0x80;
      if octet < 0x80 then Ok((val1, r1))
      else ReadVarIntFrom(r1, maxOctets - 1, val1 * 0x80)
  }

  /**
   * A successful loop has moved over one well-formed varint and returned the
   * value of its groups appended below the groups already in `val`.
   */
  lemma {:induction false} ReadVarIntFromConsumes(r: Reader, k: nat, val: nat)
    requires r.Valid() && val % 0x80 == 0
    ensures ReadVarIntFrom(r, k, val).Ok? ==>
              && ConsumedVarInt(r, ReadVarIntFrom(r, k, val).value.1, k)
              && ReadVarIntFrom(r, k, val).value.0
                 == Fold(val / 0x80, r.input[r.offset..ReadVarIntFrom(r, k, val).value.1.offset])
    decreases k
  {
    if k > 0 && r.offset < r.end {
      if r.input[r.offset] < 0x80 {
        LastOctet(r, k, val);
      } else {
        var r1 := r.(offset := r.offset + 1);
        var val1 := val + r.input[r.offset] % 0x80;
        NextOctet(r, k, val);
        ReadVarIntFromConsumes(r1, k - 1, val1 * 0x80);
        MoreOctets(r, k, val, ReadVarIntFrom(r1, k - 1, val1 * 0x80));
      }
    }
  }

  /** The loop's exit: the octet under the cursor has 0x80 clear. */
  lemma LastOctet(r: Reader, k: nat, val: nat)
    requires r.Valid() && val % 0x80 == 0 && k >= 1
    requires r.offset < r.end && r.input[r.offset] < 0x80
    ensures ReadVarIntFrom(r, k, val) == Ok((val + r.input[r.offset], r.(offset := r.offset + 1)))
    ensures ConsumedVarInt(r, r.(offset := r.offset + 1), k)
    ensures val + r.input[r.offset] % 0x80 == Fold(val / 0x80, r.input[r.offset..r.offset + 1])
  {
    assert r.input[r.offset..r.offset + 1] == [r.input[r.offset]];
  }

  /** The loop's continuation: an octet with 0x80 set hands the rest to the next iteration. */
  lemma NextOctet(r: Reader, k: nat, val: nat)
    requires r.Valid() && val % 0x80 == 0 && k >= 1
    requires r.offset < r.end && r.input[r.offset] >= 0x80
    ensures ReadVarIntFrom(r, k, val)
            == ReadVarIntFrom(r.(offset := r.offset + 1), k - 1, (val + r.input[r.offset] % 0x80) * 0x80)
  {
  }

  /** What the next iteration consumed and computed, extended by the octet under the cursor. */
  lemma MoreOctets(r: Reader, k: nat, val: nat, res: Result<(nat, Reader), ErrorCode>)
    requires r.Valid() && val % 0x80 == 0 && k >= 1
    requires r.offset < r.end && r.input[r.offset] >= 0x80
    requires
      var r1 := r.(offset := r.offset + 1);
      && (res.Ok? ==> ConsumedVarInt(r1, res.value.1, k - 1))
      && (res.Ok? ==> res.value.0 == Fold(val / 0x80 * 0x80 + r.input[r.offset] % 0x80, r1.input[r1.offset..res.value.1.offset]))
    ensures res.Ok? ==> ConsumedVarInt(r, res.value.1, k)
    ensures res.Ok? ==> res.value.0 == Fold(val / 0x80, r.input[r.offset..res.value.1.offset])
  {
    var r1 := r.(offset := r.offset + 1);
    if res.Ok? {
      var r' := res.value.1;
      var tail := r.input[r1.offset..r'.offset];
      assert r.input[r.offset..r'.offset] == [r.input[r.offset]] + tail;
      assert ([r.input[r.offset]] + tail)[1..] == tail;
    }
  }

  /**
   * `readVarInt(k)`: succeeds exactly when an octet with 0x80 clear comes
   * within `k` octets and before the end, and moves past it.
   */
  function ReadVarInt(r: Reader, maxOctets: nat): (res: Result<(nat, Reader), ErrorCode>)
    requires r.Valid()
    ensures res.Ok? <==> Terminated(r, maxOctets)
    ensures res.Err? ==> res.error == MalformedMessage
    ensures res.Ok? ==> Moved(r, res.value.1, res.value.1.offset - r.offset)
    ensures res.Ok? ==> r.offset < res.value.1.offset <= r.offset + maxOctets
  {
    ReadVarIntFrom(r, maxOctets, 0)
  }

  /**
   * `readVarInt(k)` consumes one well-formed varint and returns the value of
   * its seven-bit groups, most significant first.
   */
  lemma ReadVarIntConsumes(r: Reader, k: nat)
    requires r.Valid()
    ensures ReadVarInt(r, k).Ok? ==>
              && ConsumedVarInt(r, ReadVarInt(r, k).value.1, k)
              && ReadVarInt(r, k).value.0 == Fold(0, r.input[r.offset..ReadVarInt(r, k).value.1.offset])
  {
    ReadVarIntFromConsumes(r, k, 0);
  }

  /** Two well-formed varints, one starting where the other starts, are the same. */
  lemma WellFormedUnique(input: seq<byte>, off: int, n: int, m: int)
    requires 0 <= off && 0 <= n && 0 <= m && off + n <= |input| && off + m <= |input|
    requires WellFormed(input[off..off + n]) && WellFormed(input[off..off + m])
    ensures n == m
  {
    if n < m {
      NoWellFormedPrefix(input, off, n, m);
    } else if m < n {
      NoWellFormedPrefix(input, off, m, n);
    }
  }

  /** A well-formed varint is not a proper prefix of another: its last octet would have to carry 0x80. */
  lemma NoWellFormedPrefix(input: seq<byte>, off: int, n: int, m: int)
    requires 0 <= off && 0 <= n < m && off + m <= |input|
    ensures !(WellFormed(input[off..off + n]) && WellFormed(input[off..off + m]))
  {
    if n > 0 {
      assert input[off..off + n][n - 1] == input[off..off + m][n - 1];
    }
  }

  /** The reader's next octets, all before the end of its range, are `s`. */
  predicate Ahead(r: Reader, s: seq<byte>) {
    r.Valid() && r.offset + |s| <= r.end && Matches(r.input, r.offset, s)
  }

  /** The octets of `input` from `off` on begin with `s`, compared one octet at a time. */
  predicate Matches(input: seq<byte>, off: int, s: seq<byte>)
    decreases |s|
  {
    && 0 <= off && off + |s| <= |input|
    && (s != [] ==> input[off] == s[0] && Matches(input, off + 1, s[1..]))
  }

  /** `Matches` is a hit: the slice of `input` at `off` is `s`, and conversely. */
  lemma {:induction false} MatchesAt(input: seq<byte>, off: int, s: seq<byte>)
    ensures Matches(input, off, s) <==> At(input, off, s)
    decreases |s|
  {
    if s != [] && 0 <= off && off + |s| <= |input| {
      MatchesAt(input, off + 1, s[1..]);
      assert input[off..off + |s|] == [input[off]] + input[off + 1..off + 1 + |s[1..]|];
      assert s == [s[0]] + s[1..];
    }
  }

  /** `Ahead` is a hit of `s` in the input at the cursor. */
  lemma AheadAt(r: Reader, s: seq<byte>)
    requires Ahead(r, s)
    ensures At(r.input, r.offset, s)
  {
    MatchesAt(r.input, r.offset, s);
  }

  /** Octets ahead that are a concatenation: the first part is ahead, and the second once past the first. */
  lemma AheadSplit(r: Reader, a: seq<byte>, b: seq<byte>, r': Reader)
    requires Ahead(r, a + b) && Moved(r, r', |a|)
    ensures Ahead(r, a) && Ahead(r', b)
  {
    MatchesAt(r.input, r.offset, a + b);
    MatchesAt(r.input, r.offset, a);
    MatchesAt(r.input, r.offset + |a|, b);
    AtSplit(r.input, r.offset, a, b);
  }

  /** A fresh cursor over `a + c` has `a` ahead of it. */
  lemma AheadPrefix(input: seq<byte>, a: seq<byte>, c: seq<byte>, name: seq<byte>)
    requires input == a + c
    ensures Ahead(Open(input, 0, |input|, name), a)
  {
    assert input[0..|a|] == a;
    MatchesAt(input, 0, a);
  }

  /** A cursor opened over an input made of three parts sees the first, and past it the second, ahead. */
  lemma AheadOpen(input: seq<byte>, a: seq<byte>, b: seq<byte>, c: seq<byte>, name: seq<byte>) returns (r1: Reader)
    requires input == a + b + c
    ensures Ahead(Open(input, 0, |input|, name), a)
    ensures Moved(Open(input, 0, |input|, name), r1, |a|) && Ahead(r1, b)
  {
    assert input[0..|a|] == a;
    assert input[|a|..|a| + |b|] == b;
    MatchesAt(input, 0, a);
    MatchesAt(input, |a|, b);
    r1 := Open(input, 0, |input|, name).(offset := |a|);
  }

  /** The cursor `n` octets further on, within the range. */
  lemma Advance(r: Reader, n: int) returns (r': Reader)
    requires r.Valid() && 0 <= n && r.offset + n <= r.end
    ensures Moved(r, r', n)
  {
    r' := r.(offset := r.offset + n);
  }

  /** A moved cursor differs from the original in its offset alone. */
  lemma MovedUpdate(r: Reader, r': Reader, n: int)
    requires Moved(r, r', n)
    ensures r' == r.(offset := r.offset + n)
  {
  }

  /**
   * Reading where `Encode(v)` lies recovers `v` and consumes exactly the
   * encoded octets, provided they fit before the end and within the cap.
   */
  lemma ReadVarIntEncoded(r: Reader, v: nat, k: nat)
    requires Ahead(r, Encode(v)) && |Encode(v)| <= k
    ensures ReadVarInt(r, k) == Ok((v, r.(offset := r.offset + |Encode(v)|)))
  {
    var e := Encode(v);
    AheadAt(r, e);
    EncodeWellFormed(v);
    ReadVarIntWellFormed(r, |e|, k);
  }

  /** Where the next `n` octets, within the cap, make a well-formed varint, `readVarInt(k)` reads exactly them. */
  lemma ReadVarIntWellFormed(r: Reader, n: int, k: nat)
    requires r.Valid() && 1 <= n <= k && r.offset + n <= r.end
    requires WellFormed(r.input[r.offset..r.offset + n])
    ensures ReadVarInt(r, k) == Ok((Fold(0, r.input[r.offset..r.offset + n]), r.(offset := r.offset + n)))
  {
    var j := r.offset + n - 1;
    assert r.input[j] == r.input[r.offset..r.offset + n][n - 1];
    TerminatedWitness(r, k, j);
    ReadVarIntConsumes(r, k);
    var r' := ReadVarInt(r, k).value.1;
    WellFormedUnique(r.input, r.offset, r'.offset - r.offset, n);
  }

  /**
   * Where a well-formed varint longer than the cap lies, `readVarInt(k)`
   * fails: the octets it could stop after all carry 0x80.
   */
  lemma ReadVarIntTooLong(r: Reader, s: seq<byte>, k: nat)
    requires Ahead(r, s) && WellFormed(s) && |s| > k
    ensures ReadVarInt(r, k).Err?
  {
    AheadAt(r, s);
    ReadVarIntConsumes(r, k);
    var res := ReadVarInt(r, k);
    if res.Ok? {
      NoWellFormedPrefix(r.input, r.offset, res.value.1.offset - r.offset, |s|);
      assert false;
    }
  }

  /** `readUint`: a varint of at most five octets, so below 2^35. */
  function ReadUint(r: Reader): (res: Result<(nat, Reader), ErrorCode>)
    requires r.Valid()
    ensures res.Ok? <==> Terminated(r, 5)
    ensures res.Err? ==> res.error == MalformedMessage
    ensures res.Ok? ==> Moved(r, res.value.1, res.value.1.offset - r.offset)
    ensures res.Ok? ==> r.offset < res.value.1.offset <= r.offset + 5 && res.value.0 < 0x8_0000_0000
  {
    FiveOctetsBound(r);
    ReadVarInt(r, 5)
  }

  /** A varint of at most five octets is below 2^35. */
  lemma FiveOctetsBound(r: Reader)
    requires r.Valid()
    ensures ReadVarInt(r, 5).Ok? ==> ReadVarInt(r, 5).value.0 < 0x8_0000_0000
  {
    ReadVarIntConsumes(r, 5);
    if ReadVarInt(r, 5).Ok? {
      var s := r.input[r.offset..ReadVarInt(r, 5).value.1.offset];
      FoldBound(s);
      Pow128Monotone(|s|, 5);
      Pow128Constants();
    }
  }

  /** Reading where `Encode(v)` lies, for `v` below 2^35, gives `v` and moves over the encoding. */
  lemma ReadUintEncoded(r: Reader, v: nat)
    requires Ahead(r, Encode(v)) && v < 0x8_0000_0000
    ensures ReadUint(r) == Ok((v, r.(offset := r.offset + |Encode(v)|)))
  {
    EncodeSizes(v);
    ReadVarIntEncoded(r, v, 5);
  }

  /**
   * `readByteStr(maxlen)`: a `readUint` length, ArgOutOfRange when `maxlen`
   * is non-zero and the length exceeds it, then exactly that many octets.
   * Java's `readString` and both of Python's `read_bytestr` and
   * `read_string` share these octets (the text decoding is left out).
   */
  function ReadByteStr(r: Reader, maxlen: int): (res: Result<(seq<byte>, Reader), ErrorCode>)
    requires r.Valid()
    ensures res.Err? && res.error == ArgOutOfRange <==>
              ReadUint(r).Ok? && maxlen != 0 && ReadUint(r).value.0 > maxlen
    ensures res.Err? ==> res.error == MalformedMessage || res.error == ArgOutOfRange
    ensures res.Ok? ==> maxlen == 0 || |res.value.0| <= maxlen
    ensures res.Ok? ==> ReadUint(r).Ok? && ReadUint(r).value.0 == |res.value.0|
    ensures res.Ok? ==> Moved(r, res.value.1, ReadUint(r).value.1.offset - r.offset + |res.value.0|)
  {
    var p :- ReadUint(r);
    var (length, r1) := p;
    if maxlen != 0 && length > maxlen then Err(ArgOutOfRange)
    else ReadBytes(r1, length)
  }

  /** A length prefix followed by that many octets reads back as those octets when the length is within `maxlen`. */
  lemma ReadByteStrEncoded(r: Reader, s: seq<byte>, maxlen: int)
    requires Ahead(r, Encode(|s|) + s) && |s| < 0x8_0000_0000
    requires maxlen == 0 || |s| <= maxlen
    ensures ReadByteStr(r, maxlen) == Ok((s, r.(offset := r.offset + |Encode(|s|) + s|)))
  {
    var e := Encode(|s|);
    AheadSplit(r, e, s, r.(offset := r.offset + |e|));
    ReadUintEncoded(r, |s|);
    ReadByteStrAfterLength(r, maxlen, s, |e|);
  }

  /** Once `readUint` has read `|s|` over `n` octets, `readByteStr` returns the `s` that follows. */
  lemma ReadByteStrAfterLength(r: Reader, maxlen: int, s: seq<byte>, n: nat)
    requires r.Valid() && ReadUint(r) == Ok((|s|, r.(offset := r.offset + n)))
    requires maxlen == 0 || |s| <= maxlen
    requires Ahead(r.(offset := r.offset + n), s)
    ensures ReadByteStr(r, maxlen) == Ok((s, r.(offset := r.offset + n + |s|)))
  {
    var r1 := r.(offset := r.offset + n);
    ReadBytesAt(r1, s);
    ReadByteStrOf(r, maxlen, r1, s, r1.(offset := r1.offset + |s|));
  }

  /** `readBytes` over octets that lie before the end returns them. */
  lemma ReadBytesAt(r: Reader, s: seq<byte>)
    requires Ahead(r, s)
    ensures ReadBytes(r, |s|) == Ok((s, r.(offset := r.offset + |s|)))
  {
    AheadAt(r, s);
  }

  /** `ReadUintEncoded`, with the cursor after the encoding given as any cursor moved that far. */
  lemma ReadUintTo(r: Reader, v: nat, r': Reader)
    requires Ahead(r, Encode(v)) && v < 0x8_0000_0000 && Moved(r, r', |Encode(v)|)
    ensures ReadUint(r) == Ok((v, r'))
  {
    MovedUpdate(r, r', |Encode(v)|);
    ReadUintEncoded(r, v);
  }

  /** `ReadByteStrEncoded`, with the cursor after the string given as any cursor moved that far. */
  lemma ReadByteStrTo(r: Reader, s: seq<byte>, maxlen: int, r': Reader)
    requires Ahead(r, Encode(|s|) + s) && |s| < 0x8_0000_0000 && Moved(r, r', |Encode(|s|) + s|)
    requires maxlen == 0 || |s| <= maxlen
    ensures ReadByteStr(r, maxlen) == Ok((s, r'))
  {
    MovedUpdate(r, r', |Encode(|s|) + s|);
    ReadByteStrEncoded(r, s, maxlen);
  }

  /** `readByteStr` is `readUint`, the cap check and `readBytes`, one after the other. */
  lemma ReadByteStrOf(r: Reader, maxlen: int, r1: Reader, s: seq<byte>, r2: Reader)
    requires r.Valid() && ReadUint(r) == Ok((|s|, r1)) && (maxlen == 0 || |s| <= maxlen)
    requires r1.Valid() && ReadBytes(r1, |s|) == Ok((s, r2))
    ensures ReadByteStr(r, maxlen) == Ok((s, r2))
  {
  }

  /** A declared length above a non-zero `maxlen` fails with ArgOutOfRange, whatever follows the prefix. */
  lemma ReadByteStrTooLong(r: Reader, n: nat, maxlen: int)
    requires Ahead(r, Encode(n)) && n < 0x8_0000_0000
    requires maxlen != 0 && n > maxlen
    ensures ReadByteStr(r, maxlen) == Err(ArgOutOfRange)
  {
    ReadUintEncoded(r, n);
  }

  /**
   * A varint with a redundant leading group is accepted: the octets 0x80 0x01
   * read as 1 over two octets, while 1 is written as the single octet 0x01.
   */
  lemma NonMinimalAccepted(r: Reader)
    requires r.Valid() && r.end - r.offset >= 2
    requires r.input[r.offset] == 0x80 && r.input[r.offset + 1] == 0x01
    ensures ReadVarInt(r, 5) == Ok((1, r.(offset := r.offset + 2)))
    ensures Encode(1) == [0x01]
  {
    var r1 := r.(offset := r.offset + 1);
    assert ReadVarIntFrom(r, 5, 0) == ReadVarIntFrom(r1, 4, 0);
    LastOctet(r1, 4, 0);
  }
}
