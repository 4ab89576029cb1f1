/** Octets, octet strings and the framing constants of the protocol. */
module Bytes {

  /** One octet, as an unsigned value. */
  type byte = b: int | 0 <= b < 0x100

  /** `input` holds `s` starting at position `off`. */
  predicate At(input: seq<byte>, off: int, s: seq<byte>) {
    0 <= off && off + |s| <= |input| && input[off..off + |s|] == s
  }

  /** A hit on a concatenation is a hit on each part, one after the other. */
  lemma AtSplit(input: seq<byte>, off: int, a: seq<byte>, b: seq<byte>)
    requires At(input, off, a + b)
    ensures At(input, off, a)
    ensures At(input, off + |a|, b)
  {
    assert input[off..off + |a|] == (a + b)[..|a|];
    assert input[off + |a|..off + |a| + |b|] == (a + b)[|a|..];
  }

  /** The elements of `s` in the opposite order. */
  function Reverse<T>(s: seq<T>): (r: seq<T>)
    ensures |r| == |s|
    ensures forall i :: 0 <= i < |s| ==> r[i] == s[|s| - 1 - i]
  {
    seq(|s|, i requires 0 <= i < |s| => s[|s| - 1 - i])
  }

  /** Appending to `s` prepends to its reversal. */
  lemma ReverseSnoc<T>(s: seq<T>, x: T)
    ensures Reverse(s + [x]) == [x] + Reverse(s)
  {
    assert forall i :: 0 <= i < |s| + 1 ==> Reverse(s + [x])[i] == ([x] + Reverse(s))[i];
  }

  /** Concatenation is associative. */
  lemma AppendAssoc<T>(a: seq<T>, b: seq<T>, c: seq<T>)
    ensures (a + b) + c == a + (b + c)
  {
  }

  /** The characters of an ASCII string as octets. */
  function Ascii(s: string): (r: seq<byte>)
    requires forall i :: 0 <= i < |s| ==> s[i] as int < 0x80
    ensures |r| == |s|
  {
    seq(|s|, i requires 0 <= i < |s| => s[i] as int)
  }
}

/** Constants of the protocol (magic, flags and name limits). */
module ProtocolTag {
  import opened Bytes

  const MAX_MESSAGE_ID_LEN: int := 128
  const MAX_BLOCK_ID_LENGTH: int := 64
  const MIN_MESSAGE_LENGTH: int := 7
  /** "PCOS" in ASCII. */
  const PROTOCOL_MAGIC: seq<byte> := [0x50, 0x43, 0x4f, 0x53]
  const PROTOCOL_MAGIC_LEN: int := 4
  const PROTOCOL_FLAGS: byte := 0x00
}
