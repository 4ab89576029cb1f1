/**
 * PCOS-16: each octet written as two symbols of a 16-letter alphabet, the
 * high nibble first, and read back from such text.
 */
module Base16 {
  import opened Bytes
  import opened Errors

  /** The symbol of each nibble value, `val_to_symbol`. */
  const SYMBOLS: seq<char> := ['A', 'C', 'E', 'F', 'H', 'K', 'L', 'N', 'P', 'R', 'T', 'X', 'Y', '4', '5', '7']

  /** The nibble value of each symbol, `symbol_to_val`. */
  const VALUES: map<char, nat> :=
    map['A' := 0, 'C' := 1, 'E' := 2, 'F' := 3, 'H' := 4, 'K' := 5, 'L' := 6, 'N' := 7,
        'P' := 8, 'R' := 9, 'T' := 10, 'X' := 11, 'Y' := 12, '4' := 13, '5' := 14, '7' := 15]

  /** Why `decode` raises TypeError: an odd length, or a character outside the alphabet. */
  datatype Failure = WrongLength | NotInAlphabet

  /** The two tables are inverse to each other: the alphabet has 16 distinct symbols. */
  lemma TablesInverse()
    ensures |SYMBOLS| == 16
    ensures forall v :: 0 <= v < 16 ==> SYMBOLS[v] in VALUES && VALUES[SYMBOLS[v]] == v
    ensures forall c :: c in VALUES ==> VALUES[c] < 16 && SYMBOLS[VALUES[c]] == c
  {
  }

  /**
   * `encode(bytestr)`: two symbols per octet, the one of its high nibble and
   * then the one of its low nibble, so only alphabet symbols.
   */
  function Encode(b: seq<byte>): (s: string)
    ensures |s| == 2 * |b|
    ensures forall i :: 0 <= i < |b| ==> s[2 * i] == SYMBOLS[b[i] / 16] && s[2 * i + 1] == SYMBOLS[b[i] % 16]
    decreases |b|
  {
    if b == [] then []
    else
      var rest := Encode(b[1..]);
      var s := [SYMBOLS[b[0] / 16], SYMBOLS[b[0] % 16]] + rest;
      assert forall i :: 1 <= i < |b| ==> s[2 * i] == rest[2 * (i - 1)] && s[2 * i + 1] == rest[2 * (i - 1) + 1];
      s
  }

  /** `encode` writes only symbols of the alphabet. */
  lemma EncodeAlphabet(b: seq<byte>)
    ensures forall k :: 0 <= k < |Encode(b)| ==> Encode(b)[k] in VALUES
  {
    var s := Encode(b);
    TablesInverse();
    forall k | 0 <= k < |s|
      ensures s[k] in VALUES
    {
      var i := k / 2;
      assert 0 <= i < |b| && b[i] / 16 < 16 && b[i] % 16 < 16;
      if k % 2 == 0 {
        assert k == 2 * i && s[k] == SYMBOLS[b[i] / 16];
      } else {
        assert k == 2 * i + 1 && s[k] == SYMBOLS[b[i] % 16];
      }
    }
  }

  /** The octet a symbol pair stands for, `(oktet1 << 4) | oktet2`. */
  function Octet(hi: char, lo: char): (v: byte)
    requires hi in VALUES && lo in VALUES
    ensures v / 16 == VALUES[hi] && v % 16 == VALUES[lo]
  {
    TablesInverse();
    VALUES[hi] * 16 + VALUES[lo]
  }

  /**
   * `decode(pretty)`: an odd length is refused first; then the pairs are
   * read in order, and a character outside the alphabet is refused. Each
   * pair gives one octet, high nibble first.
   */
  function Decode(s: string): (res: Result<seq<byte>, Failure>)
    ensures |s| % 2 != 0 ==> res == Err(WrongLength)
    ensures |s| % 2 == 0 ==> (res.Err? <==> exists k :: 0 <= k < |s| && s[k] !in VALUES)
    ensures |s| % 2 == 0 && res.Err? ==> res.error == NotInAlphabet
    ensures res.Ok? ==> 2 * |res.value| == |s|
    ensures res.Ok? ==> forall i :: 0 <= i < |res.value| ==> res.value[i] == Octet(s[2 * i], s[2 * i + 1])
  {
    if |s| % 2 != 0 then Err(WrongLength) else DecodePairs(s)
  }

  /** The loop of `decode` over the pairs of an even-length text. */
  function DecodePairs(s: string): (res: Result<seq<byte>, Failure>)
    requires |s| % 2 == 0
    ensures res.Err? <==> exists k :: 0 <= k < |s| && s[k] !in VALUES
    ensures res.Err? ==> res.error == NotInAlphabet
    ensures res.Ok? ==> 2 * |res.value| == |s|
    ensures res.Ok? ==> forall i :: 0 <= i < |res.value| ==> res.value[i] == Octet(s[2 * i], s[2 * i + 1])
    decreases |s|
  {
    if s == [] then Ok([])
    else if s[0] !in VALUES || s[1] !in VALUES then Err(NotInAlphabet)
    else
      var rest := DecodePairs(s[2..]);
      if rest.Err? then
        ghost var k :| 0 <= k < |s[2..]| && s[2..][k] !in VALUES;
        assert s[k + 2] !in VALUES;
        Err(NotInAlphabet)
      else
        var v := [Octet(s[0], s[1])] + rest.value;
        assert forall k :: 2 <= k < |s| ==> s[k] == s[2..][k - 2];
        assert forall i :: 1 <= i < |v| ==> v[i] == rest.value[i - 1] && s[2 * i] == s[2..][2 * (i - 1)];
        Ok(v)
  }

  /** Decoding what `encode` writes gives back the octets. */
  lemma {:induction false} DecodeEncode(b: seq<byte>)
    ensures Decode(Encode(b)) == Ok(b)
  {
    var s := Encode(b);
    TablesInverse();
    EncodeAlphabet(b);
    assert |s| % 2 == 0;
    assert Decode(s).Ok?;
    var d := Decode(s).value;
    forall i | 0 <= i < |b|
      ensures d[i] == b[i]
    {
      assert d[i] / 16 == b[i] / 16 && d[i] % 16 == b[i] % 16;
      assert d[i] == 16 * (d[i] / 16) + d[i] % 16;
      assert b[i] == 16 * (b[i] / 16) + b[i] % 16;
    }
    assert d == b;
  }

  /** Encoding what `decode` accepts gives back the text. */
  lemma {:induction false} EncodeDecode(s: string)
    requires Decode(s).Ok?
    ensures Encode(Decode(s).value) == s
  {
    var d := Decode(s).value;
    var e := Encode(d);
    TablesInverse();
    forall k | 0 <= k < |s|
      ensures e[k] == s[k]
    {
      var i := k / 2;
      assert s[2 * i] in VALUES && s[2 * i + 1] in VALUES;
      if k % 2 == 0 {
        assert k == 2 * i;
      } else {
        assert k == 2 * i + 1;
      }
    }
  }
}
