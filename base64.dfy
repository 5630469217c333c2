/**
 * The base64 encoding of section 4 of RFC 4648, as Python's `base64.b64encode` writes
 * it: every 3 bytes become 4 characters of the 64-character alphabet of Table 1, and a
 * final group of 1 or 2 bytes is padded with "==" or "=". `Decode` is the inverse on
 * well-formed text.
 */
module Base64 {
  import opened Wrappers

  type Byte = x: int | 0 <= x < 256
  type Sextet = x: int | 0 <= x < 64

  const Pad: char := '='

  /** Table 1 of RFC 4648: A-Z, a-z, 0-9, '+', '/'. */
  function SextetChar(v: Sextet): (c: char)
    ensures c != Pad
  {
    if v < 26 then ('A' as int + v) as char
    else if v < 52 then ('a' as int + (v - 26)) as char
    else if v < 62 then ('0' as int + (v - 52)) as char
    else if v == 62 then '+'
    else '/'
  }

  function CharSextet(c: char): Option<Sextet> {
    if 'A' <= c <= 'Z' then Some(c as int - 'A' as int)
    else if 'a' <= c <= 'z' then Some(c as int - 'a' as int + 26)
    else if '0' <= c <= '9' then Some(c as int - '0' as int + 52)
    else if c == '+' then Some(62)
    else if c == '/' then Some(63)
    else None
  }

  lemma SextetCharInverse(v: Sextet)
    ensures CharSextet(SextetChar(v)) == Some(v)
  {
  }

  /** Four characters for three bytes: the 24 bits cut into four 6-bit groups. */
  function EncodeTriple(b0: Byte, b1: Byte, b2: Byte): string {
    [SextetChar(b0 / 4), SextetChar((b0 % 4) * 16 + b1 / 16),
     SextetChar((b1 % 16) * 4 + b2 / 64), SextetChar(b2 % 64)]
  }

  /** A final group of two bytes: 16 bits, zero-filled to 18, then one pad character. */
  function EncodePair(b0: Byte, b1: Byte): string {
    [SextetChar(b0 / 4), SextetChar((b0 % 4) * 16 + b1 / 16), SextetChar((b1 % 16) * 4), Pad]
  }

  /** A final single byte: 8 bits, zero-filled to 12, then two pad characters. */
  function EncodeSingle(b0: Byte): string {
    [SextetChar(b0 / 4), SextetChar((b0 % 4) * 16), Pad, Pad]
  }

  /** `base64.b64encode(data)`. */
  function Encode(data: seq<Byte>): string
    decreases |data|
  {
    if |data| == 0 then []
    else if |data| == 1 then EncodeSingle(data[0])
    else if |data| == 2 then EncodePair(data[0], data[1])
    else EncodeTriple(data[0], data[1], data[2]) + Encode(data[3..])
  }

  /** Every started group of three bytes becomes four characters. */
  lemma {:induction false} EncodedLength(data: seq<Byte>)
    ensures |Encode(data)| == 4 * ((|data| + 2) / 3)
    decreases |data|
  {
    if |data| > 2 {
      EncodedLength(data[3..]);
      assert (|data| + 2) / 3 == (|data[3..]| + 2) / 3 + 1;
    }
  }

  /** The encoded text uses only the alphabet of Table 1 and the pad character. */
  lemma {:induction false} EncodedAlphabet(data: seq<Byte>)
    ensures forall i :: 0 <= i < |Encode(data)| ==> Encode(data)[i] == Pad || CharSextet(Encode(data)[i]).Some?
    decreases |data|
  {
    forall v: Sextet ensures CharSextet(SextetChar(v)).Some? {
      SextetCharInverse(v);
    }
    if |data| > 2 {
      EncodedAlphabet(data[3..]);
      var q := EncodeTriple(data[0], data[1], data[2]);
      var s := Encode(data);
      assert s == q + Encode(data[3..]);
      forall i | 0 <= i < |s| ensures s[i] == Pad || CharSextet(s[i]).Some? {
        if i >= 4 {
          assert s[i] == Encode(data[3..])[i - 4];
        }
      }
    }
  }

  /** The byte made of the 6 bits of `c0` and the top 2 bits of `c1`. */
  function JoinHigh(c0: Sextet, c1: Sextet): Byte {
    (c0 as int) * 4 + (c1 as int) / 16
  }

  /** The byte made of the low 4 bits of `c1` and the top 4 bits of `c2`. */
  function JoinMiddle(c1: Sextet, c2: Sextet): Byte {
    ((c1 as int) % 16) * 16 + (c2 as int) / 4
  }

  /** The byte made of the low 2 bits of `c2` and the 6 bits of `c3`. */
  function JoinLow(c2: Sextet, c3: Sextet): Byte {
    ((c2 as int) % 4) * 64 + (c3 as int)
  }

  /** Decodes one group of four characters without padding. */
  function DecodeQuad(s: string): Option<seq<Byte>>
    requires |s| == 4
  {
    match (CharSextet(s[0]), CharSextet(s[1]), CharSextet(s[2]), CharSextet(s[3]))
    case (Some(c0), Some(c1), Some(c2), Some(c3)) =>
      Some([JoinHigh(c0, c1), JoinMiddle(c1, c2), JoinLow(c2, c3)])
    case _ => None
  }

  /** Decodes the final group, which may end in one or two pad characters. */
  function DecodeLastQuad(s: string): Option<seq<Byte>>
    requires |s| == 4
  {
    if s[2] == Pad && s[3] == Pad then
      match (CharSextet(s[0]), CharSextet(s[1]))
      case (Some(c0), Some(c1)) => Some([JoinHigh(c0, c1)])
      case _ => None
    else if s[3] == Pad then
      match (CharSextet(s[0]), CharSextet(s[1]), CharSextet(s[2]))
      case (Some(c0), Some(c1), Some(c2)) => Some([JoinHigh(c0, c1), JoinMiddle(c1, c2)])
      case _ => None
    else DecodeQuad(s)
  }

  /** `base64.b64decode(s)` on text whose length is a multiple of four. */
  function Decode(s: string): Option<seq<Byte>>
    decreases |s|
  {
    if |s| == 0 then Some([])
    else if |s| < 4 then None
    else if |s| == 4 then DecodeLastQuad(s)
    else match (DecodeQuad(s[..4]), Decode(s[4..]))
      case (Some(head), Some(tail)) => Some(head + tail)
      case _ => None
  }

  /** The first byte comes back from the first two sextets. */
  lemma HighRoundTrip(b0: Byte, b1: Byte)
    ensures JoinHigh(b0 / 4, (b0 % 4) * 16 + b1 / 16) == b0
  {
    var c1 := (b0 % 4) * 16 + b1 / 16;
    assert c1 / 16 == b0 % 4;
  }

  /** The second byte comes back from the second and third sextets. */
  lemma MiddleRoundTrip(b0: Byte, b1: Byte, b2: Byte)
    ensures JoinMiddle((b0 % 4) * 16 + b1 / 16, (b1 % 16) * 4 + b2 / 64) == b1
  {
    var c1, c2 := (b0 % 4) * 16 + b1 / 16, (b1 % 16) * 4 + b2 / 64;
    assert c1 % 16 == b1 / 16;
    assert c2 / 4 == b1 % 16;
  }

  /** The third byte comes back from the last two sextets. */
  lemma LowRoundTrip(b1: Byte, b2: Byte)
    ensures JoinLow((b1 % 16) * 4 + b2 / 64, b2 % 64) == b2
  {
    var c2 := (b1 % 16) * 4 + b2 / 64;
    assert c2 % 4 == b2 / 64;
  }

  lemma TripleRoundTrip(b0: Byte, b1: Byte, b2: Byte)
    ensures DecodeQuad(EncodeTriple(b0, b1, b2)) == Some([b0, b1, b2])
  {
    var c0, c1, c2, c3 := b0 / 4, (b0 % 4) * 16 + b1 / 16, (b1 % 16) * 4 + b2 / 64, b2 % 64;
    SextetCharInverse(c0);
    SextetCharInverse(c1);
    SextetCharInverse(c2);
    SextetCharInverse(c3);
    HighRoundTrip(b0, b1);
    MiddleRoundTrip(b0, b1, b2);
    LowRoundTrip(b1, b2);
  }

  lemma PairRoundTrip(b0: Byte, b1: Byte)
    ensures DecodeLastQuad(EncodePair(b0, b1)) == Some([b0, b1])
  {
    var c0, c1, c2 := b0 / 4, (b0 % 4) * 16 + b1 / 16, (b1 % 16) * 4;
    SextetCharInverse(c0);
    SextetCharInverse(c1);
    SextetCharInverse(c2);
    HighRoundTrip(b0, b1);
    MiddleRoundTrip(b0, b1, 0);
  }

  lemma SingleRoundTrip(b0: Byte)
    ensures DecodeLastQuad(EncodeSingle(b0)) == Some([b0])
  {
    SextetCharInverse(b0 / 4);
    SextetCharInverse((b0 % 4) * 16);
    HighRoundTrip(b0, 0);
  }

  /** Decoding undoes encoding, so what was encoded can be recovered, byte for byte. */
  lemma {:induction false} DecodeEncode(data: seq<Byte>)
    ensures Decode(Encode(data)) == Some(data)
    decreases |data|
  {
    if |data| == 1 {
      SingleRoundTrip(data[0]);
      assert [data[0]] == data;
    } else if |data| == 2 {
      PairRoundTrip(data[0], data[1]);
      assert [data[0], data[1]] == data;
    } else if |data| == 3 {
      DecodeEncodeLastTriple(data);
    } else if |data| > 3 {
      DecodeEncode(data[3..]);
      EncodeUnfold(data);
      DecodeEncodeStep(data, Encode(data[3..]));
    }
  }

  lemma DecodeEncodeLastTriple(data: seq<Byte>)
    requires |data| == 3
    ensures Decode(Encode(data)) == Some(data)
  {
    var q := EncodeTriple(data[0], data[1], data[2]);
    assert data[3..] == [];
    assert Encode(data) == q + [];
    assert Encode(data) == q;
    TripleRoundTrip(data[0], data[1], data[2]);
    assert q[3] != Pad;
    assert DecodeLastQuad(q) == DecodeQuad(q);
    assert [data[0], data[1], data[2]] == data;
  }

  lemma DecodeEncodeStep(data: seq<Byte>, rest: string)
    requires |data| > 3 && |rest| >= 4
    requires Decode(rest) == Some(data[3..])
    ensures Decode(EncodeTriple(data[0], data[1], data[2]) + rest) == Some(data)
  {
    PrefixRoundTrip(data);
    DecodeConcat(EncodeTriple(data[0], data[1], data[2]), rest, data[..3], data[3..]);
    assert data[..3] + data[3..] == data;
  }

  lemma PrefixRoundTrip(data: seq<Byte>)
    requires |data| >= 3
    ensures DecodeQuad(EncodeTriple(data[0], data[1], data[2])) == Some(data[..3])
  {
    TripleRoundTrip(data[0], data[1], data[2]);
    assert [data[0], data[1], data[2]] == data[..3];
  }

  lemma EncodeUnfold(data: seq<Byte>)
    requires |data| > 3
    ensures Encode(data) == EncodeTriple(data[0], data[1], data[2]) + Encode(data[3..])
    ensures |Encode(data[3..])| >= 4
  {
    EncodedLength(data[3..]);
  }

  lemma DecodeConcat(q: string, rest: string, head: seq<Byte>, tail: seq<Byte>)
    requires |q| == 4 && |rest| >= 4
    requires DecodeQuad(q) == Some(head) && Decode(rest) == Some(tail)
    ensures Decode(q + rest) == Some(head + tail)
  {
    var s := q + rest;
    assert s[..4] == q && s[4..] == rest;
  }

  /** The length of the decoded payload: what `size` reports for an encoded record. */
  lemma DecodedLength(data: seq<Byte>)
    ensures Decode(Encode(data)).Some? && |Decode(Encode(data)).value| == |data|
  {
    DecodeEncode(data);
  }
}
