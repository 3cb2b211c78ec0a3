/** Base 64 encoding with the standard alphabet and padding, as in section 4 of
    RFC 4648, with the canonical decoding rules of the `base64` crate's `STANDARD`
    engine: the input length must be a multiple of four, `=` may appear only as the
    one or two final padding characters, and the bits a padded group leaves over
    must be zero. Under these rules every decodable string is the encoding of
    exactly one byte sequence (lemmas `DecodeEncode` and `EncodeDecode`). */
module Base64 {

  import opened Wrappers
  import opened Utf8

  /** The decoder's failure; which of the crate's error variants is raised is
      not modelled. */
  datatype DecodeError = Malformed

  /** The standard alphabet of RFC 4648, Table 1. */
  function IndexChar(i: int): (c: char)
    requires 0 <= i < 64
    ensures c != '='
  {
    if i < 26 then ('A' as int + i) as char
    else if i < 52 then ('a' as int + (i - 26)) as char
    else if i < 62 then ('0' as int + (i - 52)) as char
    else if i == 62 then '+'
    else '/'
  }

  /** Position of `c` in the alphabet; None for any other character. */
  function CharIndex(c: char): (r: Option<int>)
    ensures r.Some? ==> 0 <= r.value < 64 && IndexChar(r.value) == c
  {
    if 'A' <= c <= 'Z' then Some(c as int - 'A' as int)
    else if 'a' <= c <= 'z' then Some(c as int - 'a' as int + 26)
    else if '0' <= c <= '9' then Some(c as int - '0' as int + 52)
    else if c == '+' then Some(62)
    else if c == '/' then Some(63)
    else None
  }

  lemma IndexCharInverse(i: int)
    requires 0 <= i < 64
    ensures CharIndex(IndexChar(i)) == Some(i)
  {
  }

  /** Three bytes as four sextets (no padding). */
  function EncodeTriple(b0: Byte, b1: Byte, b2: Byte): string {
    [IndexChar(b0 / 4), IndexChar((b0 % 4) * 16 + b1 / 16),
     IndexChar((b1 % 16) * 4 + b2 / 64), IndexChar(b2 % 64)]
  }

  /** `STANDARD.encode`: groups of three bytes, the last partial group padded. */
  function Encode(bs: seq<Byte>): (s: string)
    ensures |s| % 4 == 0
    ensures |bs| > 0 <==> |s| >= 4
    decreases |bs|
  {
    if |bs| == 0 then ""
    else if |bs| == 1 then
      [IndexChar(bs[0] / 4), IndexChar((bs[0] % 4) * 16), '=', '=']
    else if |bs| == 2 then
      [IndexChar(bs[0] / 4), IndexChar((bs[0] % 4) * 16 + bs[1] / 16), IndexChar((bs[1] % 16) * 4), '=']
    else EncodeTriple(bs[0], bs[1], bs[2]) + Encode(bs[3..])
  }

  /** Every started group of three bytes takes four characters. */
  lemma {:induction false} EncodedLength(bs: seq<Byte>)
    ensures |Encode(bs)| == 4 * ((|bs| + 2) / 3)
    decreases |bs|
  {
    if |bs| >= 3 {
      EncodedLength(bs[3..]);
      assert (|bs| + 2) / 3 == (|bs[3..]| + 2) / 3 + 1;
    }
  }

  /** A character an encoding may contain: one of the alphabet or padding. */
  predicate IsEncodingChar(c: char) {
    CharIndex(c).Some? || c == '='
  }

  /** An encoding begins with an alphabet character and ends with one or with
      padding. */
  lemma {:induction false} EncodedEnds(bs: seq<Byte>)
    requires |bs| > 0
    ensures var s := Encode(bs); CharIndex(s[0]).Some? && IsEncodingChar(s[|s| - 1])
    decreases |bs|
  {
    var s := Encode(bs);
    IndexCharInverse(bs[0] / 4);
    if |bs| > 3 {
      EncodedEnds(bs[3..]);
      var t := Encode(bs[3..]);
      assert s == EncodeTriple(bs[0], bs[1], bs[2]) + t;
      assert s[|s| - 1] == t[|t| - 1];
    } else if |bs| == 3 {
      IndexCharInverse(bs[2] % 64);
      assert s == EncodeTriple(bs[0], bs[1], bs[2]);
    }
  }

  /** Four alphabet characters back to three bytes. */
  function DecodeQuad(i0: int, i1: int, i2: int, i3: int): seq<Byte>
    requires 0 <= i0 < 64 && 0 <= i1 < 64 && 0 <= i2 < 64 && 0 <= i3 < 64
  {
    [i0 * 4 + i1 / 16, (i1 % 16) * 16 + i2 / 4, (i2 % 4) * 64 + i3]
  }

  /** A group that is not the last one: four alphabet characters. */
  function DecodeFull(q: string): Result<seq<Byte>, DecodeError>
    requires |q| == 4
  {
    match (CharIndex(q[0]), CharIndex(q[1]), CharIndex(q[2]), CharIndex(q[3]))
    case (Some(i0), Some(i1), Some(i2), Some(i3)) => Ok(DecodeQuad(i0, i1, i2, i3))
    case _ => Err(Malformed)
  }

  /** The last group: four alphabet characters, or two or three followed by
      padding whose unused bits are zero. */
  function DecodeLast(q: string): Result<seq<Byte>, DecodeError>
    requires |q| == 4
  {
    match (CharIndex(q[0]), CharIndex(q[1]), CharIndex(q[2]), CharIndex(q[3]))
    case (Some(i0), Some(i1), Some(i2), Some(i3)) => Ok(DecodeQuad(i0, i1, i2, i3))
    case (Some(i0), Some(i1), Some(i2), None) =>
      if q[3] == '=' && i2 % 4 == 0 then Ok([i0 * 4 + i1 / 16, (i1 % 16) * 16 + i2 / 4])
      else Err(Malformed)
    case (Some(i0), Some(i1), None, None) =>
      if q[2] == '=' && q[3] == '=' && i1 % 16 == 0 then Ok([i0 * 4 + i1 / 16])
      else Err(Malformed)
    case _ => Err(Malformed)
  }

  /** `STANDARD.decode` of a string. */
  function Decode(s: string): Result<seq<Byte>, DecodeError>
    decreases |s|
  {
    if |s| == 0 then Ok([])
    else if |s| < 4 then Err(Malformed)
    else if |s| == 4 then DecodeLast(s)
    else match DecodeFull(s[..4])
      case Err(e) => Err(e)
      case Ok(head) =>
        match Decode(s[4..])
        case Err(e) => Err(e)
        case Ok(tail) => Ok(head + tail)
  }

  lemma DivMod(a: int, b: int, m: int)
    requires m == 4 || m == 16 || m == 64
    requires 0 <= a && 0 <= b < m
    ensures (a * m + b) / m == a && (a * m + b) % m == b
  {
  }

  /** The sextets of three bytes give the bytes back. */
  lemma TripleArithmetic(b0: int, b1: int, b2: int)
    requires 0 <= b0 < 256 && 0 <= b1 < 256 && 0 <= b2 < 256
    ensures var i0, i1, i2, i3 := b0 / 4, (b0 % 4) * 16 + b1 / 16, (b1 % 16) * 4 + b2 / 64, b2 % 64;
      && 0 <= i0 < 64 && 0 <= i1 < 64 && 0 <= i2 < 64 && 0 <= i3 < 64
      && i0 * 4 + i1 / 16 == b0 && (i1 % 16) * 16 + i2 / 4 == b1 && (i2 % 4) * 64 + i3 == b2
  {
    DivMod(b0 % 4, b1 / 16, 16);
    DivMod(b1 % 16, b2 / 64, 4);
  }

  /** The bytes of four sextets give the sextets back. */
  lemma QuadArithmetic(i0: int, i1: int, i2: int, i3: int)
    requires 0 <= i0 < 64 && 0 <= i1 < 64 && 0 <= i2 < 64 && 0 <= i3 < 64
    ensures var b0, b1, b2 := i0 * 4 + i1 / 16, (i1 % 16) * 16 + i2 / 4, (i2 % 4) * 64 + i3;
      && 0 <= b0 < 256 && 0 <= b1 < 256 && 0 <= b2 < 256
      && b0 / 4 == i0 && (b0 % 4) * 16 + b1 / 16 == i1 && (b1 % 16) * 4 + b2 / 64 == i2 && b2 % 64 == i3
  {
    DivMod(i0, i1 / 16, 4);
    DivMod(i1 % 16, i2 / 4, 16);
    DivMod(i2 % 4, i3, 64);
  }

  lemma TripleRoundTrip(b0: Byte, b1: Byte, b2: Byte)
    ensures DecodeFull(EncodeTriple(b0, b1, b2)) == Ok([b0, b1, b2])
    ensures DecodeLast(EncodeTriple(b0, b1, b2)) == Ok([b0, b1, b2])
  {
    TripleArithmetic(b0, b1, b2);
    SextetsDecode(b0, b1, b2, b0 / 4, (b0 % 4) * 16 + b1 / 16, (b1 % 16) * 4 + b2 / 64, b2 % 64);
  }

  /** Three bytes and their four sextets: the bytes' encoding decodes to them. */
  lemma SextetsDecode(b0: Byte, b1: Byte, b2: Byte, i0: int, i1: int, i2: int, i3: int)
    requires 0 <= i0 < 64 && 0 <= i1 < 64 && 0 <= i2 < 64 && 0 <= i3 < 64
    requires b0 / 4 == i0 && (b0 % 4) * 16 + b1 / 16 == i1 && (b1 % 16) * 4 + b2 / 64 == i2 && b2 % 64 == i3
    requires i0 * 4 + i1 / 16 == b0 && (i1 % 16) * 16 + i2 / 4 == b1 && (i2 % 4) * 64 + i3 == b2
    ensures DecodeFull(EncodeTriple(b0, b1, b2)) == Ok([b0, b1, b2])
    ensures DecodeLast(EncodeTriple(b0, b1, b2)) == Ok([b0, b1, b2])
  {
    SextetsSpell(b0, b1, b2, i0, i1, i2, i3);
    SpelledQuadDecodes(EncodeTriple(b0, b1, b2), i0, i1, i2, i3);
    assert DecodeQuad(i0, i1, i2, i3) == [b0, b1, b2];
  }

  /** The characters of four sextets decode back to the sextets' bytes. */
  lemma SpelledQuadDecodes(q: string, i0: int, i1: int, i2: int, i3: int)
    requires 0 <= i0 < 64 && 0 <= i1 < 64 && 0 <= i2 < 64 && 0 <= i3 < 64
    requires q == [IndexChar(i0), IndexChar(i1), IndexChar(i2), IndexChar(i3)]
    ensures DecodeFull(q) == Ok(DecodeQuad(i0, i1, i2, i3))
    ensures DecodeLast(q) == Ok(DecodeQuad(i0, i1, i2, i3))
  {
    IndexCharInverse(i0);
    IndexCharInverse(i1);
    IndexCharInverse(i2);
    IndexCharInverse(i3);
    FullQuadDecodes(q, i0, i1, i2, i3);
  }

  /** Four alphabet characters decode the same way in any group. */
  lemma FullQuadDecodes(q: string, i0: int, i1: int, i2: int, i3: int)
    requires |q| == 4
    requires CharIndex(q[0]) == Some(i0) && CharIndex(q[1]) == Some(i1)
    requires CharIndex(q[2]) == Some(i2) && CharIndex(q[3]) == Some(i3)
    ensures DecodeFull(q) == Ok(DecodeQuad(i0, i1, i2, i3))
    ensures DecodeLast(q) == Ok(DecodeQuad(i0, i1, i2, i3))
  {
  }

  lemma PairRoundTrip(b0: Byte, b1: Byte)
    ensures Decode(Encode([b0, b1])) == Ok([b0, b1])
  {
    TripleArithmetic(b0, b1, 0);
    var i0, i1, i2 := b0 / 4, (b0 % 4) * 16 + b1 / 16, (b1 % 16) * 4;
    IndexCharInverse(i0);
    IndexCharInverse(i1);
    IndexCharInverse(i2);
    var q := Encode([b0, b1]);
    assert q == [IndexChar(i0), IndexChar(i1), IndexChar(i2), '='];
    assert CharIndex(q[3]) == None;
    assert i2 % 4 == 0;
    assert DecodeLast(q) == Ok([i0 * 4 + i1 / 16, (i1 % 16) * 16 + i2 / 4]);
  }

  lemma SingleRoundTrip(b0: Byte)
    ensures Decode(Encode([b0])) == Ok([b0])
  {
    IndexCharInverse(b0 / 4);
    IndexCharInverse((b0 % 4) * 16);
  }

  /** A full group followed by more input decodes to the group's bytes and then the rest's. */
  lemma {:induction false} DecodeCons(q: string, rest: string, head: seq<Byte>, tail: seq<Byte>)
    requires |q| == 4 && |rest| > 0
    requires DecodeFull(q) == Ok(head) && Decode(rest) == Ok(tail)
    ensures Decode(q + rest) == Ok(head + tail)
  {
    var s := q + rest;
    assert s[..4] == q;
    assert s[4..] == rest;
  }

  lemma TripleGroupRoundTrip(b0: Byte, b1: Byte, b2: Byte)
    ensures Decode(Encode([b0, b1, b2])) == Ok([b0, b1, b2])
  {
    var bs: seq<Byte> := [b0, b1, b2];
    TripleRoundTrip(b0, b1, b2);
    assert Encode(bs) == EncodeTriple(b0, b1, b2) + Encode([]);
    assert Encode(bs) == EncodeTriple(b0, b1, b2);
  }

  lemma EncodeUnfold(bs: seq<Byte>)
    requires |bs| > 3
    ensures Encode(bs) == EncodeTriple(bs[0], bs[1], bs[2]) + Encode(bs[3..])
  {
  }

  lemma HeadRoundTrip(bs: seq<Byte>)
    requires |bs| >= 3
    ensures DecodeFull(EncodeTriple(bs[0], bs[1], bs[2])) == Ok(bs[..3])
  {
    TripleRoundTrip(bs[0], bs[1], bs[2]);
    assert bs[..3] == [bs[0], bs[1], bs[2]];
  }

  lemma {:induction false} GroupStep(bs: seq<Byte>)
    requires |bs| > 3
    requires Decode(Encode(bs[3..])) == Ok(bs[3..])
    ensures Decode(Encode(bs)) == Ok(bs)
  {
    HeadRoundTrip(bs);
    DecodeCons(EncodeTriple(bs[0], bs[1], bs[2]), Encode(bs[3..]), bs[..3], bs[3..]);
    assert bs[..3] + bs[3..] == bs;
    EncodeUnfold(bs);
  }

  /** Decoding inverts encoding. */
  lemma {:induction false} DecodeEncode(bs: seq<Byte>)
    ensures Decode(Encode(bs)) == Ok(bs)
    decreases |bs|
  {
    if |bs| == 1 {
      SingleRoundTrip(bs[0]);
      assert bs == [bs[0]];
    } else if |bs| == 2 {
      PairRoundTrip(bs[0], bs[1]);
      assert bs == [bs[0], bs[1]];
    } else if |bs| == 3 {
      TripleGroupRoundTrip(bs[0], bs[1], bs[2]);
      assert bs == [bs[0], bs[1], bs[2]];
    } else if |bs| > 3 {
      DecodeEncode(bs[3..]);
      GroupStep(bs);
    }
  }

  lemma QuadRoundTrip(q: string, i0: int, i1: int, i2: int, i3: int)
    requires |q| == 4
    requires CharIndex(q[0]) == Some(i0) && CharIndex(q[1]) == Some(i1)
    requires CharIndex(q[2]) == Some(i2) && CharIndex(q[3]) == Some(i3)
    ensures var b := DecodeQuad(i0, i1, i2, i3); EncodeTriple(b[0], b[1], b[2]) == q
  {
    QuadArithmetic(i0, i1, i2, i3);
    var b := DecodeQuad(i0, i1, i2, i3);
    SextetsSpell(b[0], b[1], b[2], i0, i1, i2, i3);
    assert q == [q[0], q[1], q[2], q[3]];
  }

  /** Three bytes whose sextets are known encode to those sextets' characters. */
  lemma SextetsSpell(b0: Byte, b1: Byte, b2: Byte, i0: int, i1: int, i2: int, i3: int)
    requires 0 <= i0 < 64 && 0 <= i1 < 64 && 0 <= i2 < 64 && 0 <= i3 < 64
    requires b0 / 4 == i0 && (b0 % 4) * 16 + b1 / 16 == i1 && (b1 % 16) * 4 + b2 / 64 == i2 && b2 % 64 == i3
    ensures EncodeTriple(b0, b1, b2) == [IndexChar(i0), IndexChar(i1), IndexChar(i2), IndexChar(i3)]
  {
  }

  lemma OnePaddedRoundTrip(q: string, i0: int, i1: int)
    requires |q| == 4 && q[2] == '=' && q[3] == '='
    requires CharIndex(q[0]) == Some(i0) && CharIndex(q[1]) == Some(i1) && i1 % 16 == 0
    ensures Encode([i0 * 4 + i1 / 16]) == q
  {
    DivMod(i0, i1 / 16, 4);
  }

  lemma TwoPaddedRoundTrip(q: string, i0: int, i1: int, i2: int)
    requires |q| == 4 && q[3] == '='
    requires CharIndex(q[0]) == Some(i0) && CharIndex(q[1]) == Some(i1) && CharIndex(q[2]) == Some(i2)
    requires i2 % 4 == 0
    ensures Encode([i0 * 4 + i1 / 16, (i1 % 16) * 16 + i2 / 4]) == q
  {
    QuadArithmetic(i0, i1, i2, 0);
    var b0, b1 := i0 * 4 + i1 / 16, (i1 % 16) * 16 + i2 / 4;
    assert (b1 % 16) * 4 == i2;
    PairSpell(b0, b1, i0, i1, i2);
    assert q == [q[0], q[1], q[2], q[3]];
  }

  /** Two bytes whose sextets are known encode to those sextets' characters. */
  lemma PairSpell(b0: Byte, b1: Byte, i0: int, i1: int, i2: int)
    requires 0 <= i0 < 64 && 0 <= i1 < 64 && 0 <= i2 < 64
    requires b0 / 4 == i0 && (b0 % 4) * 16 + b1 / 16 == i1 && (b1 % 16) * 4 == i2
    ensures Encode([b0, b1]) == [IndexChar(i0), IndexChar(i1), IndexChar(i2), '=']
  {
  }

  /** Three bytes make one unpadded group. */
  lemma EncodeThree(bs: seq<Byte>)
    requires |bs| == 3
    ensures Encode(bs) == EncodeTriple(bs[0], bs[1], bs[2])
  {
    assert Encode(bs[3..]) == [];
  }

  lemma LastGroupRoundTrip(q: string, bs: seq<Byte>)
    requires |q| == 4 && DecodeLast(q) == Ok(bs)
    ensures Encode(bs) == q
  {
    match (CharIndex(q[0]), CharIndex(q[1]), CharIndex(q[2]), CharIndex(q[3]))
    case (Some(i0), Some(i1), Some(i2), Some(i3)) =>
      QuadRoundTrip(q, i0, i1, i2, i3);
      EncodeThree(bs);
    case (Some(i0), Some(i1), Some(i2), None) =>
      TwoPaddedRoundTrip(q, i0, i1, i2);
    case (Some(i0), Some(i1), None, None) =>
      OnePaddedRoundTrip(q, i0, i1);
    case _ =>
  }

  /** Every string that decodes is the encoding of what it decodes to. */
  lemma {:induction false} EncodeDecode(s: string, bs: seq<Byte>)
    requires Decode(s) == Ok(bs)
    ensures Encode(bs) == s
    decreases |s|
  {
    if |s| == 4 {
      LastGroupRoundTrip(s, bs);
    } else if |s| > 4 {
      var q := s[..4];
      var head := DecodeFull(q).value;
      var tail := Decode(s[4..]).value;
      EncodeDecode(s[4..], tail);
      var i0, i1, i2, i3 := CharIndex(q[0]).value, CharIndex(q[1]).value, CharIndex(q[2]).value, CharIndex(q[3]).value;
      QuadRoundTrip(q, i0, i1, i2, i3);
      assert bs == head + tail;
      assert bs[3..] == tail;
      assert s == q + s[4..];
    }
  }

  /** Decoding succeeds exactly on the encodings, so decoded bytes are unique. */
  lemma DecodeSucceedsIffEncoding(s: string)
    ensures Decode(s).Ok? <==> exists bs :: Encode(bs) == s
  {
    if Decode(s).Ok? {
      EncodeDecode(s, Decode(s).value);
    }
    if exists bs :: Encode(bs) == s {
      var bs :| Encode(bs) == s;
      DecodeEncode(bs);
    }
  }

  /** The example from the service's unit tests: "MTIz" is the encoding of "123". */
  lemma DecodeExample()
    ensures Decode("MTIz") == Ok([0x31, 0x32, 0x33])
  {
    assert CharIndex('M') == Some(12);
    assert CharIndex('T') == Some(19);
    assert CharIndex('I') == Some(8);
    assert CharIndex('z') == Some(51);
  }
}
