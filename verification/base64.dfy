/** Base64 with the basic alphabet of section 4 of RFC 4648 ("A"-"Z", "a"-"z",
    "0"-"9", "+", "/", and "=" for padding), as Python's `base64.b64encode`
    and `base64.b64decode` apply it to a byte string. */
module Base64 {
  import opened Wrappers
  import opened ByteStrings

  /** The alphabet character for the 6-bit value `i` (Table 1 of RFC 4648). */
  function IndexToChar(i: int): (c: ByteChar)
    requires 0 <= i < 64
    ensures c != '=' && !IsSpace(c)
  {
    if i < 26 then (65 + i) as char        // 'A' .. 'Z'
    else if i < 52 then (71 + i) as char   // 'a' .. 'z'
    else if i < 62 then (i - 4) as char    // '0' .. '9'
    else if i == 62 then '+'
    else '/'
  }

  /** The 6-bit value of an alphabet character; `None` for anything else,
      including the pad character. */
  function CharToIndex(c: char): (r: Option<int>)
    ensures r.Some? ==> 0 <= r.value < 64 && IndexToChar(r.value) == c
  {
    if 'A' <= c <= 'Z' then Some(c as int - 65)
    else if 'a' <= c <= 'z' then Some(c as int - 71)
    else if '0' <= c <= '9' then Some(c as int + 4)
    else if c == '+' then Some(62)
    else if c == '/' then Some(63)
    else None
  }

  lemma CharToIndexOfIndexToChar(i: int)
    requires 0 <= i < 64
    ensures CharToIndex(IndexToChar(i)) == Some(i)
  {
  }

  predicate IsAlphabet(c: char)
  {
    CharToIndex(c).Some?
  }

  /** Characters that may appear in an encoding: the alphabet and the pad. */
  predicate IsEncodingChar(c: char)
  {
    IsAlphabet(c) || c == '='
  }

  function Byte(x: int): ByteChar
    requires 0 <= x < 256
  {
    x as char
  }

  /** Encodes one group of three bytes as four characters. */
  function EncodeTriple(b0: int, b1: int, b2: int): (r: Bytes)
    requires 0 <= b0 < 256 && 0 <= b1 < 256 && 0 <= b2 < 256
    ensures |r| == 4 && forall i :: 0 <= i < 4 ==> IsAlphabet(r[i])
  {
    [IndexToChar(b0 / 4), IndexToChar((b0 % 4) * 16 + b1 / 16),
     IndexToChar((b1 % 16) * 4 + b2 / 64), IndexToChar(b2 % 64)]
  }

  /** Encodes a final group of one or two bytes, padded with "=" to four
      characters. */
  function EncodeFinal(b: Bytes): (r: Bytes)
    requires 1 <= |b| <= 2
    ensures |r| == 4 && forall i :: 0 <= i < 4 ==> IsEncodingChar(r[i])
  {
    var b0 := b[0] as int;
    if |b| == 1 then
      [IndexToChar(b0 / 4), IndexToChar((b0 % 4) * 16), '=', '=']
    else
      var b1 := b[1] as int;
      [IndexToChar(b0 / 4), IndexToChar((b0 % 4) * 16 + b1 / 16), IndexToChar((b1 % 16) * 4), '=']
  }

  /** `base64.b64encode(b)`: every three bytes become four characters, and a
      final group of one or two bytes is padded with "=" to four. */
  function Encode(b: Bytes): (r: Bytes)
    ensures |r| == 4 * ((|b| + 2) / 3)
    ensures forall i :: 0 <= i < |r| ==> IsEncodingChar(r[i])
    decreases |b|
  {
    if |b| == 0 then []
    else if |b| <= 2 then EncodeFinal(b)
    else
      var head := EncodeTriple(b[0] as int, b[1] as int, b[2] as int);
      var tail := Encode(b[3..]);
      assert (|b| + 2) / 3 == (|b[3..]| + 2) / 3 + 1;
      assert forall i :: 4 <= i < 4 + |tail| ==> (head + tail)[i] == tail[i - 4];
      head + tail
  }

  /** Decodes four alphabet characters into three bytes. */
  function DecodeQuad(q: seq<char>): (r: Option<Bytes>)
    requires |q| == 4
    ensures r.Some? ==> |r.value| == 3 && forall i :: 0 <= i < 4 ==> IsAlphabet(q[i])
  {
    match (CharToIndex(q[0]), CharToIndex(q[1]), CharToIndex(q[2]), CharToIndex(q[3]))
    case (Some(c0), Some(c1), Some(c2), Some(c3)) =>
      Some([Byte(c0 * 4 + c1 / 16), Byte((c1 % 16) * 16 + c2 / 4), Byte((c2 % 4) * 64 + c3)])
    case _ => None
  }

  /** Decodes a group ending in padding: "xx==" holds one byte and "xxx="
      two. Bits below the last whole byte are dropped, as Python does. */
  function DecodePaddedQuad(q: seq<char>): (r: Option<Bytes>)
    requires |q| == 4 && q[3] == '='
    ensures r.Some? ==> |r.value| == (if q[2] == '=' then 1 else 2)
    ensures r.Some? ==> forall i :: 0 <= i < 4 ==> IsEncodingChar(q[i])
  {
    if q[2] == '=' then
      match (CharToIndex(q[0]), CharToIndex(q[1]))
      case (Some(c0), Some(c1)) => Some([Byte(c0 * 4 + c1 / 16)])
      case _ => None
    else
      match (CharToIndex(q[0]), CharToIndex(q[1]), CharToIndex(q[2]))
      case (Some(c0), Some(c1), Some(c2)) =>
        Some([Byte(c0 * 4 + c1 / 16), Byte((c1 % 16) * 16 + c2 / 4)])
      case _ => None
  }

  /** `base64.b64decode(s)` on four-character groups. A group that ends in
      padding ends the input: it is decoded and whatever follows it is
      ignored. An incomplete group is the "Incorrect padding" error and a
      character outside the alphabet is an error too, both `None`.
      The decoded bytes occupy exactly the groups before the padded one and
      that group itself; when there is no padded group (a multiple of three
      bytes) they occupy the whole input. */
  function Decode(s: seq<char>): (r: Option<Bytes>)
    ensures r.Some? ==> 4 * ((|r.value| + 2) / 3) <= |s|
    ensures r.Some? ==> forall i :: 0 <= i < 4 * ((|r.value| + 2) / 3) ==> IsEncodingChar(s[i])
    ensures r.Some? && |r.value| % 3 == 0 ==> |s| == 4 * (|r.value| / 3)
    decreases |s|
  {
    if |s| == 0 then Some([])
    else if |s| < 4 then None
    else if s[3] == '=' then DecodePaddedQuad(s[..4])
    else
      match DecodeQuad(s[..4])
      case None => None
      case Some(head) =>
        match Decode(s[4..])
        case None => None
        case Some(tail) =>
          var n := |tail|;
          assert (n + 3 + 2) / 3 == (n + 2) / 3 + 1;
          assert (n + 3) % 3 == n % 3 && (n + 3) / 3 == n / 3 + 1;
          assert forall i :: 4 <= i < |s| ==> s[i] == s[4..][i - 4];
          Some(head + tail)
  }

  /** The 6-bit groups of three bytes reassemble into the bytes. */
  lemma TripleArithmetic(b0: int, b1: int, b2: int)
    requires 0 <= b0 < 256 && 0 <= b1 < 256 && 0 <= b2 < 256
    ensures (b0 / 4) * 4 + ((b0 % 4) * 16 + b1 / 16) / 16 == b0
    ensures (((b0 % 4) * 16 + b1 / 16) % 16) * 16 + ((b1 % 16) * 4 + b2 / 64) / 4 == b1
    ensures (((b1 % 16) * 4 + b2 / 64) % 4) * 64 + b2 % 64 == b2
  {
    var c1 := (b0 % 4) * 16 + b1 / 16;
    assert c1 / 16 == b0 % 4 && c1 % 16 == b1 / 16;
    var c2 := (b1 % 16) * 4 + b2 / 64;
    assert c2 / 4 == b1 % 16 && c2 % 4 == b2 / 64;
  }

  lemma DecodeEncodeTriple(b0: int, b1: int, b2: int)
    requires 0 <= b0 < 256 && 0 <= b1 < 256 && 0 <= b2 < 256
    ensures DecodeQuad(EncodeTriple(b0, b1, b2)) == Some([Byte(b0), Byte(b1), Byte(b2)])
  {
    var c0, c1, c2, c3 := b0 / 4, (b0 % 4) * 16 + b1 / 16, (b1 % 16) * 4 + b2 / 64, b2 % 64;
    var q := EncodeTriple(b0, b1, b2);
    assert q == [IndexToChar(c0), IndexToChar(c1), IndexToChar(c2), IndexToChar(c3)];
    CharToIndexOfIndexToChar(c0);
    CharToIndexOfIndexToChar(c1);
    CharToIndexOfIndexToChar(c2);
    CharToIndexOfIndexToChar(c3);
    TripleArithmetic(b0, b1, b2);
  }

  lemma DecodeEncodeSingle(b0: int)
    requires 0 <= b0 < 256
    ensures DecodePaddedQuad([IndexToChar(b0 / 4), IndexToChar((b0 % 4) * 16), '=', '='])
      == Some([Byte(b0)])
  {
    CharToIndexOfIndexToChar(b0 / 4);
    CharToIndexOfIndexToChar((b0 % 4) * 16);
  }

  lemma DecodeEncodePair(b0: int, b1: int)
    requires 0 <= b0 < 256 && 0 <= b1 < 256
    ensures DecodePaddedQuad([IndexToChar(b0 / 4), IndexToChar((b0 % 4) * 16 + b1 / 16),
                              IndexToChar((b1 % 16) * 4), '='])
      == Some([Byte(b0), Byte(b1)])
  {
    var c1, c2 := (b0 % 4) * 16 + b1 / 16, (b1 % 16) * 4;
    CharToIndexOfIndexToChar(b0 / 4);
    CharToIndexOfIndexToChar(c1);
    CharToIndexOfIndexToChar(c2);
    assert c1 / 16 == b0 % 4 && c1 % 16 == b1 / 16;
    assert (c1 % 16) * 16 + c2 / 4 == b1;
  }

  /** Decoding recovers exactly the bytes that were encoded. */
  lemma DecodeEncode(b: Bytes)
    ensures Decode(Encode(b)) == Some(b)
  {
    assert Encode(b) + [] == Encode(b);
    DecodeStopsAtPad(b, []);
  }

  /** Decoding recovers the encoded bytes also when more text follows an
      encoding that ends in padding: the padded group ends the input. */
  lemma {:induction false} DecodeStopsAtPad(b: Bytes, rest: seq<char>)
    requires |b| % 3 != 0 || rest == []
    ensures Decode(Encode(b) + rest) == Some(b)
    decreases |b|, 1
  {
    if |b| == 0 {
      assert Encode(b) + rest == [];
    } else if |b| <= 2 {
      DecodeFinalGroup(b, rest);
    } else {
      DecodeFullGroup(b, rest);
    }
  }

  /** A padded final group is decoded on its own. */
  lemma DecodeFinalGroup(b: Bytes, rest: seq<char>)
    requires 1 <= |b| <= 2
    ensures Decode(Encode(b) + rest) == Some(b)
  {
    var s := Encode(b) + rest;
    assert s[..4] == Encode(b);
    if |b| == 1 {
      DecodeEncodeSingle(b[0] as int);
      assert b == [Byte(b[0] as int)];
    } else {
      DecodeEncodePair(b[0] as int, b[1] as int);
      assert b == [Byte(b[0] as int), Byte(b[1] as int)];
    }
  }

  /** Three leading bytes become an unpadded group, and decoding goes on
      after it. */
  lemma {:induction false} DecodeFullGroup(b: Bytes, rest: seq<char>)
    requires |b| >= 3 && (|b| % 3 != 0 || rest == [])
    ensures Decode(Encode(b) + rest) == Some(b)
    decreases |b|, 0
  {
    var head := EncodeTriple(b[0] as int, b[1] as int, b[2] as int);
    var tail := Encode(b[3..]) + rest;
    EncodeGroup(b);
    assert Encode(b) + rest == head + tail;
    FirstThree(b);
    GroupRemainder(|b|);
    DecodeEncodeTriple(b[0] as int, b[1] as int, b[2] as int);
    DecodeStopsAtPad(b[3..], rest);
    DecodeUnpaddedGroup(head, tail);
  }

  /** Removing a group of three keeps the remainder modulo three. */
  lemma GroupRemainder(n: int)
    requires n >= 3
    ensures (n - 3) % 3 == n % 3
  {
  }

  /** How the encoding of three or more bytes splits into its first group
      and the remainder. */
  lemma EncodeGroup(b: Bytes)
    requires |b| >= 3
    ensures Encode(b) == EncodeTriple(b[0] as int, b[1] as int, b[2] as int) + Encode(b[3..])
  {
  }

  /** The first three bytes and the rest. */
  lemma FirstThree(b: Bytes)
    requires |b| >= 3
    ensures b == [Byte(b[0] as int), Byte(b[1] as int), Byte(b[2] as int)] + b[3..]
  {
    assert Byte(b[0] as int) == b[0] && Byte(b[1] as int) == b[1] && Byte(b[2] as int) == b[2];
  }

  /** An unpadded group is decoded and decoding goes on after it. */
  lemma DecodeUnpaddedGroup(head: seq<char>, tail: seq<char>)
    requires |head| == 4 && head[3] != '='
    requires DecodeQuad(head).Some? && Decode(tail).Some?
    ensures Decode(head + tail) == Some(DecodeQuad(head).value + Decode(tail).value)
  {
    var s := head + tail;
    assert s[..4] == head && s[4..] == tail;
  }

  /** Different byte strings have different encodings, so `Decode` is the
      inverse of `Encode` on everything `Encode` produces. */
  lemma EncodeInjective(a: Bytes, b: Bytes)
    requires Encode(a) == Encode(b)
    ensures a == b
  {
    DecodeEncode(a);
    DecodeEncode(b);
  }

  /** An encoding has no whitespace, so stripping the line read back does
      not change it. */
  lemma StripEncode(b: Bytes)
    ensures Strip(Encode(b)) == Encode(b)
  {
    var s := Encode(b);
    if |s| > 0 {
      assert IsEncodingChar(s[0]) && IsEncodingChar(s[|s| - 1]);
    }
    StripIdentity(s);
  }
}
