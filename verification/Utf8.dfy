// Which byte strings are domain names: the validity that is checked byte by byte (section 4
// of RFC 3629) is that of being the encoding of some scalar values (section 3 of RFC 3629).
module Utf8 {
  import opened Protocol

  // Code points up to U+10FFFF, without the surrogates.
  type Scalar = c: int | 0 <= c < 0xD800 || 0xE000 <= c < 0x11_0000

  /** The encoding of one scalar value, in as few bytes as it takes. */
  function EncodeScalar(c: Scalar): Bytes {
    if c < 0x80 then [c]
    else if c < 0x800 then [0xC0 + c / 0x40, 0x80 + c % 0x40]
    else if c < 0x1_0000 then [0xE0 + c / 0x1000, 0x80 + c / 0x40 % 0x40, 0x80 + c % 0x40]
    else [0xF0 + c / 0x4_0000, 0x80 + c / 0x1000 % 0x40, 0x80 + c / 0x40 % 0x40, 0x80 + c % 0x40]
  }

  function EncodeScalars(cs: seq<Scalar>): Bytes {
    if cs == [] then [] else EncodeScalar(cs[0]) + EncodeScalars(cs[1..])
  }

  /** Every encoded scalar value is recognised, with its length, whatever follows it. */
  lemma EncodedIsRecognised(c: Scalar, rest: Bytes)
    ensures LeadingUtf8Char(EncodeScalar(c) + rest) == |EncodeScalar(c)|
    ensures (EncodeScalar(c) + rest)[|EncodeScalar(c)|..] == rest
  {
  }

  // Two, three and four bytes as the scalar value they encode.

  lemma TwoBytes(b0: u8, b1: u8) returns (c: Scalar)
    requires 0xC2 <= b0 <= 0xDF && Utf8Tail(b1)
    ensures EncodeScalar(c) == [b0, b1]
  {
    c := (b0 - 0xC0) * 0x40 + (b1 - 0x80);
  }

  lemma ThreeBytes(b0: u8, b1: u8, b2: u8) returns (c: Scalar)
    requires 0xE0 <= b0 <= 0xEF && Utf8Tail(b1) && Utf8Tail(b2)
    requires (b0 == 0xE0 ==> 0xA0 <= b1) && (b0 == 0xED ==> b1 <= 0x9F)
    ensures EncodeScalar(c) == [b0, b1, b2]
  {
    c := (b0 - 0xE0) * 0x1000 + (b1 - 0x80) * 0x40 + (b2 - 0x80);
    assert c / 0x40 == (b0 - 0xE0) * 0x40 + (b1 - 0x80);
  }

  lemma FourBytes(b0: u8, b1: u8, b2: u8, b3: u8) returns (c: Scalar)
    requires 0xF0 <= b0 <= 0xF4 && Utf8Tail(b1) && Utf8Tail(b2) && Utf8Tail(b3)
    requires (b0 == 0xF0 ==> 0x90 <= b1) && (b0 == 0xF4 ==> b1 <= 0x8F)
    ensures EncodeScalar(c) == [b0, b1, b2, b3]
  {
    var q1 := (b0 - 0xF0) * 0x40 + (b1 - 0x80);
    var q2 := q1 * 0x40 + (b2 - 0x80);
    c := q2 * 0x40 + (b3 - 0x80);
    SixBits(b0 - 0xF0, b1 - 0x80);
    SixBits(q1, b2 - 0x80);
    SixBits(q2, b3 - 0x80);
    assert c / 0x1000 == q1 && c / 0x4_0000 == b0 - 0xF0;
  }

  lemma SixBits(q: nat, r: nat)
    requires r < 0x40
    ensures (q * 0x40 + r) / 0x40 == q && (q * 0x40 + r) % 0x40 == r
  {
  }

  /** Whatever is recognised as one character is the encoding of a scalar value. */
  lemma RecognisedIsEncoded(s: Bytes) returns (c: Scalar)
    requires LeadingUtf8Char(s) > 0
    ensures s == EncodeScalar(c) + s[LeadingUtf8Char(s)..]
  {
    match LeadingUtf8Char(s) {
      case 1 => c := s[0];
      case 2 => c := TwoBytes(s[0], s[1]);
      case 3 => c := ThreeBytes(s[0], s[1], s[2]);
      case 4 => c := FourBytes(s[0], s[1], s[2], s[3]);
    }
  }

  lemma {:induction false} ScalarsOf(s: Bytes) returns (cs: seq<Scalar>)
    requires ValidUtf8(s)
    ensures EncodeScalars(cs) == s
    decreases |s|
  {
    if s == [] {
      cs := [];
    } else {
      var c := RecognisedIsEncoded(s);
      var rest := ScalarsOf(s[LeadingUtf8Char(s)..]);
      cs := [c] + rest;
    }
  }

  lemma {:induction false} EncodedIsValid(cs: seq<Scalar>)
    ensures ValidUtf8(EncodeScalars(cs))
  {
    if cs != [] {
      EncodedIsValid(cs[1..]);
      EncodedIsRecognised(cs[0], EncodeScalars(cs[1..]));
    }
  }

  /** A byte string passes as a domain name if and only if it encodes some sequence of scalar values. */
  lemma ValidIffEncoded(s: Bytes)
    ensures ValidUtf8(s) <==> exists cs: seq<Scalar> :: EncodeScalars(cs) == s
  {
    if ValidUtf8(s) {
      var cs := ScalarsOf(s);
    }
    if cs: seq<Scalar> :| EncodeScalars(cs) == s {
      EncodedIsValid(cs);
    }
  }
}
