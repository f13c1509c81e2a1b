/**
 * The "URL and filename safe" base64 alphabet of RFC 4648, section 5, with `=`
 * padding: what Python's `base64.urlsafe_b64encode` produces.
 */
module Base64Url {
  import opened Wrappers
  import opened Utf8

  /** One of the 64 digits of the alphabet (section 5, table 2 of RFC 4648). */
  function Digit(v: int): (c: char)
    requires 0 <= v < 64
  {
    if v < 26 then ('A' as int + v) as char
    else if v < 52 then ('a' as int + v - 26) as char
    else if v < 62 then ('0' as int + v - 52) as char
    else if v == 62 then '-'
    else '_'
  }

  /** The value of a digit, or None for any other character (including the pad `=`). */
  function DigitValue(c: char): (r: Option<int>)
    ensures r.Some? ==> 0 <= r.value < 64
  {
    if 'A' <= c <= 'Z' then Some(c as int - 'A' as int)
    else if 'a' <= c <= 'z' then Some(c as int - 'a' as int + 26)
    else if '0' <= c <= '9' then Some(c as int - '0' as int + 52)
    else if c == '-' then Some(62)
    else if c == '_' then Some(63)
    else None
  }

  /** The characters an encoded key may contain. */
  predicate IsKeyChar(c: char)
  {
    'A' <= c <= 'Z' || 'a' <= c <= 'z' || '0' <= c <= '9' || c == '-' || c == '_' || c == '='
  }

  lemma DigitValueOfDigit(v: int)
    requires 0 <= v < 64
    ensures DigitValue(Digit(v)) == Some(v)
    ensures IsKeyChar(Digit(v)) && Digit(v) != '='
  {
  }

  /** Three bytes become four digits of six bits each. */
  function EncodeTriple(b0: byte, b1: byte, b2: byte): string
  {
    [Digit(b0 / 4), Digit(b0 % 4 * 16 + b1 / 16), Digit(b1 % 16 * 4 + b2 / 64), Digit(b2 % 64)]
  }

  /** `base64.urlsafe_b64encode(bs)`: a final group of one or two bytes is padded with `=`. */
  function Encode(bs: seq<byte>): string
    decreases |bs|
  {
    if |bs| >= 3 then EncodeTriple(bs[0], bs[1], bs[2]) + Encode(bs[3..])
    else if |bs| == 2 then [Digit(bs[0] / 4), Digit(bs[0] % 4 * 16 + bs[1] / 16), Digit(bs[1] % 16 * 4), '=']
    else if |bs| == 1 then [Digit(bs[0] / 4), Digit(bs[0] % 4 * 16), '=', '=']
    else []
  }

  /** Four characters for every started group of three bytes. */
  lemma {:induction false} EncodeLength(bs: seq<byte>)
    ensures |Encode(bs)| == 4 * ((|bs| + 2) / 3)
    decreases |bs|
  {
    if |bs| >= 3 {
      EncodeLength(bs[3..]);
    }
  }

  /** Every character of an encoding is a digit of the alphabet or the pad. */
  lemma {:induction false} EncodeAlphabet(bs: seq<byte>)
    ensures forall i :: 0 <= i < |Encode(bs)| ==> IsKeyChar(Encode(bs)[i])
    decreases |bs|
  {
    if |bs| >= 3 {
      DigitValueOfDigit(bs[0] / 4);
      DigitValueOfDigit(bs[0] % 4 * 16 + bs[1] / 16);
      DigitValueOfDigit(bs[1] % 16 * 4 + bs[2] / 64);
      DigitValueOfDigit(bs[2] % 64);
      EncodeAlphabet(bs[3..]);
      var s, g, rest := Encode(bs), EncodeTriple(bs[0], bs[1], bs[2]), Encode(bs[3..]);
      assert s == g + rest;
      forall i | 0 <= i < |s| ensures IsKeyChar(s[i]) {
        if i >= 4 { assert s[i] == rest[i - 4]; }
      }
    } else if |bs| == 2 {
      DigitValueOfDigit(bs[0] / 4);
      DigitValueOfDigit(bs[0] % 4 * 16 + bs[1] / 16);
      DigitValueOfDigit(bs[1] % 16 * 4);
    } else if |bs| == 1 {
      DigitValueOfDigit(bs[0] / 4);
      DigitValueOfDigit(bs[0] % 4 * 16);
    }
  }

  /** The bytes a group of four characters stands for; a padded group must be the last. */
  function DecodeGroup(q: string, last: bool): Option<seq<byte>>
    requires |q| == 4
  {
    match (DigitValue(q[0]), DigitValue(q[1]), DigitValue(q[2]), DigitValue(q[3]))
    case (Some(v0), Some(v1), Some(v2), Some(v3)) =>
      Some([v0 * 4 + v1 / 16, v1 % 16 * 16 + v2 / 4, v2 % 4 * 64 + v3])
    case (Some(v0), Some(v1), Some(v2), None) =>
      if last && q[3] == '=' && v2 % 4 == 0 then Some([v0 * 4 + v1 / 16, v1 % 16 * 16 + v2 / 4]) else None
    case (Some(v0), Some(v1), None, None) =>
      if last && q[2] == '=' && q[3] == '=' && v1 % 16 == 0 then Some([v0 * 4 + v1 / 16]) else None
    case _ => None
  }

  /** The inverse of Encode: None for a string that Encode cannot produce. */
  function Decode(s: string): Option<seq<byte>>
    decreases |s|
  {
    if s == [] then Some([])
    else if |s| < 4 then None
    else match (DecodeGroup(s[..4], |s| == 4), Decode(s[4..]))
      case (Some(g), Some(rest)) => Some(g + rest)
      case _ => None
  }

  lemma Split(q: int, r: int, d: int)
    requires d == 4 || d == 16 || d == 64
    requires 0 <= r < d
    ensures (q * d + r) / d == q && (q * d + r) % d == r
  {
  }

  /** The six-bit digits of three bytes give the three bytes back. */
  lemma SextetsOfTriple(b0: byte, b1: byte, b2: byte)
    ensures var v0, v1, v2, v3 := b0 / 4, b0 % 4 * 16 + b1 / 16, b1 % 16 * 4 + b2 / 64, b2 % 64;
      v0 * 4 + v1 / 16 == b0 && v1 % 16 * 16 + v2 / 4 == b1 && v2 % 4 * 64 + v3 == b2
  {
    Split(b0 % 4, b1 / 16, 16);
    Split(b1 % 16, b2 / 64, 4);
  }

  lemma DecodeEncodeTriple(b0: byte, b1: byte, b2: byte, last: bool)
    ensures DecodeGroup(EncodeTriple(b0, b1, b2), last) == Some([b0, b1, b2])
  {
    DigitValueOfDigit(b0 / 4);
    DigitValueOfDigit(b0 % 4 * 16 + b1 / 16);
    DigitValueOfDigit(b1 % 16 * 4 + b2 / 64);
    DigitValueOfDigit(b2 % 64);
    SextetsOfTriple(b0, b1, b2);
  }

  lemma DecodeEncodePair(b0: byte, b1: byte)
    ensures DecodeGroup([Digit(b0 / 4), Digit(b0 % 4 * 16 + b1 / 16), Digit(b1 % 16 * 4), '='], true) == Some([b0, b1])
  {
    DigitValueOfDigit(b0 / 4);
    DigitValueOfDigit(b0 % 4 * 16 + b1 / 16);
    DigitValueOfDigit(b1 % 16 * 4);
    SextetsOfTriple(b0, b1, 0);
  }

  lemma DecodeEncodeSingle(b0: byte)
    ensures DecodeGroup([Digit(b0 / 4), Digit(b0 % 4 * 16), '=', '='], true) == Some([b0])
  {
    DigitValueOfDigit(b0 / 4);
    DigitValueOfDigit(b0 % 4 * 16);
    SextetsOfTriple(b0, 0, 0);
  }

  /** Decode takes one group off the front. */
  lemma DecodeCons(s: string, g: seq<byte>, rest: seq<byte>)
    requires |s| >= 4 && DecodeGroup(s[..4], |s| == 4) == Some(g) && Decode(s[4..]) == Some(rest)
    ensures Decode(s) == Some(g + rest)
  {
  }

  /** Encode emits one group per three bytes. */
  lemma EncodeCons(bs: seq<byte>)
    requires |bs| >= 3
    ensures Encode(bs) == EncodeTriple(bs[0], bs[1], bs[2]) + Encode(bs[3..])
  {
  }

  /** A full group followed by the rest decodes group by group. */
  lemma {:induction false} DecodeFullGroup(bs: seq<byte>)
    requires |bs| >= 3 && Decode(Encode(bs[3..])) == Some(bs[3..])
    ensures Decode(Encode(bs)) == Some(bs)
  {
    var s := Encode(bs);
    var g := EncodeTriple(bs[0], bs[1], bs[2]);
    EncodeCons(bs);
    assert s[..4] == g && s[4..] == Encode(bs[3..]);
    DecodeEncodeTriple(bs[0], bs[1], bs[2], |s| == 4);
    DecodeCons(s, [bs[0], bs[1], bs[2]], bs[3..]);
    assert [bs[0], bs[1], bs[2]] + bs[3..] == bs;
  }

  /** A final group of one or two bytes decodes through its padding. */
  lemma {:induction false} DecodePaddedGroup(bs: seq<byte>)
    requires 1 <= |bs| <= 2
    ensures Decode(Encode(bs)) == Some(bs)
  {
    var s := Encode(bs);
    assert |s| == 4;
    assert s[..4] == s && s[4..] == [];
    if |bs| == 2 {
      DecodeEncodePair(bs[0], bs[1]);
      DecodeCons(s, [bs[0], bs[1]], []);
      assert [bs[0], bs[1]] + [] == bs;
    } else {
      DecodeEncodeSingle(bs[0]);
      DecodeCons(s, [bs[0]], []);
      assert [bs[0]] + [] == bs;
    }
  }

  /** Decoding undoes encoding, so Encode is injective. */
  lemma {:induction false} DecodeEncode(bs: seq<byte>)
    ensures Decode(Encode(bs)) == Some(bs)
    decreases |bs|
  {
    if |bs| >= 3 {
      DecodeEncode(bs[3..]);
      DecodeFullGroup(bs);
    } else if |bs| >= 1 {
      DecodePaddedGroup(bs);
    }
  }

  lemma EncodeInjective(bs: seq<byte>, cs: seq<byte>)
    requires Encode(bs) == Encode(cs)
    ensures bs == cs
  {
    DecodeEncode(bs);
    DecodeEncode(cs);
  }
}
