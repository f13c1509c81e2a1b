/**
 * UTF-8 (RFC 3629, section 3) over Unicode scalar values: the encoding Python's
 * `str.encode()` applies by default. Dafny characters are scalar values, so every
 * string is encodable; the decoder is the partner that makes the encoding injective.
 */
module Utf8 {
  import opened Wrappers

  type byte = x: int | 0 <= x < 256

  /** The 1 to 4 bytes that encode one scalar value. */
  function EncodeChar(c: char): (bs: seq<byte>)
    ensures 1 <= |bs| <= 4
    ensures (c as int < 0x80) <==> |bs| == 1
  {
    var cp := c as int;
    if cp < 0x80 then [cp]
    else if cp < 0x800 then [0xC0 + cp / 64, 0x80 + cp % 64]
    else if cp < 0x10000 then [0xE0 + cp / 4096, 0x80 + cp / 64 % 64, 0x80 + cp % 64]
    else [0xF0 + cp / 262144, 0x80 + cp / 4096 % 64, 0x80 + cp / 64 % 64, 0x80 + cp % 64]
  }

  /** The bytes of a whole string, character by character. */
  function Encode(s: string): (bs: seq<byte>)
    ensures |bs| >= |s|
  {
    if s == [] then [] else EncodeChar(s[0]) + Encode(s[1..])
  }

  /** How many bytes a sequence starting with `lead` occupies; 0 if `lead` cannot start one. */
  function SequenceLength(lead: byte): nat
  {
    if lead < 0x80 then 1
    else if 0xC2 <= lead < 0xE0 then 2
    else if 0xE0 <= lead < 0xF0 then 3
    else if 0xF0 <= lead < 0xF5 then 4
    else 0
  }

  predicate IsContinuation(b: byte) { 0x80 <= b < 0xC0 }

  /** The payload bits of a continuation byte. */
  function Low6(b: byte): int { b as int - 0x80 }

  /** The scalar value a 1- to 4-byte sequence spells out, ignoring validity. */
  function CodePoint(bs: seq<byte>): int
    requires 1 <= |bs| <= 4
  {
    if |bs| == 1 then bs[0] as int
    else if |bs| == 2 then (bs[0] as int - 0xC0) * 64 + Low6(bs[1])
    else if |bs| == 3 then (bs[0] as int - 0xE0) * 4096 + Low6(bs[1]) * 64 + Low6(bs[2])
    else (bs[0] as int - 0xF0) * 262144 + Low6(bs[1]) * 4096 + Low6(bs[2]) * 64 + Low6(bs[3])
  }

  /** The smallest scalar value that needs `n` bytes (smaller ones would be overlong). */
  function Least(n: int): int
  {
    if n == 1 then 0 else if n == 2 then 0x80 else if n == 3 then 0x800 else 0x10000
  }

  predicate IsScalar(cp: int) { 0 <= cp < 0xD800 || 0xE000 <= cp < 0x110000 }

  /** The character a complete byte sequence stands for, if it is well formed and not overlong. */
  function DecodeChar(bs: seq<byte>): Option<char>
  {
    if 1 <= |bs| <= 4 && SequenceLength(bs[0]) == |bs|
       && (forall i :: 1 <= i < |bs| ==> IsContinuation(bs[i]))
       && Least(|bs|) <= CodePoint(bs) && IsScalar(CodePoint(bs))
    then Some(CodePoint(bs) as char)
    else None
  }

  /** The string a byte sequence encodes, or None when it is not valid UTF-8. */
  function Decode(bs: seq<byte>): Option<string>
    decreases |bs|
  {
    if bs == [] then Some([])
    else
      var n := SequenceLength(bs[0]);
      if n == 0 || n > |bs| then None
      else match (DecodeChar(bs[..n]), Decode(bs[n..]))
        case (Some(c), Some(rest)) => Some([c] + rest)
        case _ => None
  }

  lemma CodePointOfEncodeChar(c: char)
    ensures CodePoint(EncodeChar(c)) == c as int
  {
    var cp := c as int;
    if cp < 0x80 {
    } else if cp < 0x800 {
      assert cp / 64 * 64 + cp % 64 == cp;
    } else if cp < 0x10000 {
      assert cp / 4096 * 4096 + cp / 64 % 64 * 64 + cp % 64 == cp;
    } else {
      assert cp / 262144 * 262144 + cp / 4096 % 64 * 4096 + cp / 64 % 64 * 64 + cp % 64 == cp;
    }
  }

  lemma DecodeEncodeChar(c: char)
    ensures SequenceLength(EncodeChar(c)[0]) == |EncodeChar(c)|
    ensures DecodeChar(EncodeChar(c)) == Some(c)
  {
    CodePointOfEncodeChar(c);
  }

  /** Decoding undoes encoding: distinct strings have distinct UTF-8 bytes. */
  lemma {:induction false} DecodeEncode(s: string)
    ensures Decode(Encode(s)) == Some(s)
  {
    if s != [] {
      var head := EncodeChar(s[0]);
      var bs := Encode(s);
      assert bs == head + Encode(s[1..]);
      DecodeEncodeChar(s[0]);
      assert bs[0] == head[0];
      assert bs[..|head|] == head;
      assert bs[|head|..] == Encode(s[1..]);
      DecodeEncode(s[1..]);
      assert [s[0]] + s[1..] == s;
    }
  }

  lemma EncodeInjective(s: string, t: string)
    requires Encode(s) == Encode(t)
    ensures s == t
  {
    DecodeEncode(s);
    DecodeEncode(t);
  }
}
