/**
 * UTF-8, as encodeURI and decodeURIComponent use it (the Encode and Decode
 * operations, sections 19.2.6.5 and 19.2.6.6 of ECMAScript 2023, which defer
 * to the Unicode Standard's table 3-7 of well-formed byte sequences).
 */
module Utf8 {
  import opened Options

  type Byte = b: int | 0 <= b < 0x100

  /** A Unicode scalar value: a code point that is not a surrogate. */
  predicate IsScalarValue(v: int) {
    0 <= v < 0xD800 || 0xE000 <= v < 0x11_0000
  }

  /** The number of leading 1 bits of an octet. */
  function LeadingOnes(b: Byte): nat {
    if b < 0x80 then 0
    else if b < 0xC0 then 1
    else if b < 0xE0 then 2
    else if b < 0xF0 then 3
    else if b < 0xF8 then 4
    else if b < 0xFC then 5
    else if b < 0xFE then 6
    else if b < 0xFF then 7
    else 8
  }

  /** A continuation octet, 10xxxxxx. */
  predicate IsContinuation(b: Byte) {
    0x80 <= b < 0xC0
  }

  /** The smallest code point that needs an `n`-octet sequence. */
  function MinCodePoint(n: nat): int {
    if n <= 1 then 0 else if n == 2 then 0x80 else if n == 3 then 0x800 else 0x1_0000
  }

  /** The code point spelled by the payload bits of a 2 to 4 octet sequence. */
  function PayloadValue(os: seq<Byte>): int
    requires 2 <= |os| <= 4 && LeadingOnes(os[0]) == |os|
    requires forall k | 1 <= k < |os| :: IsContinuation(os[k])
  {
    var b0: int := os[0];
    var c1: int := os[1] as int - 0x80;
    if |os| == 2 then (b0 - 0xC0) * 64 + c1
    else
      var c2: int := os[2] as int - 0x80;
      if |os| == 3 then ((b0 - 0xE0) * 64 + c1) * 64 + c2
      else (((b0 - 0xF0) * 64 + c1) * 64 + c2) * 64 + (os[3] as int - 0x80)
  }

  /** The shortest UTF-8 encoding of a scalar value. */
  function Encode(c: char): (os: seq<Byte>)
    ensures 1 <= |os| <= 4
    ensures |os| == 1 <==> c as int < 0x80
    ensures |os| == 1 ==> os[0] == c as int
    ensures |os| > 1 ==> LeadingOnes(os[0]) == |os|
    ensures forall k :: 1 <= k < |os| ==> IsContinuation(os[k])
  {
    var v := c as int;
    var w := v / 64;
    var x := w / 64;
    if v < 0x80 then [v]
    else if v < 0x800 then [0xC0 + w, 0x80 + v % 64]
    else if v < 0x1_0000 then [0xE0 + x, 0x80 + w % 64, 0x80 + v % 64]
    else [0xF0 + x / 64, 0x80 + x % 64, 0x80 + w % 64, 0x80 + v % 64]
  }

  /**
   * Decodes the octets of one multi-octet sequence, or `None` when they are
   * not a valid UTF-8 encoding of a code point: a wrong lead octet, a
   * non-continuation octet, an overlong form, a surrogate or a value above
   * U+10FFFF.
   */
  function DecodeSequence(os: seq<Byte>): Option<char>
    requires 2 <= |os| <= 4
  {
    if LeadingOnes(os[0]) != |os| then None
    else if !(forall k | 1 <= k < |os| :: IsContinuation(os[k])) then None
    else
      var v := PayloadValue(os);
      if v < MinCodePoint(|os|) || !IsScalarValue(v) then None else Some(v as char)
  }

  /** Every multi-octet encoding decodes back to its character. */
  lemma DecodeEncode(c: char)
    requires c as int >= 0x80
    ensures DecodeSequence(Encode(c)) == Some(c)
  {
    var v := c as int;
    var w := v / 64;
    var x := w / 64;
    assert v == w * 64 + v % 64;
    assert w == x * 64 + w % 64;
    assert x == (x / 64) * 64 + x % 64;
    assert PayloadValue(Encode(c)) == v;
  }

  /** The decoder accepts only shortest-form encodings: what it decodes, Encode produces. */
  lemma EncodeDecode(os: seq<Byte>, c: char)
    requires 2 <= |os| <= 4
    requires DecodeSequence(os) == Some(c)
    ensures Encode(c) == os
  {
    var v := c as int;
    var w := v / 64;
    var x := w / 64;
    var c1: int := os[1] as int - 0x80;
    if |os| == 2 {
      assert v == (os[0] - 0xC0) * 64 + c1;
      assert w == os[0] - 0xC0 && v % 64 == c1;
    } else if |os| == 3 {
      var c2: int := os[2] as int - 0x80;
      assert v == ((os[0] - 0xE0) * 64 + c1) * 64 + c2;
      assert w == (os[0] - 0xE0) * 64 + c1 && v % 64 == c2;
      assert x == os[0] - 0xE0 && w % 64 == c1;
    } else {
      var c2: int := os[2] as int - 0x80;
      var c3: int := os[3] as int - 0x80;
      assert v == (((os[0] - 0xF0) * 64 + c1) * 64 + c2) * 64 + c3;
      assert w == ((os[0] - 0xF0) * 64 + c1) * 64 + c2 && v % 64 == c3;
      assert x == (os[0] - 0xF0) * 64 + c1 && w % 64 == c2;
      assert x / 64 == os[0] - 0xF0 && x % 64 == c1;
    }
  }
}
