/**
 * encodeURI and decodeURIComponent (sections 19.2.6.3 and 19.2.6.2 of
 * ECMAScript 2023), following the Encode and Decode abstract operations of
 * sections 19.2.6.5 and 19.2.6.6 (percent-encoding of
 * UTF-8 octets as in section 2.1 of RFC 3986). A string is a sequence of
 * Unicode scalar values, so encodeURI's error on an unpaired surrogate has
 * no counterpart here and encodeURI is total.
 */
module Uri {
  import opened Options
  import JsString
  import Utf8

  /** The ASCII word characters: letters, digits and '_'. */
  predicate IsAsciiWordChar(c: char) {
    'A' <= c <= 'Z' || 'a' <= c <= 'z' || '0' <= c <= '9' || c == '_'
  }

  /** Characters that Encode never escapes. */
  predicate IsAlwaysUnescaped(c: char) {
    || IsAsciiWordChar(c)
    || c == '-' || c == '.' || c == '!' || c == '~' || c == '*' || c == '\'' || c == '(' || c == ')'
  }

  /** The extra characters encodeURI leaves alone, ";/?:@&=+$,#": the URI reserved characters and '#'. */
  predicate IsExtraUnescapedByEncodeURI(c: char) {
    || c == ';' || c == '/' || c == '?' || c == ':' || c == '@' || c == '&'
    || c == '=' || c == '+' || c == '$' || c == ',' || c == '#'
  }

  predicate IsUnescapedByEncodeURI(c: char) {
    IsAlwaysUnescaped(c) || IsExtraUnescapedByEncodeURI(c)
  }

  predicate IsUpperHexDigit(c: char) {
    '0' <= c <= '9' || 'A' <= c <= 'F'
  }

  /** The upper-case hexadecimal digit for `d`. */
  function HexDigit(d: int): (r: char)
    requires 0 <= d < 16
    ensures IsUpperHexDigit(r)
  {
    if d < 10 then ('0' as int + d) as char else ('A' as int + d - 10) as char
  }

  /**
   * The value of a hexadecimal digit in either case: the digits are 0-9, a-f
   * and A-F, and a digit is worth the value whose upper-case digit it is once
   * upper-cased.
   */
  function HexDigitValue(c: char): (r: Option<int>)
    ensures r.Some? <==> '0' <= c <= '9' || 'a' <= c <= 'f' || 'A' <= c <= 'F'
    ensures r.Some? ==> 0 <= r.value < 16 && HexDigit(r.value) == JsString.AsciiUpper(c)
  {
    if '0' <= c <= '9' then Some(c as int - '0' as int)
    else if 'a' <= c <= 'f' then Some(c as int - 'a' as int + 10)
    else if 'A' <= c <= 'F' then Some(c as int - 'A' as int + 10)
    else None
  }

  /** ParseHexOctet: the octet spelled by the two hexadecimal digits at `i`. */
  function ParseHexOctet(s: string, i: nat): Option<Utf8.Byte>
    requires i + 2 <= |s|
  {
    match (HexDigitValue(s[i]), HexDigitValue(s[i + 1]))
    case (Some(hi), Some(lo)) => Some(hi * 16 + lo)
    case _ => None
  }

  /** "%XY" for every octet, X and Y upper-case hexadecimal digits. */
  function PercentEncode(os: seq<Utf8.Byte>): (r: string)
    ensures |r| == 3 * |os|
  {
    if os == [] then []
    else ['%', HexDigit(os[0] / 16), HexDigit(os[0] % 16)] + PercentEncode(os[1..])
  }

  /** What Encode appends for one character: itself, or the escapes of its 1 to 4 octets. */
  function EncodeChar(c: char): (r: string)
    ensures 1 <= |r| <= 12
  {
    if IsUnescapedByEncodeURI(c) then [c] else PercentEncode(Utf8.Encode(c))
  }

  /** encodeURI(s): every character becomes itself or 3 to 12 characters of escapes. */
  function EncodeURI(s: string): (r: string)
    ensures |s| <= |r| <= 12 * |s|
  {
    if s == [] then [] else EncodeChar(s[0]) + EncodeURI(s[1..])
  }

  /** Prepends `c` to a decoded remainder, keeping a failure a failure. */
  function Cons(c: char, r: Option<string>): Option<string> {
    match r
    case None => None
    case Some(t) => Some([c] + t)
  }

  /**
   * Reads `m` continuation escapes "%XY" from the start of `s`, or `None`
   * when the string ends early, a '%' is missing or a digit is not hexadecimal.
   */
  function Continuations(s: string, m: nat): (r: Option<seq<Utf8.Byte>>)
    ensures r.Some? ==> |r.value| == m && 3 * m <= |s|
    ensures r.Some? && m > 0 ==> HexDigitValue(s[3 * m - 1]).Some?
  {
    if m == 0 then Some([])
    else if |s| < 3 || s[0] != '%' then None
    else match ParseHexOctet(s, 1)
      case None => None
      case Some(b) =>
        match Continuations(s[3..], m - 1)
        case None => None
        case Some(bs) => Some([b] + bs)
  }

  /**
   * Decodes the escape sequence that starts `s` (at a '%'): the character
   * and the number of characters consumed, or `None` for a URIError. A
   * character `c` comes out exactly when `s` starts with the escapes of the
   * octets of `Utf8.Encode(c)` (see `DecodeEscapeOfOctets` for the converse).
   */
  function DecodeEscape(s: string): (r: Option<(char, nat)>)
    requires |s| > 0 && s[0] == '%'
    ensures r.Some? ==> 3 <= r.value.1 <= |s| && HexDigitValue(s[r.value.1 - 1]).Some?
    ensures r.Some? ==> var os := Utf8.Encode(r.value.0);
      r.value.1 == 3 * |os| && Continuations(s, |os|) == Some(os)
  {
    if |s| < 3 then None
    else match ParseHexOctet(s, 1)
      case None => None
      case Some(b) =>
        var n := Utf8.LeadingOnes(b);
        if n == 0 then
          assert Continuations(s, 1) == Some([b]) by {
            assert Continuations(s[3..], 0) == Some([]);
            assert [b] + [] == [b];
          }
          Some((b as char, 3))
        else if n == 1 || n > 4 then None
        else match Continuations(s[3..], n - 1)
          case None => None
          case Some(bs) =>
            match Utf8.DecodeSequence([b] + bs)
            case None => None
            case Some(c) =>
              Utf8.EncodeDecode([b] + bs, c);
              Some((c, 3 * n))
  }

  /**
   * decodeURIComponent(s): `None` is the URIError on a malformed escape.
   * Decoding never lengthens a string.
   */
  function DecodeURIComponent(s: string): (r: Option<string>)
    decreases |s|
    ensures r.Some? ==> |r.value| <= |s|
  {
    if s == [] then Some([])
    else if s[0] != '%' then Cons(s[0], DecodeURIComponent(s[1..]))
    else match DecodeEscape(s)
      case None => None
      case Some((c, len)) => Cons(c, DecodeURIComponent(s[len..]))
  }

  lemma HexOctetRoundTrip(b: Utf8.Byte, rest: string)
    ensures ParseHexOctet(['%', HexDigit(b / 16), HexDigit(b % 16)] + rest, 1) == Some(b)
  {
  }

  /** One escape in front of `t` adds its octet in front of what `t` continues with. */
  lemma ContinuationsOfEscape(b: Utf8.Byte, t: string, m: nat, bs: seq<Utf8.Byte>)
    requires Continuations(t, m) == Some(bs)
    ensures Continuations(['%', HexDigit(b / 16), HexDigit(b % 16)] + t, m + 1) == Some([b] + bs)
  {
    var s := ['%', HexDigit(b / 16), HexDigit(b % 16)] + t;
    HexOctetRoundTrip(b, t);
    assert s[3..] == t;
  }

  /** The escapes PercentEncode writes are read back as the same octets. */
  lemma {:induction false} ContinuationsOfPercentEncode(os: seq<Utf8.Byte>, rest: string)
    ensures Continuations(PercentEncode(os) + rest, |os|) == Some(os)
  {
    if os != [] {
      var t := PercentEncode(os[1..]) + rest;
      assert PercentEncode(os) + rest == ['%', HexDigit(os[0] / 16), HexDigit(os[0] % 16)] + t;
      ContinuationsOfPercentEncode(os[1..], rest);
      ContinuationsOfEscape(os[0], t, |os| - 1, os[1..]);
      assert [os[0]] + os[1..] == os;
    }
  }

  /** Conversely, a string that starts with the escapes of the octets of `Utf8.Encode(c)` decodes to `c`. */
  lemma DecodeEscapeOfOctets(s: string, c: char)
    requires Continuations(s, |Utf8.Encode(c)|) == Some(Utf8.Encode(c))
    ensures |s| > 0 && s[0] == '%' && DecodeEscape(s) == Some((c, 3 * |Utf8.Encode(c)|))
  {
    var os := Utf8.Encode(c);
    assert ParseHexOctet(s, 1) == Some(os[0]);
    if |os| > 1 {
      assert Continuations(s[3..], |os| - 1) == Some(os[1..]);
      Utf8.DecodeEncode(c);
      assert [os[0]] + os[1..] == os;
    }
  }

  /** The escapes encodeURI writes for an escaped character decode to that character. */
  lemma DecodeEscapeOfEncoding(c: char, rest: string)
    ensures var e := PercentEncode(Utf8.Encode(c));
      |e| > 0 && (e + rest)[0] == '%' && DecodeEscape(e + rest) == Some((c, |e|))
  {
    ContinuationsOfPercentEncode(Utf8.Encode(c), rest);
    DecodeEscapeOfOctets(PercentEncode(Utf8.Encode(c)) + rest, c);
  }

  /** Decoding what EncodeChar wrote for `c` yields `c` and continues after it. */
  lemma DecodeEncodedChar(c: char, rest: string)
    ensures DecodeURIComponent(EncodeChar(c) + rest) == Cons(c, DecodeURIComponent(rest))
  {
    var e := EncodeChar(c);
    var s := e + rest;
    if IsUnescapedByEncodeURI(c) {
      assert s[0] == c && s[1..] == rest;
    } else {
      DecodeEscapeOfEncoding(c, rest);
      assert s[|e|..] == rest;
    }
  }

  /** decodeURIComponent undoes encodeURI on every string. */
  lemma {:induction false} DecodeEncodeURI(s: string)
    ensures DecodeURIComponent(EncodeURI(s)) == Some(s)
  {
    if s != [] {
      DecodeEncodedChar(s[0], EncodeURI(s[1..]));
      DecodeEncodeURI(s[1..]);
      assert [s[0]] + s[1..] == s;
    }
  }

  /**
   * Every character is one encodeURI leaves unescaped, or a '%' followed by
   * two upper-case hexadecimal digits.
   */
  predicate IsEncodedText(t: string) {
    forall i {:trigger t[i]} :: 0 <= i < |t| ==>
      IsUnescapedByEncodeURI(t[i]) || (t[i] == '%' && i + 2 < |t| && IsUpperHexDigit(t[i + 1]) && IsUpperHexDigit(t[i + 2]))
  }

  lemma EncodedTextConcat(a: string, b: string)
    requires IsEncodedText(a) && IsEncodedText(b)
    ensures IsEncodedText(a + b)
  {
    var t := a + b;
    forall i | 0 <= i < |t|
      ensures IsUnescapedByEncodeURI(t[i]) || (t[i] == '%' && i + 2 < |t| && IsUpperHexDigit(t[i + 1]) && IsUpperHexDigit(t[i + 2]))
    {
      if i < |a| {
        assert t[i] == a[i];
        if !IsUnescapedByEncodeURI(a[i]) {
          assert t[i + 1] == a[i + 1] && t[i + 2] == a[i + 2];
        }
      } else {
        var j := i - |a|;
        assert t[i] == b[j];
        if !IsUnescapedByEncodeURI(b[j]) {
          assert t[i + 1] == b[j + 1] && t[i + 2] == b[j + 2];
        }
      }
    }
  }

  /** One escape "%XY" is encoded text: its hexadecimal digits are word characters. */
  lemma EscapeIsEncodedText(b: Utf8.Byte)
    ensures IsEncodedText(['%', HexDigit(b / 16), HexDigit(b % 16)])
  {
    var e := ['%', HexDigit(b / 16), HexDigit(b % 16)];
    assert IsUnescapedByEncodeURI(e[1]) && IsUnescapedByEncodeURI(e[2]);
  }

  /** Everything encodeURI writes is an unescaped character or the '%' of an escape "%XY". */
  lemma {:induction false} EncodeURIAlphabet(s: string)
    ensures IsEncodedText(EncodeURI(s))
  {
    if s != [] {
      EncodeURIAlphabet(s[1..]);
      if !IsUnescapedByEncodeURI(s[0]) {
        PercentEncodeAlphabet(Utf8.Encode(s[0]));
      }
      EncodedTextConcat(EncodeChar(s[0]), EncodeURI(s[1..]));
    }
  }

  lemma {:induction false} PercentEncodeAlphabet(os: seq<Utf8.Byte>)
    ensures IsEncodedText(PercentEncode(os))
  {
    if os != [] {
      PercentEncodeAlphabet(os[1..]);
      EscapeIsEncodedText(os[0]);
      EncodedTextConcat(['%', HexDigit(os[0] / 16), HexDigit(os[0] % 16)], PercentEncode(os[1..]));
    }
  }

  /** encodeURI leaves a string of unescaped characters unchanged. */
  lemma {:induction false} EncodeURIOfUnescaped(s: string)
    requires forall i :: 0 <= i < |s| ==> IsUnescapedByEncodeURI(s[i])
    ensures EncodeURI(s) == s
  {
    if s != [] {
      EncodeURIOfUnescaped(s[1..]);
      assert [s[0]] + s[1..] == s;
    }
  }

  /** decodeURIComponent leaves a string without '%' unchanged and does not fail on it. */
  lemma {:induction false} DecodeWithoutPercent(s: string)
    requires '%' !in s
    ensures DecodeURIComponent(s) == Some(s)
  {
    if s != [] {
      assert s[0] in s;
      assert forall x :: x in s[1..] ==> x in s;
      DecodeWithoutPercent(s[1..]);
      assert [s[0]] + s[1..] == s;
    }
  }

  /** A string that ends in '%' cannot be decoded: decodeURIComponent("100%") throws. */
  lemma {:induction false} DecodeFailsOnTrailingPercent(s: string)
    requires |s| > 0 && s[|s| - 1] == '%'
    ensures DecodeURIComponent(s) == None
  {
    if s[0] != '%' {
      var t := s[1..];
      assert t[|t| - 1] == '%';
      DecodeFailsOnTrailingPercent(t);
    } else {
      match DecodeEscape(s)
      case None =>
      case Some((c, len)) =>
        var t := s[len..];
        assert len < |s|;
        assert t[|t| - 1] == '%';
        DecodeFailsOnTrailingPercent(t);
    }
  }
}
