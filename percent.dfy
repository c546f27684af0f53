/**
 * Percent-encoding as ECMAScript's encodeURIComponent and decodeURIComponent
 * perform it (ECMA-262 5.1, sections 15.1.3.2 and 15.1.3.4, built on the
 * Encode and Decode operations of section 15.1.3). Strings are sequences of
 * Unicode scalar values; a character outside the unreserved set becomes the
 * `%XY` escapes of its UTF-8 octets, with upper-case hexadecimal digits.
 * A failed decode (ECMAScript throws URIError) is `None`.
 */
module Percent {
  import opened Wrappers

  /** The characters encodeURIComponent leaves alone: uriAlpha, DecimalDigit and uriMark. */
  predicate Unreserved(c: char) {
    ('A' <= c <= 'Z') || ('a' <= c <= 'z') || ('0' <= c <= '9') ||
    c == '-' || c == '_' || c == '.' || c == '!' || c == '~' || c == '*' ||
    c == '\'' || c == '(' || c == ')'
  }

  const HexDigits: string := "0123456789ABCDEF"

  function HexDigit(n: nat): char
    requires n < 16
  {
    HexDigits[n]
  }

  function HexValue(c: char): (r: Option<nat>)
    ensures r.Some? ==> r.value < 16
    ensures r.Some? <==> ('0' <= c <= '9' || 'A' <= c <= 'F' || 'a' <= c <= 'f')
  {
    if '0' <= c <= '9' then Some(c as nat - '0' as nat)
    else if 'A' <= c <= 'F' then Some(c as nat - 'A' as nat + 10)
    else if 'a' <= c <= 'f' then Some(c as nat - 'a' as nat + 10)
    else None
  }

  type Octet = n: nat | n < 256

  /** The UTF-8 octets of a Unicode scalar value. */
  function Utf8(c: char): (octets: seq<Octet>)
    ensures 1 <= |octets| <= 4
    ensures |octets| == 1 <==> (c as int) < 0x80
  {
    var cp := c as int;
    if cp < 0x80 then [cp]
    else if cp < 0x800 then [0xC0 + cp / 64, 0x80 + cp % 64]
    else if cp < 0x10000 then [0xE0 + cp / 4096, 0x80 + (cp / 64) % 64, 0x80 + cp % 64]
    else [0xF0 + cp / 262144, 0x80 + (cp / 4096) % 64, 0x80 + (cp / 64) % 64, 0x80 + cp % 64]
  }

  function EscapeOctet(b: Octet): string {
    ['%', HexDigit(b / 16), HexDigit(b % 16)]
  }

  function EscapeOctets(bs: seq<Octet>): (r: string)
    ensures |r| == 3 * |bs|
  {
    if bs == [] then [] else EscapeOctet(bs[0]) + EscapeOctets(bs[1..])
  }

  /** encodeURIComponent applied to a single character. */
  function EncodeChar(c: char): (r: string)
    ensures r == [c] <==> Unreserved(c)
    ensures Unreserved(c) || (r != [] && r[0] == '%')
  {
    if Unreserved(c) then [c] else EscapeOctets(Utf8(c))
  }

  /** encodeURIComponent. */
  function Encode(s: string): (r: string)
    ensures |r| >= |s|
    ensures s == [] <==> r == []
    ensures forall i :: 0 <= i < |r| ==> Unreserved(r[i]) || r[i] == '%' || r[i] in HexDigits
  {
    if s == [] then []
    else
      var head := EncodeChar(s[0]);
      assert forall i :: 0 <= i < |head| ==> Unreserved(head[i]) || head[i] == '%' || head[i] in HexDigits by {
        if !Unreserved(s[0]) { EscapeOctetsAlphabet(Utf8(s[0])); }
      }
      head + Encode(s[1..])
  }

  lemma {:induction false} EscapeOctetsAlphabet(bs: seq<Octet>)
    ensures forall i :: 0 <= i < |EscapeOctets(bs)| ==>
      EscapeOctets(bs)[i] == '%' || EscapeOctets(bs)[i] in HexDigits
  {
    if bs != [] {
      EscapeOctetsAlphabet(bs[1..]);
      var e := EscapeOctets(bs);
      assert e == EscapeOctet(bs[0]) + EscapeOctets(bs[1..]);
      forall i | 0 <= i < |e| ensures e[i] == '%' || e[i] in HexDigits {
        if i >= 3 { assert e[i] == EscapeOctets(bs[1..])[i - 3]; }
      }
    }
  }

  /** The octet written as `%XY` at position k of s, if there is one there. */
  function OctetAt(s: string, k: nat): (r: Option<Octet>)
    ensures r.Some? ==> k + 3 <= |s| && s[k] == '%'
  {
    if k + 3 <= |s| && s[k] == '%' then
      match (HexValue(s[k + 1]), HexValue(s[k + 2]))
      case (Some(hi), Some(lo)) => Some(hi * 16 + lo)
      case _ => None
    else None
  }

  /** How many octets a UTF-8 sequence starting with `lead` has; 0 when `lead` cannot start one. */
  function SequenceLength(lead: Octet): (n: nat)
    ensures n <= 4
  {
    if lead < 0x80 then 1
    else if lead < 0xC0 then 0
    else if lead < 0xE0 then 2
    else if lead < 0xF0 then 3
    else if lead < 0xF8 then 4
    else 0
  }

  /** The payload bits of the lead octet of an n-octet sequence. */
  function LeadBits(lead: Octet, n: nat): nat {
    if n == 2 then lead % 32 else if n == 3 then lead % 16 else lead % 8
  }

  /** The smallest code point an n-octet sequence may encode (shorter forms are overlong). */
  function MinCodePoint(n: nat): nat {
    if n == 2 then 0x80 else if n == 3 then 0x800 else 0x10000
  }

  predicate IsScalar(cp: int) {
    0 <= cp < 0xD800 || 0xE000 <= cp < 0x110000
  }

  /**
   * Reads `count` continuation octets (10xxxxxx) written as `%XY` from position k on,
   * shifting each one's six payload bits into `acc`.
   */
  function Continue(s: string, k: nat, count: nat, acc: nat): (r: Option<nat>)
    ensures r.Some? && count > 0 ==> k + 3 * count <= |s|
    decreases count
  {
    if count == 0 then Some(acc)
    else match OctetAt(s, k)
      case Some(b) =>
        if 0x80 <= b < 0xC0 then Continue(s, k + 3, count - 1, acc * 64 + b % 64) else None
      case None => None
  }

  /**
   * Decodes the character at the front of s: the character and how many
   * characters of s it took. `None` where decodeURIComponent throws URIError:
   * a `%` without two hexadecimal digits, an octet that cannot start a UTF-8
   * sequence, a missing or wrong continuation octet, an overlong form, a
   * surrogate or a code point above U+10FFFF.
   */
  function DecodeOne(s: string): (r: Option<(char, nat)>)
    requires s != []
    ensures r.Some? ==> 1 <= r.value.1 <= |s|
    ensures s[0] != '%' ==> r == Some((s[0], 1))
  {
    if s[0] != '%' then Some((s[0], 1))
    else match OctetAt(s, 0)
      case None => None
      case Some(b) =>
        var n := SequenceLength(b);
        if n == 0 then None
        else if n == 1 then Some((b as char, 3))
        else match Continue(s, 3, n - 1, LeadBits(b, n))
          case None => None
          case Some(cp) =>
            if MinCodePoint(n) <= cp && IsScalar(cp) then Some((cp as char, 3 * n)) else None
  }

  /** decodeURIComponent: every escape sequence is decoded, reserved characters included. */
  function Decode(s: string): (r: Option<string>)
    ensures r.Some? ==> |r.value| <= |s|
    ensures r.Some? ==> (r.value == [] <==> s == [])
    decreases |s|
  {
    if s == [] then Some([])
    else match DecodeOne(s)
      case None => None
      case Some((c, k)) =>
        match Decode(s[k..])
        case None => None
        case Some(t) => Some([c] + t)
  }

  lemma HexRoundTrip(n: nat)
    requires n < 16
    ensures HexValue(HexDigit(n)) == Some(n)
  {
  }

  lemma OctetAtEscape(s: string, k: nat, b: Octet)
    requires k + 3 <= |s| && s[k..k + 3] == EscapeOctet(b)
    ensures OctetAt(s, k) == Some(b)
  {
    assert s[k] == '%' && s[k + 1] == HexDigit(b / 16) && s[k + 2] == HexDigit(b % 16);
    HexRoundTrip(b / 16);
    HexRoundTrip(b % 16);
  }

  lemma {:induction false} EscapeOctetsAt(bs: seq<Octet>, j: nat)
    requires j < |bs|
    ensures EscapeOctets(bs)[3 * j..3 * j + 3] == EscapeOctet(bs[j])
  {
    assert EscapeOctets(bs) == EscapeOctet(bs[0]) + EscapeOctets(bs[1..]);
    if j > 0 {
      EscapeOctetsAt(bs[1..], j - 1);
    }
  }

  lemma OctetAtEscaped(bs: seq<Octet>, rest: string, j: nat)
    requires j < |bs|
    ensures OctetAt(EscapeOctets(bs) + rest, 3 * j) == Some(bs[j])
  {
    var s := EscapeOctets(bs) + rest;
    EscapeOctetsAt(bs, j);
    assert s[3 * j..3 * j + 3] == EscapeOctets(bs)[3 * j..3 * j + 3];
    OctetAtEscape(s, 3 * j, bs[j]);
  }

  /** The octets of an encoded character decode back to exactly that character. */
  lemma DecodeOneEncodeChar(c: char, rest: string)
    ensures DecodeOne(EncodeChar(c) + rest) == Some((c, |EncodeChar(c)|))
  {
    if !Unreserved(c) {
      var bs := Utf8(c);
      OctetAtEscaped(bs, rest, 0);
      if |bs| == 1 {
        assert bs[0] == c as int;
      } else if |bs| == 2 {
        DecodeTwoOctets(c, rest);
      } else if |bs| == 3 {
        DecodeThreeOctets(c, rest);
      } else {
        DecodeFourOctets(c, rest);
      }
    }
  }

  lemma DecodeTwoOctets(c: char, rest: string)
    requires 0x80 <= c as int < 0x800
    ensures DecodeOne(EscapeOctets(Utf8(c)) + rest) == Some((c, 6))
  {
    var bs, cp := Utf8(c), c as int;
    var s := EscapeOctets(bs) + rest;
    OctetAtEscaped(bs, rest, 0);
    OctetAtEscaped(bs, rest, 1);
    DecodeTwoOctetsAt(s, cp, bs[0], bs[1]);
  }

  lemma DecodeTwoOctetsAt(s: string, cp: int, b0: Octet, b1: Octet)
    requires 0x80 <= cp < 0x800
    requires b0 == 0xC0 + cp / 64 && b1 == 0x80 + cp % 64
    requires OctetAt(s, 0) == Some(b0) && OctetAt(s, 3) == Some(b1)
    ensures DecodeOne(s) == Some((cp as char, 6))
  {
    TwoOctetArithmetic(cp);
    ContinueStep(s, 3, 1, b0 % 32, b1);
    DecodeOneSequence(s, b0, 2, cp);
  }

  lemma TwoOctetArithmetic(cp: int)
    requires 0x80 <= cp < 0x800
    ensures (0xC0 + cp / 64) % 32 == cp / 64
    ensures (0x80 + cp % 64) % 64 == cp % 64
    ensures ((0xC0 + cp / 64) % 32) * 64 + (0x80 + cp % 64) % 64 == cp
  {
  }

  lemma DecodeThreeOctets(c: char, rest: string)
    requires 0x800 <= c as int < 0x10000
    ensures DecodeOne(EscapeOctets(Utf8(c)) + rest) == Some((c, 9))
  {
    var bs, cp := Utf8(c), c as int;
    var s := EscapeOctets(bs) + rest;
    OctetAtEscaped(bs, rest, 0);
    OctetAtEscaped(bs, rest, 1);
    OctetAtEscaped(bs, rest, 2);
    DecodeThreeOctetsAt(s, cp, bs[0], bs[1], bs[2]);
  }

  lemma DecodeThreeOctetsAt(s: string, cp: int, b0: Octet, b1: Octet, b2: Octet)
    requires 0x800 <= cp < 0x10000 && IsScalar(cp)
    requires b0 == 0xE0 + cp / 4096 && b1 == 0x80 + (cp / 64) % 64 && b2 == 0x80 + cp % 64
    requires OctetAt(s, 0) == Some(b0) && OctetAt(s, 3) == Some(b1) && OctetAt(s, 6) == Some(b2)
    ensures DecodeOne(s) == Some((cp as char, 9))
  {
    ThreeOctetArithmetic(cp);
    ContinueStep(s, 3, 2, b0 % 16, b1);
    ContinueStep(s, 6, 1, (b0 % 16) * 64 + b1 % 64, b2);
    DecodeOneSequence(s, b0, 3, cp);
  }

  lemma ThreeOctetArithmetic(cp: int)
    requires 0x800 <= cp < 0x10000
    ensures (0xE0 + cp / 4096) % 16 == cp / 4096
    ensures (0x80 + (cp / 64) % 64) % 64 == (cp / 64) % 64
    ensures (0x80 + cp % 64) % 64 == cp % 64
    ensures (((0xE0 + cp / 4096) % 16) * 64 + (0x80 + (cp / 64) % 64) % 64) * 64 + (0x80 + cp % 64) % 64 == cp
  {
  }

  lemma ShiftDigits(x: int, d: int)
    requires x >= 0 && d > 0
    ensures (x / d) * d + x % d == x
  {
  }

  lemma ContinueStep(s: string, k: nat, count: nat, acc: nat, b: Octet)
    requires count > 0 && OctetAt(s, k) == Some(b) && 0x80 <= b < 0xC0
    ensures Continue(s, k, count, acc) == Continue(s, k + 3, count - 1, acc * 64 + b % 64)
  {
  }

  lemma DecodeOneSequence(s: string, b: Octet, n: nat, cp: nat)
    requires s != [] && OctetAt(s, 0) == Some(b) && SequenceLength(b) == n && n >= 2
    requires Continue(s, 3, n - 1, LeadBits(b, n)) == Some(cp)
    requires MinCodePoint(n) <= cp && IsScalar(cp)
    ensures DecodeOne(s) == Some((cp as char, 3 * n))
  {
  }

  lemma FourOctetArithmetic(cp: int)
    requires 0x10000 <= cp < 0x110000
    ensures (cp / 262144) * 64 + (cp / 4096) % 64 == cp / 4096
    ensures (cp / 4096) * 64 + (cp / 64) % 64 == cp / 64
    ensures (cp / 64) * 64 + cp % 64 == cp
    ensures (0x80 + (cp / 4096) % 64) % 64 == (cp / 4096) % 64
    ensures (0x80 + (cp / 64) % 64) % 64 == (cp / 64) % 64
    ensures (0x80 + cp % 64) % 64 == cp % 64
    ensures (0xF0 + cp / 262144) % 8 == cp / 262144
    ensures ((((0xF0 + cp / 262144) % 8) * 64 + (0x80 + (cp / 4096) % 64) % 64) * 64
             + (0x80 + (cp / 64) % 64) % 64) * 64 + (0x80 + cp % 64) % 64 == cp
  {
  }

  lemma DecodeFourOctets(c: char, rest: string)
    requires 0x10000 <= c as int
    ensures DecodeOne(EscapeOctets(Utf8(c)) + rest) == Some((c, 12))
  {
    var bs, cp := Utf8(c), c as int;
    var s := EscapeOctets(bs) + rest;
    OctetAtEscaped(bs, rest, 0);
    OctetAtEscaped(bs, rest, 1);
    OctetAtEscaped(bs, rest, 2);
    OctetAtEscaped(bs, rest, 3);
    DecodeFourOctetsAt(s, cp, bs[0], bs[1], bs[2], bs[3]);
  }

  lemma DecodeFourOctetsAt(s: string, cp: int, b0: Octet, b1: Octet, b2: Octet, b3: Octet)
    requires 0x10000 <= cp < 0x110000
    requires b0 == 0xF0 + cp / 262144 && b1 == 0x80 + (cp / 4096) % 64
    requires b2 == 0x80 + (cp / 64) % 64 && b3 == 0x80 + cp % 64
    requires OctetAt(s, 0) == Some(b0) && OctetAt(s, 3) == Some(b1)
    requires OctetAt(s, 6) == Some(b2) && OctetAt(s, 9) == Some(b3)
    ensures DecodeOne(s) == Some((cp as char, 12))
  {
    FourOctetArithmetic(cp);
    ContinueThree(s, b0 % 8, b1, b2, b3);
    DecodeOneSequence(s, b0, 4, cp);
  }

  lemma ContinueThree(s: string, a0: nat, b1: Octet, b2: Octet, b3: Octet)
    requires OctetAt(s, 3) == Some(b1) && OctetAt(s, 6) == Some(b2) && OctetAt(s, 9) == Some(b3)
    requires 0x80 <= b1 < 0xC0 && 0x80 <= b2 < 0xC0 && 0x80 <= b3 < 0xC0
    ensures Continue(s, 3, 3, a0) == Some(((a0 * 64 + b1 % 64) * 64 + b2 % 64) * 64 + b3 % 64)
  {
    ContinueStep(s, 3, 3, a0, b1);
    ContinueStep(s, 6, 2, a0 * 64 + b1 % 64, b2);
    ContinueStep(s, 9, 1, (a0 * 64 + b1 % 64) * 64 + b2 % 64, b3);
  }

  /** decodeURIComponent undoes encodeURIComponent. */
  lemma {:induction false} DecodeEncode(s: string)
    ensures Decode(Encode(s)) == Some(s)
  {
    if s != [] {
      var head := EncodeChar(s[0]);
      var e := Encode(s);
      assert e == head + Encode(s[1..]);
      DecodeOneEncodeChar(s[0], Encode(s[1..]));
      assert e[|head|..] == Encode(s[1..]);
      DecodeEncode(s[1..]);
      assert e != [];
      assert Decode(e) == Some([s[0]] + s[1..]);
      assert [s[0]] + s[1..] == s;
    }
  }

  /** Text without `%` decodes to itself. */
  lemma {:induction false} DecodeWithoutPercent(s: string)
    requires '%' !in s
    ensures Decode(s) == Some(s)
  {
    if s != [] {
      assert s[0] != '%';
      assert forall x | x in s[1..] :: x in s;
      DecodeWithoutPercent(s[1..]);
      assert s == [s[0]] + s[1..];
    }
  }

  /** Encoding is a homomorphism over concatenation. */
  lemma {:induction false} EncodeAppend(a: string, b: string)
    ensures Encode(a + b) == Encode(a) + Encode(b)
  {
    if a == [] {
      assert a + b == b;
    } else {
      assert (a + b)[0] == a[0];
      assert (a + b)[1..] == a[1..] + b;
      EncodeAppend(a[1..], b);
    }
  }
}
