/**
 * `encodeURIComponent` (ECMAScript's Encode with the component's unescaped
 * set): every character outside `A-Z a-z 0-9 - _ . ! ~ * ' ( )` is written as
 * the UTF-8 bytes of its code point, each byte as `%` and two upper-case hex
 * digits (the percent-encoding of section 2.1 of RFC 3986).
 * `decodeURIComponent` is its inverse and is the partner the round trip is
 * proved against.
 */
module Uri {
  import opened Wrappers
  import Ascii

  type Byte = b: int | 0 <= b < 256

  /** The characters `encodeURIComponent` leaves as they are. */
  predicate IsUnreserved(c: char)
  {
    Ascii.IsLower(c) || Ascii.IsUpper(c) || Ascii.IsDigit(c) || c in "-_.!~*'()"
  }

  predicate IsHexDigit(c: char)
  {
    Ascii.IsDigit(c) || 'A' <= c <= 'F' || 'a' <= c <= 'f'
  }

  /** The upper-case hex digit of `d`. */
  function HexDigit(d: nat): (h: char)
    requires d < 16
    ensures IsHexDigit(h) && !Ascii.IsLower(h)
  {
    if d < 10 then (48 + d) as char else (55 + d) as char
  }

  /** The value of a hex digit of either case. */
  function HexValue(h: char): (d: nat)
    requires IsHexDigit(h)
    ensures d < 16
  {
    if Ascii.IsDigit(h) then h as int - 48
    else if 'A' <= h <= 'F' then h as int - 55
    else h as int - 87
  }

  lemma HexRoundTrip(d: nat)
    requires d < 16
    ensures HexValue(HexDigit(d)) == d
  {
  }

  /** The UTF-8 encoding of one code point. */
  function Utf8(c: char): (bytes: seq<Byte>)
    ensures 1 <= |bytes| <= 4
  {
    var v := c as int;
    if v < 0x80 then [v]
    else if v < 0x800 then [0xC0 + v / 64, 0x80 + v % 64]
    else if v < 0x10000 then [0xE0 + v / 4096, 0x80 + v / 64 % 64, 0x80 + v % 64]
    else [0xF0 + v / 262144, 0x80 + v / 4096 % 64, 0x80 + v / 64 % 64, 0x80 + v % 64]
  }

  /** `%XX` for one byte. */
  function PercentByte(b: Byte): string
  {
    ['%', HexDigit(b / 16), HexDigit(b % 16)]
  }

  function PercentBytes(bytes: seq<Byte>): (r: string)
    ensures |r| == 3 * |bytes|
  {
    if bytes == [] then [] else PercentByte(bytes[0]) + PercentBytes(bytes[1..])
  }

  /** One character of `encodeURIComponent`'s output. */
  function EncodeChar(c: char): string
  {
    if IsUnreserved(c) then [c] else PercentBytes(Utf8(c))
  }

  /** `encodeURIComponent(s)`. */
  function Encode(s: string): string
  {
    if s == [] then [] else EncodeChar(s[0]) + Encode(s[1..])
  }

  /** Every `%` is followed by two hex digits for which `digit` holds. */
  predicate EscapesFollowedBy(s: string, digit: char -> bool)
  {
    forall i :: 0 <= i < |s| && s[i] == '%' ==> i + 2 < |s| && digit(s[i + 1]) && digit(s[i + 2])
  }

  predicate IsUpperHexDigit(c: char)
  {
    Ascii.IsDigit(c) || 'A' <= c <= 'F'
  }

  /** Only unreserved characters and `%` appear in a component. */
  predicate IsEncoded(s: string)
  {
    forall i :: 0 <= i < |s| ==> IsUnreserved(s[i]) || s[i] == '%'
  }

  lemma PercentByteShape(b: Byte)
    ensures IsEncoded(PercentByte(b)) && EscapesFollowedBy(PercentByte(b), IsUpperHexDigit)
  {
  }

  lemma {:induction false} PercentBytesShape(bytes: seq<Byte>)
    ensures IsEncoded(PercentBytes(bytes))
    ensures EscapesFollowedBy(PercentBytes(bytes), IsUpperHexDigit)
  {
    if bytes != [] {
      PercentByteShape(bytes[0]);
      PercentBytesShape(bytes[1..]);
      EncodedAppend(PercentByte(bytes[0]), PercentBytes(bytes[1..]));
    }
  }

  lemma EncodeCharShape(c: char)
    ensures IsEncoded(EncodeChar(c))
    ensures EscapesFollowedBy(EncodeChar(c), IsUpperHexDigit)
  {
    if !IsUnreserved(c) {
      PercentBytesShape(Utf8(c));
    }
  }

  lemma EncodedAppend(x: string, y: string)
    requires IsEncoded(x) && IsEncoded(y)
    requires EscapesFollowedBy(x, IsUpperHexDigit) && EscapesFollowedBy(y, IsUpperHexDigit)
    ensures IsEncoded(x + y) && EscapesFollowedBy(x + y, IsUpperHexDigit)
  {
    var r := x + y;
    forall i | 0 <= i < |r| && r[i] == '%'
      ensures i + 2 < |r| && IsUpperHexDigit(r[i + 1]) && IsUpperHexDigit(r[i + 2])
    {
      if i >= |x| {
        assert r[i] == y[i - |x|] && r[i + 1] == y[i + 1 - |x|] && r[i + 2] == y[i + 2 - |x|];
      } else {
        assert r[i] == x[i] && r[i + 1] == x[i + 1] && r[i + 2] == x[i + 2];
      }
    }
  }

  /**
   * The output of `encodeURIComponent` holds only unreserved characters and
   * escapes, and every escape is `%` with two upper-case hex digits.
   */
  lemma {:induction false} EncodeShape(s: string)
    ensures IsEncoded(Encode(s))
    ensures EscapesFollowedBy(Encode(s), IsUpperHexDigit)
  {
    if s != [] {
      EncodeCharShape(s[0]);
      EncodeShape(s[1..]);
      EncodedAppend(EncodeChar(s[0]), Encode(s[1..]));
    }
  }

  /** A character `encodeURIComponent` always escapes does not occur in its output. */
  lemma EncodeLacks(s: string, c: char)
    requires !IsUnreserved(c) && c != '%'
    ensures c !in Encode(s)
  {
    EncodeShape(s);
    var e := Encode(s);
    assert forall i :: 0 <= i < |e| ==> e[i] != c;
  }

  // ---------------------------------------------------------------------
  // decodeURIComponent

  /** The byte written as `%XX` at the front of `s`, if there is one. */
  function ByteAt(s: string, i: nat): (b: Option<Byte>)
  {
    if i + 3 <= |s| && s[i] == '%' && IsHexDigit(s[i + 1]) && IsHexDigit(s[i + 2])
    then Some(HexValue(s[i + 1]) * 16 + HexValue(s[i + 2]))
    else None
  }

  predicate IsContinuation(b: Option<Byte>)
  {
    b.Some? && 0x80 <= b.value < 0xC0
  }

  /** The number of bytes of a UTF-8 sequence that starts with `b`; 0 if none starts so. */
  function SequenceLength(b: Byte): nat
  {
    if b < 0x80 then 1
    else if 0xC0 <= b < 0xE0 then 2
    else if 0xE0 <= b < 0xF0 then 3
    else if 0xF0 <= b < 0xF8 then 4
    else 0
  }

  /** The smallest code point a sequence of `n` bytes may encode (shorter is overlong). */
  function MinCodePoint(n: nat): nat
  {
    if n <= 1 then 0 else if n == 2 then 0x80 else if n == 3 then 0x800 else 0x10000
  }

  /** Decodes one escaped UTF-8 sequence at the front of `s`: the character and the text it takes. */
  function DecodeEscape(s: string): (r: Option<(char, nat)>)
    ensures r.Some? ==> 3 <= r.value.1 <= |s|
  {
    var lead := ByteAt(s, 0);
    if lead.None? then None
    else
      var n := SequenceLength(lead.value);
      if n == 0 || |s| < 3 * n then None
      else if n >= 2 && !IsContinuation(ByteAt(s, 3)) then None
      else if n >= 3 && !IsContinuation(ByteAt(s, 6)) then None
      else if n >= 4 && !IsContinuation(ByteAt(s, 9)) then None
      else
        var v :=
          if n == 1 then lead.value
          else if n == 2 then (lead.value - 0xC0) * 64 + (ByteAt(s, 3).value - 0x80)
          else if n == 3 then
            (lead.value - 0xE0) * 4096 + (ByteAt(s, 3).value - 0x80) * 64 + (ByteAt(s, 6).value - 0x80)
          else
            (lead.value - 0xF0) * 262144 + (ByteAt(s, 3).value - 0x80) * 4096
            + (ByteAt(s, 6).value - 0x80) * 64 + (ByteAt(s, 9).value - 0x80);
        if v < MinCodePoint(n) || 0xD800 <= v < 0xE000 || v >= 0x110000 then None
        else Some((v as char, 3 * n))
  }

  function Prepend(c: char, rest: Option<string>): Option<string>
  {
    if rest.None? then None else Some([c] + rest.value)
  }

  /** `decodeURIComponent(s)`; `None` where it throws a `URIError`. */
  function Decode(s: string): Option<string>
    decreases |s|
  {
    if s == [] then Some([])
    else if s[0] != '%' then Prepend(s[0], Decode(s[1..]))
    else
      match DecodeEscape(s)
      case None => None
      case Some((c, n)) => Prepend(c, Decode(s[n..]))
  }

  // ---------------------------------------------------------------------
  // The round trip.

  lemma ByteAtPercent(bytes: seq<Byte>, t: string, k: nat)
    requires k < |bytes|
    ensures ByteAt(PercentBytes(bytes) + t, 3 * k) == Some(bytes[k])
    decreases k
  {
    if k == 0 {
      var b := bytes[0];
      HexRoundTrip(b / 16);
      HexRoundTrip(b % 16);
    } else {
      assert PercentBytes(bytes) + t == PercentByte(bytes[0]) + (PercentBytes(bytes[1..]) + t);
      ByteAtPercent(bytes[1..], t, k - 1);
      var s, s' := PercentBytes(bytes) + t, PercentBytes(bytes[1..]) + t;
      assert s[3 * k..3 * k + 3] == s'[3 * (k - 1)..3 * (k - 1) + 3];
    }
  }

  lemma Utf8TwoBytes(v: int)
    requires 0x80 <= v < 0x800
    ensures (0xC0 + v / 64 - 0xC0) * 64 + (0x80 + v % 64 - 0x80) == v
    ensures 0xC0 <= 0xC0 + v / 64 < 0xE0
  {
  }

  lemma Utf8ThreeBytes(v: int)
    requires 0x800 <= v < 0x10000
    ensures (0xE0 + v / 4096 - 0xE0) * 4096 + (0x80 + v / 64 % 64 - 0x80) * 64 + (0x80 + v % 64 - 0x80) == v
    ensures 0xE0 <= 0xE0 + v / 4096 < 0xF0
  {
    var q := v / 64;
    assert v == q * 64 + v % 64;
    assert q / 64 == v / 4096;
    assert q == q / 64 * 64 + q % 64;
  }

  lemma Utf8FourBytes(v: int)
    requires 0x10000 <= v < 0x110000
    ensures (0xF0 + v / 262144 - 0xF0) * 262144 + (0x80 + v / 4096 % 64 - 0x80) * 4096
      + (0x80 + v / 64 % 64 - 0x80) * 64 + (0x80 + v % 64 - 0x80) == v
    ensures 0xF0 <= 0xF0 + v / 262144 < 0xF8
  {
    var q := v / 64;
    var q2 := q / 64;
    assert v == q * 64 + v % 64;
    assert q == q2 * 64 + q % 64;
    assert q2 == v / 4096;
    assert q2 / 64 == v / 262144;
    assert q2 == q2 / 64 * 64 + q2 % 64;
  }

  lemma DecodeOneByte(s: string, v: int)
    requires 0 <= v < 0x80 && |s| >= 3 && ByteAt(s, 0) == Some(v)
    ensures DecodeEscape(s) == Some((v as char, 3))
  {
  }

  lemma DecodeTwoBytes(s: string, v: int)
    requires 0x80 <= v < 0x800 && |s| >= 6
    requires ByteAt(s, 0) == Some(0xC0 + v / 64) && ByteAt(s, 3) == Some(0x80 + v % 64)
    ensures DecodeEscape(s) == Some((v as char, 6))
  {
    Utf8TwoBytes(v);
  }

  lemma DecodeThreeBytes(s: string, v: int)
    requires 0x800 <= v < 0x10000 && !(0xD800 <= v < 0xE000) && |s| >= 9
    requires ByteAt(s, 0) == Some(0xE0 + v / 4096) && ByteAt(s, 3) == Some(0x80 + v / 64 % 64)
    requires ByteAt(s, 6) == Some(0x80 + v % 64)
    ensures DecodeEscape(s) == Some((v as char, 9))
  {
    Utf8ThreeBytes(v);
  }

  lemma DecodeFourBytes(s: string, v: int)
    requires 0x10000 <= v < 0x110000 && |s| >= 12
    requires ByteAt(s, 0) == Some(0xF0 + v / 262144) && ByteAt(s, 3) == Some(0x80 + v / 4096 % 64)
    requires ByteAt(s, 6) == Some(0x80 + v / 64 % 64) && ByteAt(s, 9) == Some(0x80 + v % 64)
    ensures DecodeEscape(s) == Some((v as char, 12))
  {
    Utf8FourBytes(v);
  }

  lemma EscapesOfOneByte(c: char, t: string)
    requires c as int < 0x80
    ensures DecodeEscape(PercentBytes(Utf8(c)) + t) == Some((c, 3))
  {
    ByteAtPercent(Utf8(c), t, 0);
    DecodeOneByte(PercentBytes(Utf8(c)) + t, c as int);
  }

  lemma EscapesOfTwoBytes(c: char, t: string)
    requires 0x80 <= c as int < 0x800
    ensures DecodeEscape(PercentBytes(Utf8(c)) + t) == Some((c, 6))
  {
    ByteAtPercent(Utf8(c), t, 0);
    ByteAtPercent(Utf8(c), t, 1);
    DecodeTwoBytes(PercentBytes(Utf8(c)) + t, c as int);
  }

  lemma EscapesOfThreeBytes(c: char, t: string)
    requires 0x800 <= c as int < 0x10000
    ensures DecodeEscape(PercentBytes(Utf8(c)) + t) == Some((c, 9))
  {
    ByteAtPercent(Utf8(c), t, 0);
    ByteAtPercent(Utf8(c), t, 1);
    ByteAtPercent(Utf8(c), t, 2);
    DecodeThreeBytes(PercentBytes(Utf8(c)) + t, c as int);
  }

  lemma EscapesOfFourBytes(c: char, t: string)
    requires 0x10000 <= c as int
    ensures DecodeEscape(PercentBytes(Utf8(c)) + t) == Some((c, 12))
  {
    ByteAtPercent(Utf8(c), t, 0);
    ByteAtPercent(Utf8(c), t, 1);
    ByteAtPercent(Utf8(c), t, 2);
    ByteAtPercent(Utf8(c), t, 3);
    DecodeFourBytes(PercentBytes(Utf8(c)) + t, c as int);
  }

  /** The escapes of a reserved character decode back to it. */
  lemma DecodeEscapeOfChar(c: char, t: string)
    ensures DecodeEscape(PercentBytes(Utf8(c)) + t) == Some((c, 3 * |Utf8(c)|))
  {
    var v := c as int;
    if v < 0x80 {
      EscapesOfOneByte(c, t);
    } else if v < 0x800 {
      EscapesOfTwoBytes(c, t);
    } else if v < 0x10000 {
      EscapesOfThreeBytes(c, t);
    } else {
      EscapesOfFourBytes(c, t);
    }
  }

  lemma DecodeEncodedChar(c: char, t: string)
    ensures Decode(EncodeChar(c) + t) == Prepend(c, Decode(t))
  {
    if IsUnreserved(c) {
      assert ([c] + t)[1..] == t;
    } else {
      var bytes := Utf8(c);
      DecodeEscapeOfChar(c, t);
      assert (PercentBytes(bytes) + t)[3 * |bytes|..] == t;
    }
  }

  /** `decodeURIComponent(encodeURIComponent(s)) == s`. */
  lemma {:induction false} DecodeEncode(s: string)
    ensures Decode(Encode(s)) == Some(s)
  {
    if s != [] {
      DecodeEncode(s[1..]);
      DecodeEncodedChar(s[0], Encode(s[1..]));
      assert [s[0]] + s[1..] == s;
    }
  }

  /** Different names give different components. */
  lemma EncodeInjective(s: string, s': string)
    requires Encode(s) == Encode(s')
    ensures s == s'
  {
    DecodeEncode(s);
    DecodeEncode(s');
  }
}
