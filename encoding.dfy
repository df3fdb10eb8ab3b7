/** Byte encodings used by the authentication code: UTF-8 (RFC 3629),
    base64 with the alphabet of section 4 of RFC 4648, the lenient base64
    decoder of Node's `Buffer.from(s, 'base64')`, lowercase hex as
    PHP's `bin2hex` writes it, and the `application/x-www-form-urlencoded`
    serializer and parser of the WHATWG URL Standard (section 5) behind
    `URLSearchParams`. */
module Encoding {
  import opened Values
  import opened Text

  type uint8 = x: int | 0 <= x < 256

  /** The UTF-8 bytes of one Unicode scalar value. */
  function Utf8Char(c: char): (r: seq<uint8>)
    ensures 1 <= |r| <= 4
    ensures |r| == 1 <==> c as int < 128
    ensures |r| == 1 ==> r[0] == c as int
  {
    var n := c as int;
    if n < 0x80 then [n]
    else if n < 0x800 then [0xC0 + n / 64, 0x80 + n % 64]
    else if n < 0x10000 then [0xE0 + n / 4096, 0x80 + (n / 64) % 64, 0x80 + n % 64]
    else [0xF0 + n / 262144, 0x80 + (n / 4096) % 64, 0x80 + (n / 64) % 64, 0x80 + n % 64]
  }

  /** `Buffer.from(s)`: the UTF-8 encoding of a string. */
  function Utf8Encode(s: string): seq<uint8>
    decreases |s|
  {
    if |s| == 0 then [] else Utf8Char(s[0]) + Utf8Encode(s[1..])
  }

  /** An ASCII string encodes to one byte per character, its code. */
  lemma {:induction false} Utf8EncodeAscii(s: string)
    requires IsAscii(s)
    ensures |Utf8Encode(s)| == |s|
    ensures forall i :: 0 <= i < |s| ==> Utf8Encode(s)[i] == s[i] as int
    decreases |s|
  {
    if |s| > 0 {
      Utf8EncodeAscii(s[1..]);
    }
  }

  /** `buf.toString('utf8')`, exact on ASCII bytes; every other byte becomes
      U+FFFD, the replacement character. */
  function Utf8DecodeAscii(b: seq<uint8>): (r: string)
    ensures |r| == |b|
    ensures forall i :: 0 <= i < |b| ==> r[i] == if b[i] < 128 then b[i] as char else '\U{FFFD}'
    decreases |b|
  {
    if |b| == 0 then "" else [if b[0] < 128 then b[0] as char else '\U{FFFD}'] + Utf8DecodeAscii(b[1..])
  }

  /** Decoding the UTF-8 encoding of an ASCII string gives it back. */
  lemma Utf8AsciiRoundTrip(s: string)
    requires IsAscii(s)
    ensures Utf8DecodeAscii(Utf8Encode(s)) == s
  {
    Utf8EncodeAscii(s);
  }

  /** The character for a 6-bit value in the base64 alphabet of RFC 4648, section 4. */
  function SextetChar(v: int): char
    requires 0 <= v < 64
  {
    if v < 26 then ('A' as int + v) as char
    else if v < 52 then ('a' as int + v - 26) as char
    else if v < 62 then ('0' as int + v - 52) as char
    else if v == 62 then '+' else '/'
  }

  /** The 6-bit value Node's decoder gives a character: the standard
      alphabet and its URL-safe variants `-` and `_`; -1 for any other
      character, which the decoder skips. */
  function SextetValue(c: char): int {
    if 'A' <= c <= 'Z' then c as int - 'A' as int
    else if 'a' <= c <= 'z' then c as int - 'a' as int + 26
    else if '0' <= c <= '9' then c as int - '0' as int + 52
    else if c == '+' || c == '-' then 62
    else if c == '/' || c == '_' then 63
    else -1
  }

  lemma SextetRoundTrip(v: int)
    requires 0 <= v < 64
    ensures SextetValue(SextetChar(v)) == v && SextetChar(v) != '='
  {
  }

  /** `Buffer.from(b).toString('base64')`: groups of three bytes become four
      characters; a last group of one or two bytes is padded with `=`. */
  function Base64Encode(b: seq<uint8>): (r: string)
    decreases |b|
  {
    if |b| == 0 then ""
    else if |b| == 1 then [SextetChar(b[0] / 4), SextetChar(b[0] % 4 * 16), '=', '=']
    else if |b| == 2 then
      [SextetChar(b[0] / 4), SextetChar(b[0] % 4 * 16 + b[1] / 16), SextetChar(b[1] % 16 * 4), '=']
    else EncodeGroup(b[0], b[1], b[2]) + Base64Encode(b[3..])
  }

  /** The 6-bit values of a group of three bytes, high bits first. */
  function GroupValues(b0: uint8, b1: uint8, b2: uint8): (q: seq<int>)
    ensures |q| == 4 && AllSextets(q)
  {
    [b0 / 4, b0 % 4 * 16 + b1 / 16, b1 % 16 * 4 + b2 / 64, b2 % 64]
  }

  /** The four characters of a group of three bytes. */
  function EncodeGroup(b0: uint8, b1: uint8, b2: uint8): (r: string)
    ensures |r| == 4
  {
    var q := GroupValues(b0, b1, b2);
    [SextetChar(q[0]), SextetChar(q[1]), SextetChar(q[2]), SextetChar(q[3])]
  }

  /** Every character of an encoding is in the alphabet or is padding. */
  lemma {:induction false} Base64EncodeAlphabet(b: seq<uint8>)
    ensures forall i :: 0 <= i < |Base64Encode(b)| ==>
      Base64Encode(b)[i] == '=' || SextetValue(Base64Encode(b)[i]) >= 0
    decreases |b|
  {
    if |b| >= 3 {
      Base64EncodeAlphabet(b[3..]);
      var q := GroupValues(b[0], b[1], b[2]);
      SextetRoundTrip(q[0]);
      SextetRoundTrip(q[1]);
      SextetRoundTrip(q[2]);
      SextetRoundTrip(q[3]);
      assert Base64Encode(b) == EncodeGroup(b[0], b[1], b[2]) + Base64Encode(b[3..]);
    } else if |b| == 2 {
      SextetRoundTrip(b[0] / 4);
      SextetRoundTrip(b[0] % 4 * 16 + b[1] / 16);
      SextetRoundTrip(b[1] % 16 * 4);
    } else if |b| == 1 {
      SextetRoundTrip(b[0] / 4);
      SextetRoundTrip(b[0] % 4 * 16);
    }
  }

  predicate AllSextets(q: seq<int>) {
    forall i :: 0 <= i < |q| ==> 0 <= q[i] < 64
  }

  /** The values of the characters Node's decoder keeps: it skips characters
      outside the alphabet and stops at the first `=`. */
  function Sextets(s: string): (q: seq<int>)
    ensures AllSextets(q)
    decreases |s|
  {
    if |s| == 0 || s[0] == '=' then []
    else if SextetValue(s[0]) < 0 then Sextets(s[1..])
    else [SextetValue(s[0])] + Sextets(s[1..])
  }

  /** Four values make three bytes; a trailing two or three make one or
      two; a single trailing value makes nothing. */
  function DecodeSextets(q: seq<int>): seq<uint8>
    requires AllSextets(q)
    decreases |q|
  {
    if |q| < 2 then []
    else if |q| == 2 then [q[0] * 4 + q[1] / 16]
    else if |q| == 3 then [q[0] * 4 + q[1] / 16, q[1] % 16 * 16 + q[2] / 4]
    else [q[0] * 4 + q[1] / 16, q[1] % 16 * 16 + q[2] / 4, q[2] % 4 * 64 + q[3]] + DecodeSextets(q[4..])
  }

  /** `Buffer.from(s, 'base64')`, which never fails. */
  function Base64Decode(s: string): seq<uint8> {
    DecodeSextets(Sextets(s))
  }

  lemma SextetsCons(c: char, t: string)
    requires InAlphabet(c)
    ensures Sextets([c] + t) == [SextetValue(c)] + Sextets(t)
  {
    assert ([c] + t)[1..] == t;
  }

  /** The bit arithmetic of one group: the four 6-bit values of three bytes
      give back the bytes. */
  lemma GroupArithmetic(b0: uint8, b1: uint8, b2: uint8)
    ensures var v1, v2 := b0 % 4 * 16 + b1 / 16, b1 % 16 * 4 + b2 / 64;
      b0 / 4 * 4 + v1 / 16 == b0 && v1 % 16 * 16 + v2 / 4 == b1 && v2 % 4 * 64 + b2 % 64 == b2
  {
  }

  predicate InAlphabet(c: char) {
    SextetValue(c) >= 0 && c != '='
  }

  lemma Sextets4(c0: char, c1: char, c2: char, c3: char, t: string)
    requires InAlphabet(c0) && InAlphabet(c1) && InAlphabet(c2) && InAlphabet(c3)
    ensures Sextets([c0, c1, c2, c3] + t) ==
      [SextetValue(c0), SextetValue(c1), SextetValue(c2), SextetValue(c3)] + Sextets(t)
  {
    SextetsCons(c3, t);
    SextetsCons(c2, [c3] + t);
    SextetsCons(c1, [c2, c3] + t);
    SextetsCons(c0, [c1, c2, c3] + t);
    assert [c0, c1, c2, c3] + t == [c0] + ([c1] + ([c2] + ([c3] + t)));
  }

  /** The values read back from the four characters of a full group. */
  lemma SextetsOfGroup(b0: uint8, b1: uint8, b2: uint8, t: string)
    ensures Sextets(EncodeGroup(b0, b1, b2) + t) == GroupValues(b0, b1, b2) + Sextets(t)
  {
    var q := GroupValues(b0, b1, b2);
    SextetRoundTrip(q[0]);
    SextetRoundTrip(q[1]);
    SextetRoundTrip(q[2]);
    SextetRoundTrip(q[3]);
    Sextets4(SextetChar(q[0]), SextetChar(q[1]), SextetChar(q[2]), SextetChar(q[3]), t);
  }

  /** The values read back from a final group of one byte. */
  lemma SextetsOfTail1(b0: uint8)
    ensures Sextets(Base64Encode([b0])) == [b0 / 4, b0 % 4 * 16]
  {
    var c0, c1 := SextetChar(b0 / 4), SextetChar(b0 % 4 * 16);
    SextetRoundTrip(b0 / 4);
    SextetRoundTrip(b0 % 4 * 16);
    assert Sextets("==") == [];
    SextetsCons(c1, "==");
    SextetsCons(c0, [c1] + "==");
    assert Base64Encode([b0]) == [c0] + ([c1] + "==");
  }

  /** The values read back from a final group of two bytes. */
  lemma SextetsOfTail2(b0: uint8, b1: uint8)
    ensures Sextets(Base64Encode([b0, b1])) == [b0 / 4, b0 % 4 * 16 + b1 / 16, b1 % 16 * 4]
  {
    var c0, c1, c2 := SextetChar(b0 / 4), SextetChar(b0 % 4 * 16 + b1 / 16), SextetChar(b1 % 16 * 4);
    SextetRoundTrip(b0 / 4);
    SextetRoundTrip(b0 % 4 * 16 + b1 / 16);
    SextetRoundTrip(b1 % 16 * 4);
    assert Sextets("=") == [];
    SextetsCons(c2, "=");
    SextetsCons(c1, [c2] + "=");
    SextetsCons(c0, [c1, c2] + "=");
    assert Base64Encode([b0, b1]) == [c0] + ([c1] + ([c2] + "="));
  }

  lemma DecodeGroup(v0: int, v1: int, v2: int, v3: int, q: seq<int>)
    requires AllSextets([v0, v1, v2, v3]) && AllSextets(q)
    ensures AllSextets([v0, v1, v2, v3] + q)
    ensures DecodeSextets([v0, v1, v2, v3] + q) ==
      [v0 * 4 + v1 / 16, v1 % 16 * 16 + v2 / 4, v2 % 4 * 64 + v3] + DecodeSextets(q)
  {
    var w := [v0, v1, v2, v3] + q;
    assert w[4..] == q;
  }

  lemma RoundTripTail1(b0: uint8)
    ensures Base64Decode(Base64Encode([b0])) == [b0]
  {
    var v0, v1 := b0 / 4, b0 % 4 * 16;
    SextetsOfTail1(b0);
    var q := Sextets(Base64Encode([b0]));
    assert q == [v0, v1];
    assert DecodeSextets(q) == [v0 * 4 + v1 / 16];
    assert v1 / 16 == b0 % 4;
  }

  lemma RoundTripTail2(b0: uint8, b1: uint8)
    ensures Base64Decode(Base64Encode([b0, b1])) == [b0, b1]
  {
    var v0, v1, v2 := b0 / 4, b0 % 4 * 16 + b1 / 16, b1 % 16 * 4;
    SextetsOfTail2(b0, b1);
    var q := Sextets(Base64Encode([b0, b1]));
    assert q == [v0, v1, v2];
    assert DecodeSextets(q) == [v0 * 4 + v1 / 16, v1 % 16 * 16 + v2 / 4];
    assert v1 / 16 == b0 % 4 && v1 % 16 == b1 / 16 && v2 / 4 == b1 % 16;
  }

  /** Decoding the values of a full group gives back its three bytes. */
  lemma DecodeOfGroup(b0: uint8, b1: uint8, b2: uint8, rest: seq<int>)
    requires AllSextets(rest)
    ensures AllSextets(GroupValues(b0, b1, b2) + rest)
    ensures DecodeSextets(GroupValues(b0, b1, b2) + rest) == [b0, b1, b2] + DecodeSextets(rest)
  {
    var q := GroupValues(b0, b1, b2);
    var v0, v1, v2, v3 := q[0], q[1], q[2], q[3];
    assert q == [v0, v1, v2, v3];
    DecodeGroup(v0, v1, v2, v3, rest);
    var d0, d1, d2 := v0 * 4 + v1 / 16, v1 % 16 * 16 + v2 / 4, v2 % 4 * 64 + v3;
    assert d0 == b0 && d1 == b1 && d2 == b2 by {
      GroupArithmetic(b0, b1, b2);
    }
  }

  /** A full group in front of a tail that round-trips round-trips too. */
  lemma RoundTripGroup(b0: uint8, b1: uint8, b2: uint8, tail: seq<uint8>)
    requires Base64Decode(Base64Encode(tail)) == tail
    ensures Base64Decode(Base64Encode([b0, b1, b2] + tail)) == [b0, b1, b2] + tail
  {
    var b := [b0, b1, b2] + tail;
    var t := Base64Encode(tail);
    assert b[3..] == tail;
    assert Base64Encode(b) == EncodeGroup(b0, b1, b2) + t;
    SextetsOfGroup(b0, b1, b2, t);
    DecodeOfGroup(b0, b1, b2, Sextets(t));
  }

  /** Decoding an encoding gives back the bytes (RFC 4648 round trip). */
  lemma {:induction false} Base64RoundTrip(b: seq<uint8>)
    ensures Base64Decode(Base64Encode(b)) == b
    decreases |b|
  {
    if |b| == 1 {
      RoundTripTail1(b[0]);
      assert b == [b[0]];
    } else if |b| == 2 {
      RoundTripTail2(b[0], b[1]);
      assert b == [b[0], b[1]];
    } else if |b| >= 3 {
      Base64RoundTrip(b[3..]);
      RoundTripGroup(b[0], b[1], b[2], b[3..]);
      assert b == [b[0], b[1], b[2]] + b[3..];
    }
  }

  function HexDigit(v: int): char
    requires 0 <= v < 16
  {
    if v < 10 then ('0' as int + v) as char else ('a' as int + v - 10) as char
  }

  predicate IsLowerHexDigit(c: char) {
    '0' <= c <= '9' || 'a' <= c <= 'f'
  }

  function HexValue(c: char): int
    requires IsLowerHexDigit(c)
  {
    if c <= '9' then c as int - '0' as int else c as int - 'a' as int + 10
  }

  /** PHP `bin2hex`: two lowercase hex digits per byte, high nibble first. */
  function HexEncode(b: seq<uint8>): (r: string)
    ensures |r| == 2 * |b|
    ensures forall i :: 0 <= i < |r| ==> IsLowerHexDigit(r[i])
    decreases |b|
  {
    if |b| == 0 then "" else [HexDigit(b[0] / 16), HexDigit(b[0] % 16)] + HexEncode(b[1..])
  }

  /** PHP `hex2bin` on lowercase input: `None` for an odd length or a
      character that is not a lowercase hex digit. */
  function HexDecode(s: string): Option<seq<uint8>>
    decreases |s|
  {
    if |s| == 0 then Some([])
    else if |s| == 1 || !IsLowerHexDigit(s[0]) || !IsLowerHexDigit(s[1]) then None
    else match HexDecode(s[2..])
      case None => None
      case Some(rest) => Some([HexValue(s[0]) * 16 + HexValue(s[1])] + rest)
  }

  /** `bin2hex` loses nothing: its output decodes to the same bytes. */
  lemma {:induction false} HexRoundTrip(b: seq<uint8>)
    ensures HexDecode(HexEncode(b)) == Some(b)
    decreases |b|
  {
    if |b| > 0 {
      var e := HexEncode(b);
      HexRoundTrip(b[1..]);
      assert e[2..] == HexEncode(b[1..]);
      assert b == [b[0]] + b[1..];
    }
  }

  /** The bytes the form serializer writes as themselves. */
  predicate FormUnreserved(b: uint8) {
    ('0' as int <= b <= '9' as int) || ('A' as int <= b <= 'Z' as int) || ('a' as int <= b <= 'z' as int) ||
    b == '*' as int || b == '-' as int || b == '.' as int || b == '_' as int
  }

  /** The characters a serialized value is made of: none of them is `&`,
      `=`, `?` or `#`. */
  predicate FormSafe(c: char) {
    (c as int < 256 && FormUnreserved(c as int)) || c == '+' || c == '%'
  }

  function UpperHexDigit(v: int): char
    requires 0 <= v < 16
  {
    if v < 10 then ('0' as int + v) as char else ('A' as int + v - 10) as char
  }

  predicate IsHexDigit(c: char) {
    '0' <= c <= '9' || 'A' <= c <= 'F' || 'a' <= c <= 'f'
  }

  function HexDigitValue(c: char): (v: int)
    requires IsHexDigit(c)
    ensures 0 <= v < 16
  {
    if c <= '9' then c as int - '0' as int
    else if c <= 'F' then c as int - 'A' as int + 10
    else c as int - 'a' as int + 10
  }

  /** One byte of a serialized value: itself, `+` for a space, otherwise
      `%` and two uppercase hex digits. */
  function FormEncodeByte(b: uint8): (r: string)
    ensures forall i :: 0 <= i < |r| ==> FormSafe(r[i])
  {
    if FormUnreserved(b) then [b as char]
    else if b == 0x20 then "+"
    else ['%', UpperHexDigit(b / 16), UpperHexDigit(b % 16)]
  }

  function FormEncodeBytes(b: seq<uint8>): (r: string)
    ensures forall i :: 0 <= i < |r| ==> FormSafe(r[i])
    decreases |b|
  {
    if |b| == 0 then ""
    else
      var head, rest := FormEncodeByte(b[0]), FormEncodeBytes(b[1..]);
      assert forall i :: |head| <= i < |head| + |rest| ==> (head + rest)[i] == rest[i - |head|];
      head + rest
  }

  /** The value serializer: the UTF-8 bytes of the string, each written out. */
  function FormUrlEncode(s: string): (r: string)
    ensures forall i :: 0 <= i < |r| ==> FormSafe(r[i])
  {
    FormEncodeBytes(Utf8Encode(s))
  }

  /** The value parser: `+` is a space, `%` with two hex digits is that
      byte, and any other character stands for its UTF-8 bytes. */
  function FormUrlDecode(t: string): seq<uint8>
    decreases |t|
  {
    if |t| == 0 then []
    else if t[0] == '+' then [0x20] + FormUrlDecode(t[1..])
    else if t[0] == '%' && |t| >= 3 && IsHexDigit(t[1]) && IsHexDigit(t[2]) then
      [HexDigitValue(t[1]) * 16 + HexDigitValue(t[2])] + FormUrlDecode(t[3..])
    else Utf8Char(t[0]) + FormUrlDecode(t[1..])
  }

  /** Parsing undoes one serialized byte in front of any rest. */
  lemma FormDecodeByte(b: uint8, rest: string)
    ensures FormUrlDecode(FormEncodeByte(b) + rest) == [b] + FormUrlDecode(rest)
  {
    var t := FormEncodeByte(b) + rest;
    if FormUnreserved(b) {
      assert t[1..] == rest;
    } else if b == 0x20 {
      assert t[1..] == rest;
    } else {
      assert t[3..] == rest;
      assert HexDigitValue(UpperHexDigit(b / 16)) == b / 16;
      assert HexDigitValue(UpperHexDigit(b % 16)) == b % 16;
    }
  }

  lemma {:induction false} FormBytesRoundTrip(b: seq<uint8>)
    ensures FormUrlDecode(FormEncodeBytes(b)) == b
    decreases |b|
  {
    if |b| > 0 {
      FormBytesRoundTrip(b[1..]);
      FormDecodeByte(b[0], FormEncodeBytes(b[1..]));
      assert b == [b[0]] + b[1..];
    }
  }

  /** A serialized value parses back to the UTF-8 bytes of the original. */
  lemma FormRoundTrip(s: string)
    ensures FormUrlDecode(FormUrlEncode(s)) == Utf8Encode(s)
  {
    FormBytesRoundTrip(Utf8Encode(s));
  }
}
