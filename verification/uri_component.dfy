/**
  `encodeURIComponent` as a total function on strings: percent-encoding as in
  section 2.1 of RFC 3986, leaving the unreserved characters of section 2.3 of
  RFC 3986 and the five characters ! ' ( ) * as they are, and escaping every
  other character as the UTF-8 bytes of its code point, each written `%XY`
  with upper-case hexadecimal digits.

  A reference decoder (`Decode`) is its partner: decoding an encoding gives the
  original string back, so the encoding is injective, and an encoded string
  only ever contains unreserved characters and `%`.
 */
module UriComponent {
  import opened Wrappers

  /** The characters that encodeURIComponent copies unchanged. */
  predicate Unreserved(c: char) {
    || ('A' <= c <= 'Z')
    || ('a' <= c <= 'z')
    || ('0' <= c <= '9')
    || c in "-_.!~*'()"
  }

  /** Every character of `s` may stand in a query component as it is. */
  predicate QuerySafe(s: string) {
    forall i :: 0 <= i < |s| ==> Unreserved(s[i]) || s[i] == '%'
  }

  const HexDigits: string := "0123456789ABCDEF"

  function HexDigit(n: int): (d: char)
    requires 0 <= n < 16
  {
    HexDigits[n]
  }

  /** The value of a hexadecimal digit of either case. */
  function HexValue(d: char): (v: Option<int>)
    ensures v.Some? ==> 0 <= v.value < 16
  {
    if '0' <= d <= '9' then Some(d as int - '0' as int)
    else if 'A' <= d <= 'F' then Some(d as int - 'A' as int + 10)
    else if 'a' <= d <= 'f' then Some(d as int - 'a' as int + 10)
    else None
  }

  lemma HexDigitValue(n: int)
    requires 0 <= n < 16
    ensures HexValue(HexDigit(n)) == Some(n)
    ensures Unreserved(HexDigit(n)) && HexDigit(n) != '%'
  {
  }

  predicate IsByte(b: int) {
    0 <= b < 0x100
  }

  /** The UTF-8 encoding of the code point of `c`. */
  function Utf8(c: char): (bytes: seq<int>)
    ensures 1 <= |bytes| <= 4
    ensures forall i :: 0 <= i < |bytes| ==> IsByte(bytes[i])
  {
    var cp := c as int;
    if cp < 0x80 then [cp]
    else if cp < 0x800 then [0xC0 + cp / 0x40, 0x80 + cp % 0x40]
    else if cp < 0x1_0000 then [0xE0 + cp / 0x1000, 0x80 + cp / 0x40 % 0x40, 0x80 + cp % 0x40]
    else [0xF0 + cp / 0x4_0000, 0x80 + cp / 0x1000 % 0x40, 0x80 + cp / 0x40 % 0x40, 0x80 + cp % 0x40]
  }

  /** One byte as `%XY`. */
  function Escape(b: int): (e: string)
    requires IsByte(b)
    ensures |e| == 3 && e[0] == '%'
  {
    ['%', HexDigit(b / 16), HexDigit(b % 16)]
  }

  function EscapeBytes(bytes: seq<int>): (e: string)
    requires forall i :: 0 <= i < |bytes| ==> IsByte(bytes[i])
    ensures |e| == 3 * |bytes|
  {
    if bytes == [] then [] else Escape(bytes[0]) + EscapeBytes(bytes[1..])
  }

  function EncodeChar(c: char): (e: string)
    ensures 1 <= |e|
  {
    if Unreserved(c) then [c] else EscapeBytes(Utf8(c))
  }

  /** encodeURIComponent. */
  function Encode(s: string): (e: string)
    ensures |s| <= |e|
  {
    if s == [] then [] else EncodeChar(s[0]) + Encode(s[1..])
  }

  // ---------------------------------------------------------------------------
  // The reference decoder

  /** The byte written as `%XY` at position `i`, if there is one. */
  function ByteAt(s: string, i: nat): (b: Option<int>)
    ensures b.Some? ==> i + 3 <= |s| && IsByte(b.value)
  {
    if i + 3 <= |s| && s[i] == '%' then
      match (HexValue(s[i + 1]), HexValue(s[i + 2]))
      case (Some(h), Some(l)) => Some(16 * h + l)
      case _ => None
    else None
  }

  /** The payload (six bits) of a UTF-8 continuation byte escaped at position `i`. */
  function Continuation(s: string, i: nat): (x: Option<int>)
    ensures x.Some? ==> i + 3 <= |s| && 0 <= x.value < 0x40
  {
    match ByteAt(s, i)
    case Some(b) => if 0x80 <= b < 0xC0 then Some(b - 0x80) else None
    case None => None
  }

  /** A Unicode scalar value: a code point that is not a surrogate. */
  predicate ScalarValue(cp: int) {
    (0 <= cp < 0xD800) || (0xE000 <= cp <= 0x10_FFFF)
  }

  function ToChar(cp: int): (r: Option<char>)
    ensures r.Some? ==> r.value as int == cp
  {
    if ScalarValue(cp) then Some(cp as char) else None
  }

  /** A character of two UTF-8 bytes whose first byte is `b0`. */
  function DecodeTwo(s: string, b0: int): Option<char>
    requires 0xC0 <= b0 < 0xE0
  {
    match Continuation(s, 3)
    case None => None
    case Some(x1) => ToChar((b0 - 0xC0) * 0x40 + x1)
  }

  /** A character of three UTF-8 bytes whose first byte is `b0`. */
  function DecodeThree(s: string, b0: int): Option<char>
    requires 0xE0 <= b0 < 0xF0
  {
    match (Continuation(s, 3), Continuation(s, 6))
    case (Some(x1), Some(x2)) => ToChar((b0 - 0xE0) * 0x1000 + x1 * 0x40 + x2)
    case _ => None
  }

  /** A character of four UTF-8 bytes whose first byte is `b0`. */
  function DecodeFour(s: string, b0: int): Option<char>
    requires 0xF0 <= b0 < 0xF8
  {
    match (Continuation(s, 3), Continuation(s, 6), Continuation(s, 9))
    case (Some(x1), Some(x2), Some(x3)) => ToChar((b0 - 0xF0) * 0x4_0000 + x1 * 0x1000 + x2 * 0x40 + x3)
    case _ => None
  }

  function Tagged(c: Option<char>, n: nat): Option<(char, nat)> {
    match c
    case Some(x) => Some((x, n))
    case None => None
  }

  /** Decodes the first character of `s` and says how many characters it took. */
  function DecodeOne(s: string): (r: Option<(char, nat)>)
    requires s != []
    ensures r.Some? ==> 1 <= r.value.1 <= |s|
  {
    if s[0] != '%' then Some((s[0], 1))
    else match ByteAt(s, 0)
      case None => None
      case Some(b0) =>
        if b0 < 0x80 then Some((b0 as char, 3))
        else if b0 < 0xC0 then None
        else if b0 < 0xE0 then Tagged(DecodeTwo(s, b0), 6)
        else if b0 < 0xF0 then Tagged(DecodeThree(s, b0), 9)
        else if b0 < 0xF8 then Tagged(DecodeFour(s, b0), 12)
        else None
  }

  /** A lenient reference decoder, the partner of Encode. Unlike
      decodeURIComponent it accepts overlong UTF-8 forms (`%C1%81` decodes to
      `A`); the round trip with Encode does not depend on that. */
  function Decode(s: string): (r: Option<string>)
    decreases |s|
  {
    if s == [] then Some([])
    else match DecodeOne(s)
      case None => None
      case Some((c, n)) =>
        match Decode(s[n..])
        case None => None
        case Some(t) => Some([c] + t)
  }

  // ---------------------------------------------------------------------------
  // Round trip

  lemma ByteAtEscape(b: int, t: string)
    requires IsByte(b)
    ensures ByteAt(Escape(b) + t, 0) == Some(b)
  {
    HexDigitValue(b / 16);
    HexDigitValue(b % 16);
  }

  /** ByteAt only looks at the three characters where it starts. */
  lemma ByteAtShift(a: string, b: string, i: nat)
    ensures ByteAt(a + b, |a| + i) == ByteAt(b, i)
  {
  }

  lemma {:induction false} ByteAtEscapeBytes(bytes: seq<int>, t: string, k: nat)
    requires forall i :: 0 <= i < |bytes| ==> IsByte(bytes[i])
    requires k < |bytes|
    ensures ByteAt(EscapeBytes(bytes) + t, 3 * k) == Some(bytes[k])
  {
    var rest := EscapeBytes(bytes[1..]) + t;
    assert EscapeBytes(bytes) + t == Escape(bytes[0]) + rest;
    if k == 0 {
      ByteAtEscape(bytes[0], rest);
    } else {
      ByteAtEscapeBytes(bytes[1..], t, k - 1);
      ByteAtShift(Escape(bytes[0]), rest, 3 * (k - 1));
    }
  }

  lemma EscapedBytesAt(c: char, t: string)
    ensures var s := EscapeBytes(Utf8(c)) + t;
      forall k :: 0 <= k < |Utf8(c)| ==> ByteAt(s, 3 * k) == Some(Utf8(c)[k])
  {
    forall k | 0 <= k < |Utf8(c)| ensures ByteAt(EscapeBytes(Utf8(c)) + t, 3 * k) == Some(Utf8(c)[k]) {
      ByteAtEscapeBytes(Utf8(c), t, k);
    }
  }

  /** The arithmetic of a two-byte UTF-8 sequence. */
  lemma TwoByteDigits(cp: int)
    requires 0x80 <= cp < 0x800
    ensures (cp / 0x40) * 0x40 + cp % 0x40 == cp
  {
  }

  lemma DecodeTwoUtf8(c: char, t: string)
    requires 0x80 <= c as int < 0x800
    ensures DecodeTwo(EscapeBytes(Utf8(c)) + t, Utf8(c)[0]) == Some(c)
  {
    var s := EscapeBytes(Utf8(c)) + t;
    var bytes := Utf8(c);
    EscapedBytesAt(c, t);
    TwoByteDigits(c as int);
    assert Continuation(s, 3) == Some(bytes[1] - 0x80);
  }

  /** The arithmetic of a three-byte UTF-8 sequence. */
  lemma ThreeByteDigits(cp: int)
    requires 0x800 <= cp < 0x1_0000
    ensures (cp / 0x1000) * 0x1000 + (cp / 0x40 % 0x40) * 0x40 + cp % 0x40 == cp
  {
  }

  lemma DecodeThreeUtf8(c: char, t: string)
    requires 0x800 <= c as int < 0x1_0000
    ensures DecodeThree(EscapeBytes(Utf8(c)) + t, Utf8(c)[0]) == Some(c)
  {
    var s := EscapeBytes(Utf8(c)) + t;
    var bytes := Utf8(c);
    EscapedBytesAt(c, t);
    ThreeByteDigits(c as int);
    assert Continuation(s, 3) == Some(bytes[1] - 0x80);
    assert Continuation(s, 6) == Some(bytes[2] - 0x80);
  }

  /** The arithmetic of a four-byte UTF-8 sequence. */
  lemma FourByteDigits(cp: int)
    requires 0x1_0000 <= cp <= 0x10_FFFF
    ensures cp / 0x4_0000 < 8
    ensures (cp / 0x4_0000) * 0x4_0000 + (cp / 0x1000 % 0x40) * 0x1000 + (cp / 0x40 % 0x40) * 0x40 + cp % 0x40 == cp
  {
  }

  lemma DecodeFourUtf8(c: char, t: string)
    requires 0x1_0000 <= c as int
    ensures Utf8(c)[0] < 0xF8
    ensures DecodeFour(EscapeBytes(Utf8(c)) + t, Utf8(c)[0]) == Some(c)
  {
    var s := EscapeBytes(Utf8(c)) + t;
    var cp := c as int;
    var bytes := Utf8(c);
    EscapedBytesAt(c, t);
    FourByteDigits(cp);
    assert Continuation(s, 3) == Some(bytes[1] - 0x80);
    assert Continuation(s, 6) == Some(bytes[2] - 0x80);
    assert Continuation(s, 9) == Some(bytes[3] - 0x80);
  }

  lemma DecodeOneEncodeChar(c: char, t: string)
    ensures DecodeOne(EncodeChar(c) + t) == Some((c, |EncodeChar(c)|))
  {
    if !Unreserved(c) {
      var s := EscapeBytes(Utf8(c)) + t;
      assert EncodeChar(c) + t == s;
      var cp := c as int;
      EscapedBytesAt(c, t);
      if cp < 0x80 {
        assert (cp as char) == c;
      } else if cp < 0x800 {
        DecodeTwoUtf8(c, t);
      } else if cp < 0x1_0000 {
        DecodeThreeUtf8(c, t);
      } else {
        DecodeFourUtf8(c, t);
      }
    }
  }

  /** Decoding undoes encodeURIComponent. */
  lemma {:induction false} DecodeEncode(s: string)
    ensures Decode(Encode(s)) == Some(s)
  {
    if s != [] {
      var head := EncodeChar(s[0]);
      var e := Encode(s);
      assert e == head + Encode(s[1..]);
      DecodeOneEncodeChar(s[0], Encode(s[1..]));
      assert e[|head|..] == Encode(s[1..]);
      DecodeEncode(s[1..]);
      assert [s[0]] + s[1..] == s;
    }
  }

  /** A two-byte character: `é` (U+00E9) is escaped as its UTF-8 bytes C3 A9. */
  lemma EncodeTwoByteExample()
    ensures Encode("\U{E9}") == "%C3%A9"
  {
    var c := '\U{E9}';
    assert Utf8(c) == [0xC3, 0xA9];
    assert Escape(0xC3) == "%C3" && Escape(0xA9) == "%A9";
    assert EscapeBytes([0xA9]) == "%A9";
    assert EncodeChar(c) == "%C3%A9";
    assert Encode([c]) == EncodeChar(c) + Encode([]);
  }

  /** A four-byte character: U+1F600 is escaped as its UTF-8 bytes F0 9F 98 80. */
  lemma EncodeFourByteExample()
    ensures Encode("\U{1F600}") == "%F0%9F%98%80"
  {
    var c := '\U{1F600}';
    assert Utf8(c) == [0xF0, 0x9F, 0x98, 0x80];
    assert Escape(0xF0) == "%F0" && Escape(0x9F) == "%9F" && Escape(0x98) == "%98" && Escape(0x80) == "%80";
    assert EscapeBytes([0x80]) == "%80";
    assert EscapeBytes([0x98, 0x80]) == "%98%80";
    assert EscapeBytes([0x9F, 0x98, 0x80]) == "%9F%98%80";
    assert EncodeChar(c) == "%F0%9F%98%80";
    assert Encode([c]) == EncodeChar(c) + Encode([]);
  }

  /** Distinct messages have distinct encodings. */
  lemma EncodeInjective(a: string, b: string)
    requires Encode(a) == Encode(b)
    ensures a == b
  {
    DecodeEncode(a);
    DecodeEncode(b);
  }

  lemma {:induction false} EscapeBytesQuerySafe(bytes: seq<int>)
    requires forall i :: 0 <= i < |bytes| ==> IsByte(bytes[i])
    ensures QuerySafe(EscapeBytes(bytes))
  {
    if bytes != [] {
      EscapeBytesQuerySafe(bytes[1..]);
      HexDigitValue(bytes[0] / 16);
      HexDigitValue(bytes[0] % 16);
    }
  }

  /** An encoding never contains a query delimiter such as `&`, `=` or `#`. */
  lemma {:induction false} EncodeQuerySafe(s: string)
    ensures QuerySafe(Encode(s))
  {
    if s != [] {
      EncodeQuerySafe(s[1..]);
      if !Unreserved(s[0]) {
        EscapeBytesQuerySafe(Utf8(s[0]));
      }
    }
  }

  /** A string made of unreserved characters only is its own encoding. */
  lemma {:induction false} EncodeUnreservedIdentity(s: string)
    requires forall i :: 0 <= i < |s| ==> Unreserved(s[i])
    ensures Encode(s) == s
  {
    if s != [] {
      EncodeUnreservedIdentity(s[1..]);
      assert [s[0]] + s[1..] == s;
    }
  }
}
