/**
 * URLEncoder.encode(text, UTF_8): the application/x-www-form-urlencoded byte serializer of
 * section 5.2 of the WHATWG URL Standard over the UTF-8 encoding of section 3 of RFC 3629.
 * The input is a sequence of Unicode scalar values (Dafny's char).
 *
 * Beside the encoder stands a reference decoder (form-decoding to bytes, then UTF-8 decoding)
 * and the round trip between the two.
 */
module UrlEncoding {
  import opened Errors

  type byte = b: int | 0 <= b < 256

  /** Passed through unchanged: ASCII letters, digits and `.`, `-`, `*`, `_`. */
  predicate Unreserved(c: char)
  {
    ('a' <= c <= 'z') || ('A' <= c <= 'Z') || ('0' <= c <= '9') || c == '.' || c == '-' || c == '*' || c == '_'
  }

  predicate UpperHex(c: char)
  {
    ('0' <= c <= '9') || ('A' <= c <= 'F')
  }

  /** The characters an encoded text is made of. */
  predicate EncodedChar(c: char)
  {
    Unreserved(c) || c == '+' || c == '%'
  }

  function HexDigit(n: nat): (c: char)
    requires n < 16
    ensures UpperHex(c)
  {
    if n < 10 then (48 + n) as char else (55 + n) as char
  }

  function HexValue(c: char): (n: nat)
    requires UpperHex(c)
    ensures n < 16
  {
    if c <= '9' then c as int - 48 else c as int - 55
  }

  // ---------------------------------------------------------------- UTF-8

  /** The UTF-8 encoding of one scalar value: 1 to 4 bytes, section 3 of RFC 3629. */
  function Utf8Char(c: char): (bs: seq<byte>)
    ensures 1 <= |bs| <= 4
    ensures |bs| == 1 <==> c as int < 0x80
  {
    var cp := c as int;
    if cp < 0x80 then [cp]
    else if cp < 0x800 then [0xC0 + cp / 64, 0x80 + cp % 64]
    else if cp < 0x10000 then [0xE0 + cp / 4096, 0x80 + (cp / 64) % 64, 0x80 + cp % 64]
    else [0xF0 + cp / 262144, 0x80 + (cp / 4096) % 64, 0x80 + (cp / 64) % 64, 0x80 + cp % 64]
  }

  function Utf8(s: string): seq<byte>
  {
    if s == [] then [] else Utf8Char(s[0]) + Utf8(s[1..])
  }

  predicate Continuation(b: byte)
  {
    0x80 <= b < 0xC0
  }

  predicate ScalarValue(cp: int)
  {
    (0 <= cp < 0xD800) || (0xE000 <= cp <= 0x10FFFF)
  }

  /** Decodes the first scalar value of a UTF-8 byte string, with the number of bytes it used. */
  function DecodeOne(bs: seq<byte>): (r: Option<(char, nat)>)
    requires |bs| > 0
    ensures r.Some? ==> 1 <= r.value.1 <= |bs|
  {
    var b0, b1, b2, b3: int := bs[0], if |bs| > 1 then bs[1] else 0, if |bs| > 2 then bs[2] else 0, if |bs| > 3 then bs[3] else 0;
    if b0 < 0x80 then Some((b0 as char, 1))
    else if 0xC0 <= b0 < 0xE0 && |bs| >= 2 && Continuation(bs[1]) then
      var cp := (b0 - 0xC0) * 64 + (b1 - 0x80);
      if ScalarValue(cp) then Some((cp as char, 2)) else None
    else if 0xE0 <= b0 < 0xF0 && |bs| >= 3 && Continuation(bs[1]) && Continuation(bs[2]) then
      var cp := (b0 - 0xE0) * 4096 + (b1 - 0x80) * 64 + (b2 - 0x80);
      if ScalarValue(cp) then Some((cp as char, 3)) else None
    else if 0xF0 <= b0 < 0xF8 && |bs| >= 4 && Continuation(bs[1]) && Continuation(bs[2]) && Continuation(bs[3]) then
      var cp := (b0 - 0xF0) * 262144 + (b1 - 0x80) * 4096 + (b2 - 0x80) * 64 + (b3 - 0x80);
      if ScalarValue(cp) then Some((cp as char, 4)) else None
    else None
  }

  function Utf8Decode(bs: seq<byte>): Option<string>
    decreases |bs|
  {
    if bs == [] then Some([])
    else match DecodeOne(bs)
      case None => None
      case Some(p) =>
        match Utf8Decode(bs[p.1..])
        case None => None
        case Some(rest) => Some([p.0] + rest)
  }

  lemma Split64(x: nat)
    ensures (x / 64) / 64 == x / 4096
    ensures (x / 4096) / 64 == x / 262144
    ensures x == (x / 64) * 64 + x % 64
  {
  }

  lemma {:induction false} DecodeOneUtf8Char(c: char, rest: seq<byte>)
    ensures DecodeOne(Utf8Char(c) + rest) == Some((c, |Utf8Char(c)|))
  {
    var cp := c as int;
    var bs := Utf8Char(c) + rest;
    var b0, b1, b2, b3: int := bs[0], if |bs| > 1 then bs[1] else 0, if |bs| > 2 then bs[2] else 0, if |bs| > 3 then bs[3] else 0;
    Split64(cp);
    Split64(cp / 64);
    Split64(cp / 4096);
    if cp < 0x80 {
    } else if cp < 0x800 {
      assert b0 - 0xC0 == cp / 64 && b1 - 0x80 == cp % 64;
    } else if cp < 0x10000 {
      assert (b0 - 0xE0) * 4096 + (b1 - 0x80) * 64 + (b2 - 0x80) == cp;
    } else {
      assert (b0 - 0xF0) * 262144 + (b1 - 0x80) * 4096 + (b2 - 0x80) * 64 + (b3 - 0x80) == cp;
    }
  }

  /** UTF-8 decoding inverts UTF-8 encoding. */
  lemma {:induction false} Utf8RoundTrip(s: string)
    ensures Utf8Decode(Utf8(s)) == Some(s)
  {
    if s != [] {
      var head, tail := Utf8Char(s[0]), Utf8(s[1..]);
      assert Utf8(s) == head + tail;
      DecodeOneUtf8Char(s[0], tail);
      assert (head + tail)[|head|..] == tail;
      Utf8RoundTrip(s[1..]);
      assert [s[0]] + s[1..] == s;
    }
  }

  // ---------------------------------------------------------------- the encoder

  /** `%XY` per byte, uppercase hexadecimal. */
  function PercentEncode(bs: seq<byte>): (t: string)
    ensures |t| == 3 * |bs|
  {
    if bs == [] then [] else ['%', HexDigit(bs[0] / 16), HexDigit(bs[0] % 16)] + PercentEncode(bs[1..])
  }

  function EncodeChar(c: char): string
  {
    if Unreserved(c) then [c]
    else if c == ' ' then "+"
    else PercentEncode(Utf8Char(c))
  }

  /** URLEncoder.encode(s, StandardCharsets.UTF_8). */
  function Encode(s: string): string
  {
    if s == [] then [] else EncodeChar(s[0]) + Encode(s[1..])
  }

  // ---------------------------------------------------------------- the reference decoder

  /** A text that splits into tokens: an unreserved character, `+`, or `%` and two uppercase hex digits. */
  predicate WellFormed(t: string)
    decreases |t|
  {
    if t == [] then true
    else if t[0] == '%' then |t| >= 3 && UpperHex(t[1]) && UpperHex(t[2]) && WellFormed(t[3..])
    else (t[0] == '+' || Unreserved(t[0])) && WellFormed(t[1..])
  }

  /** Form-decoding of a well-formed text to the bytes it stands for. */
  function DecodeBytes(t: string): seq<byte>
    requires WellFormed(t)
    decreases |t|
  {
    if t == [] then []
    else if t[0] == '%' then [HexValue(t[1]) * 16 + HexValue(t[2])] + DecodeBytes(t[3..])
    else if t[0] == '+' then [32] + DecodeBytes(t[1..])
    else [t[0] as int] + DecodeBytes(t[1..])
  }

  /** The reference decoder: form-decode, then UTF-8 decode; None when either step rejects. */
  function Decode(t: string): Option<string>
  {
    if WellFormed(t) then Utf8Decode(DecodeBytes(t)) else None
  }

  lemma {:induction false} ConcatWellFormed(a: string, b: string)
    requires WellFormed(a) && WellFormed(b)
    ensures WellFormed(a + b)
    decreases |a|
  {
    var ab := a + b;
    if a == [] {
      assert ab == b;
    } else {
      var k := if a[0] == '%' then 3 else 1;
      assert ab[..k] == a[..k];
      assert ab[k..] == a[k..] + b;
      ConcatWellFormed(a[k..], b);
    }
  }

  /** The length of the first token of a non-empty well-formed text. */
  function TokenLength(t: string): nat
    requires WellFormed(t) && t != []
  {
    if t[0] == '%' then 3 else 1
  }

  /** The byte the first token of a non-empty well-formed text stands for. */
  function TokenByte(t: string): byte
    requires WellFormed(t) && t != []
  {
    if t[0] == '%' then HexValue(t[1]) * 16 + HexValue(t[2])
    else if t[0] == '+' then 32 else t[0] as int
  }

  lemma DecodeStep(t: string)
    requires WellFormed(t) && t != []
    ensures TokenLength(t) <= |t| && WellFormed(t[TokenLength(t)..])
    ensures DecodeBytes(t) == [TokenByte(t)] + DecodeBytes(t[TokenLength(t)..])
  {
  }

  /** Appending text after a token does not change that token. */
  lemma TokenOfConcat(a: string, b: string)
    requires WellFormed(a) && WellFormed(a + b) && a != []
    ensures TokenLength(a + b) == TokenLength(a) && TokenByte(a + b) == TokenByte(a)
    ensures (a + b)[TokenLength(a)..] == a[TokenLength(a)..] + b
  {
    var ab := a + b;
    assert ab[0] == a[0];
    if a[0] == '%' {
      assert ab[1] == a[1] && ab[2] == a[2];
    }
  }

  lemma {:induction false} ConcatDecodes(a: string, b: string)
    requires WellFormed(a) && WellFormed(b)
    ensures WellFormed(a + b)
    ensures DecodeBytes(a + b) == DecodeBytes(a) + DecodeBytes(b)
    decreases |a|
  {
    ConcatWellFormed(a, b);
    if a == [] {
      assert a + b == b;
    } else {
      var k := TokenLength(a);
      var x := TokenByte(a);
      DecodeStep(a);
      DecodeStep(a + b);
      TokenOfConcat(a, b);
      ConcatDecodes(a[k..], b);
      assert DecodeBytes(a + b) == [x] + (DecodeBytes(a[k..]) + DecodeBytes(b));
    }
  }

  lemma {:induction false} PercentEncodeDecodes(bs: seq<byte>)
    ensures WellFormed(PercentEncode(bs))
    ensures DecodeBytes(PercentEncode(bs)) == bs
  {
    if bs != [] {
      var t := PercentEncode(bs);
      PercentEncodeDecodes(bs[1..]);
      assert t[3..] == PercentEncode(bs[1..]);
      assert HexValue(HexDigit(bs[0] / 16)) * 16 + HexValue(HexDigit(bs[0] % 16)) == bs[0];
    }
  }

  lemma EncodeCharDecodes(c: char)
    ensures WellFormed(EncodeChar(c))
    ensures DecodeBytes(EncodeChar(c)) == Utf8Char(c)
  {
    if !Unreserved(c) && c != ' ' {
      PercentEncodeDecodes(Utf8Char(c));
    }
  }

  /** Form-decoding the encoded text gives back exactly the UTF-8 bytes of the input. */
  lemma {:induction false} EncodeDecodesToUtf8(s: string)
    ensures WellFormed(Encode(s))
    ensures DecodeBytes(Encode(s)) == Utf8(s)
  {
    if s != [] {
      EncodeCharDecodes(s[0]);
      EncodeDecodesToUtf8(s[1..]);
      ConcatDecodes(EncodeChar(s[0]), Encode(s[1..]));
    }
  }

  /** The round trip: the reference decoder recovers the text the encoder was given. */
  lemma DecodeEncode(s: string)
    ensures Decode(Encode(s)) == Some(s)
  {
    EncodeDecodesToUtf8(s);
    Utf8RoundTrip(s);
  }

  /** Distinct texts encode to distinct texts. */
  lemma EncodeInjective(s: string, s': string)
    requires Encode(s) == Encode(s')
    ensures s == s'
  {
    DecodeEncode(s);
    DecodeEncode(s');
  }

  lemma {:induction false} WellFormedAlphabet(t: string)
    requires WellFormed(t)
    ensures forall i :: 0 <= i < |t| ==> EncodedChar(t[i])
    decreases |t|
  {
    if t != [] {
      var k := if t[0] == '%' then 3 else 1;
      WellFormedAlphabet(t[k..]);
      forall i | k <= i < |t| ensures EncodedChar(t[i]) {
        assert t[i] == t[k..][i - k];
      }
    }
  }

  /**
   * Every character of an encoded text is an ASCII letter, a digit, `.`, `-`, `*`, `_`, `+` or
   * the `%` of a `%XY` triple.
   */
  lemma EncodeAlphabet(s: string)
    ensures WellFormed(Encode(s))
    ensures forall i :: 0 <= i < |Encode(s)| ==> EncodedChar(Encode(s)[i])
  {
    EncodeDecodesToUtf8(s);
    WellFormedAlphabet(Encode(s));
  }

  /**
   * An encoded text holds no `&`, `=`, `#` or space, so it cannot end the `q` parameter of the
   * request it is placed in, nor start another one.
   */
  lemma EncodeHasNoDelimiters(s: string)
    ensures '&' !in Encode(s) && '=' !in Encode(s) && '#' !in Encode(s) && ' ' !in Encode(s)
  {
    var t := Encode(s);
    EncodeAlphabet(s);
    forall c | c in t ensures EncodedChar(c) {
      var i :| 0 <= i < |t| && t[i] == c;
    }
  }

  /** The cases of the tests: `&` becomes `%26`, `М` (U+041C) becomes `%D0%9C`, space becomes `+`. */
  lemma EncodeExamples()
    ensures Encode("&") == "%26"
    ensures Encode("М") == "%D0%9C"
    ensures Encode("a b") == "a+b"
  {
    assert Utf8Char('&') == [0x26];
    assert Utf8Char('М') == [0xD0, 0x9C];
  }
}
