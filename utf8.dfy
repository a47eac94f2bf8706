/**
 * Well-formed UTF-8, as Rust's `String::from_utf8` accepts it and `str::as_bytes`
 * produces it: the byte sequences of Table 3-7 of the Unicode Standard (section 3.9),
 * so no overlong forms, no surrogates and nothing above U+10FFFF.
 * A Dafny `char` is a Unicode scalar value, so a `string` is exactly what a Rust `String` holds.
 */
module Utf8 {
  import opened Common

  type Byte = b: int | 0 <= b < 0x100

  predicate IsContinuation(b: Byte) {
    0x80 <= b < 0xC0
  }

  /** The shortest-form encoding of one scalar value: 1 to 4 bytes, six payload bits per trailing byte. */
  function EncodeChar(c: char): (r: seq<Byte>)
    ensures 1 <= |r| <= 4
    ensures |r| == 1 <==> c as int < 0x80
    ensures forall i :: 1 <= i < |r| ==> IsContinuation(r[i])
  {
    var n := c as int;
    var m1, d := n / 0x40, n % 0x40;
    var m2, c2 := m1 / 0x40, m1 % 0x40;
    var a, b := m2 / 0x40, m2 % 0x40;
    if n < 0x80 then [n]
    else if n < 0x800 then [0xC0 + m1, 0x80 + d]
    else if n < 0x1_0000 then [0xE0 + m2, 0x80 + c2, 0x80 + d]
    else [0xF0 + a, 0x80 + b, 0x80 + c2, 0x80 + d]
  }

  /** The bytes of `s`, as `str::as_bytes` gives them. */
  function Encode(s: string): (r: seq<Byte>)
    ensures |r| >= |s|
    ensures r == [] <==> s == []
  {
    if s == [] then [] else EncodeChar(s[0]) + Encode(s[1..])
  }

  /**
   * Decodes the scalar value at the start of `bs`, with the number of bytes it takes,
   * or None when `bs` does not start with a well-formed sequence.
   */
  function DecodeFirst(bs: seq<Byte>): (r: Option<(char, nat)>)
    requires |bs| > 0
    ensures r.Some? ==> 1 <= r.value.1 <= |bs| && r.value.1 <= 4
  {
    var b0: int := bs[0];
    var b1: int := if |bs| >= 2 then bs[1] else 0;
    var b2: int := if |bs| >= 3 then bs[2] else 0;
    var b3: int := if |bs| >= 4 then bs[3] else 0;
    if b0 < 0x80 then
      Some((b0 as char, 1))
    else if 0xC2 <= b0 < 0xE0 then
      if |bs| >= 2 && IsContinuation(bs[1]) then
        Some((((b0 - 0xC0) * 0x40 + (b1 - 0x80)) as char, 2))
      else None
    else if 0xE0 <= b0 < 0xF0 then
      var lo := if b0 == 0xE0 then 0xA0 else 0x80;
      var hi := if b0 == 0xED then 0xA0 else 0xC0;
      if |bs| >= 3 && lo <= b1 < hi && IsContinuation(bs[2]) then
        Some(((((b0 - 0xE0) * 0x40 + (b1 - 0x80)) * 0x40 + (b2 - 0x80)) as char, 3))
      else None
    else if 0xF0 <= b0 < 0xF5 then
      var lo := if b0 == 0xF0 then 0x90 else 0x80;
      var hi := if b0 == 0xF4 then 0x90 else 0xC0;
      if |bs| >= 4 && lo <= b1 < hi && IsContinuation(bs[2]) && IsContinuation(bs[3]) then
        Some((((((b0 - 0xF0) * 0x40 + (b1 - 0x80)) * 0x40 + (b2 - 0x80)) * 0x40 + (b3 - 0x80)) as char, 4))
      else None
    else None
  }

  /** `String::from_utf8`: the decoded text, or None when `bs` is not well-formed UTF-8. */
  function Decode(bs: seq<Byte>): (r: Option<string>)
    ensures r.Some? ==> |r.value| <= |bs|
    decreases |bs|
  {
    if bs == [] then Some([])
    else match DecodeFirst(bs)
      case None => None
      case Some((c, n)) =>
        match Decode(bs[n..])
        case None => None
        case Some(rest) => Some([c] + rest)
  }

  lemma DecodeFirstEncodeChar(c: char, rest: seq<Byte>)
    ensures DecodeFirst(EncodeChar(c) + rest) == Some((c, |EncodeChar(c)|))
  {
  }

  /** Decoding the bytes of a string gives that string back. */
  lemma {:induction false} DecodeEncode(s: string)
    ensures Decode(Encode(s)) == Some(s)
  {
    if s != [] {
      var e := EncodeChar(s[0]);
      DecodeFirstEncodeChar(s[0], Encode(s[1..]));
      assert (e + Encode(s[1..]))[|e|..] == Encode(s[1..]);
      DecodeEncode(s[1..]);
      assert [s[0]] + s[1..] == s;
    }
  }

  /** Splitting `q * 64 + r` into its high part and its low six bits. */
  lemma SixBits(q: int, r: int)
    requires q >= 0 && 0 <= r < 0x40
    ensures (q * 0x40 + r) / 0x40 == q && (q * 0x40 + r) % 0x40 == r
  {
  }

  lemma TwoByteEncoding(b0: int, b1: int)
    requires 0xC2 <= b0 < 0xE0 && 0x80 <= b1 < 0xC0
    ensures EncodeChar(((b0 - 0xC0) * 0x40 + (b1 - 0x80)) as char) == [b0, b1]
  {
    SixBits(b0 - 0xC0, b1 - 0x80);
  }

  lemma ThreeByteEncoding(b0: int, b1: int, b2: int)
    requires 0xE0 <= b0 < 0xF0 && 0x80 <= b1 < 0xC0 && 0x80 <= b2 < 0xC0
    requires b0 == 0xE0 ==> 0xA0 <= b1
    requires b0 == 0xED ==> b1 < 0xA0
    ensures EncodeChar((((b0 - 0xE0) * 0x40 + (b1 - 0x80)) * 0x40 + (b2 - 0x80)) as char) == [b0, b1, b2]
  {
    var high := (b0 - 0xE0) * 0x40 + (b1 - 0x80);
    SixBits(high, b2 - 0x80);
    SixBits(b0 - 0xE0, b1 - 0x80);
  }

  lemma FourByteEncoding(b0: int, b1: int, b2: int, b3: int)
    requires 0xF0 <= b0 < 0xF5 && 0x80 <= b1 < 0xC0 && 0x80 <= b2 < 0xC0 && 0x80 <= b3 < 0xC0
    requires b0 == 0xF0 ==> 0x90 <= b1
    requires b0 == 0xF4 ==> b1 < 0x90
    ensures EncodeChar(((((b0 - 0xF0) * 0x40 + (b1 - 0x80)) * 0x40 + (b2 - 0x80)) * 0x40 + (b3 - 0x80)) as char)
         == [b0, b1, b2, b3]
  {
    var high := (b0 - 0xF0) * 0x40 + (b1 - 0x80);
    var middle := high * 0x40 + (b2 - 0x80);
    SixBits(middle, b3 - 0x80);
    SixBits(high, b2 - 0x80);
    SixBits(b0 - 0xF0, b1 - 0x80);
  }

  /** The bytes a successful `DecodeFirst` consumes are the encoding of the value it returns. */
  lemma EncodeCharDecodeFirst(bs: seq<Byte>)
    requires |bs| > 0 && DecodeFirst(bs).Some?
    ensures bs[..DecodeFirst(bs).value.1] == EncodeChar(DecodeFirst(bs).value.0)
  {
    var b0: int := bs[0];
    if b0 < 0x80 {
    } else if b0 < 0xE0 {
      TwoByteEncoding(b0, bs[1]);
    } else if b0 < 0xF0 {
      ThreeByteEncoding(b0, bs[1], bs[2]);
    } else {
      FourByteEncoding(b0, bs[1], bs[2], bs[3]);
    }
  }

  /** Whatever decodes successfully is the encoding of its decoding: nothing is dropped or altered. */
  /** A successful decode is the first character followed by the decoding of the rest. */
  lemma DecodeCons(bs: seq<Byte>)
    requires bs != [] && Decode(bs).Some?
    ensures DecodeFirst(bs).Some?
    ensures var n := DecodeFirst(bs).value.1;
      Decode(bs[n..]).Some? && Decode(bs).value == [DecodeFirst(bs).value.0] + Decode(bs[n..]).value
  {
  }

  /** The encoding of a string is the encoding of its first character followed by that of the rest. */
  lemma EncodeCons(c: char, t: string)
    ensures Encode([c] + t) == EncodeChar(c) + Encode(t)
  {
    assert ([c] + t)[0] == c && ([c] + t)[1..] == t;
  }

  lemma {:induction false} EncodeDecode(bs: seq<Byte>)
    requires Decode(bs).Some?
    ensures Encode(Decode(bs).value) == bs
  {
    if bs != [] {
      DecodeCons(bs);
      var c, n := DecodeFirst(bs).value.0, DecodeFirst(bs).value.1;
      var rest := bs[n..];
      EncodeCharDecodeFirst(bs);
      EncodeDecode(rest);
      EncodeCons(c, Decode(rest).value);
      assert bs == bs[..n] + rest;
    }
  }

  /** `Decode` and `Encode` are inverse: `bs` decodes to `s` exactly when `s` encodes to `bs`. */
  lemma DecodeIffEncode(bs: seq<Byte>, s: string)
    ensures Decode(bs) == Some(s) <==> Encode(s) == bs
  {
    if Decode(bs) == Some(s) {
      EncodeDecode(bs);
    }
    if Encode(s) == bs {
      DecodeEncode(s);
    }
  }
}
