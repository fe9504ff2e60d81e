/**
 * UTF-8, as `std::str::from_utf8` and `String::from_utf8` accept it: the
 * well-formed byte sequences of the Unicode Standard, chapter 3, table 3-7
 * (no overlong forms, no surrogates, nothing above U+10FFFF).
 *
 * `Encode` is the standard encoding of a string of Unicode scalar values;
 * `Decode` checks and decodes a byte sequence, `None` for invalid UTF-8.
 * The two are inverse: every string round-trips, and every byte sequence
 * `Decode` accepts is the encoding of what it decodes to.
 */
module Utf8 {
  import opened Wrappers
  import opened Bytes

  /** A continuation byte, `10xxxxxx`, with its payload in `lo .. hi` (both in 0x80 .. 0xBF). */
  predicate Cont(b: Byte, lo: int, hi: int)
  {
    lo <= b <= hi
  }

  /** The encoding of one scalar value: one to four bytes. */
  function EncodeChar(c: char): (r: seq<Byte>)
    ensures 1 <= |r| <= 4
  {
    var cp := c as int;
    if cp < 0x80 then [cp]
    else if cp < 0x800 then [0xC0 + cp / 64, 0x80 + cp % 64]
    else if cp < 0x1_0000 then [0xE0 + cp / 4096, 0x80 + (cp / 64) % 64, 0x80 + cp % 64]
    else [0xF0 + cp / 262144, 0x80 + (cp / 4096) % 64, 0x80 + (cp / 64) % 64, 0x80 + cp % 64]
  }

  /** The encoding of a string: its characters' encodings end to end. */
  function Encode(s: string): seq<Byte>
    decreases |s|
  {
    if s == [] then [] else EncodeChar(s[0]) + Encode(s[1..])
  }

  /** The scalar value of a two-byte sequence. */
  function Value2(b0: int, b1: int): int { (b0 - 0xC0) * 64 + (b1 - 0x80) }

  /** The scalar value of a three-byte sequence. */
  function Value3(b0: int, b1: int, b2: int): int { (b0 - 0xE0) * 4096 + (b1 - 0x80) * 64 + (b2 - 0x80) }

  /** The scalar value of a four-byte sequence. */
  function Value4(b0: int, b1: int, b2: int, b3: int): int
  {
    (b0 - 0xF0) * 262144 + (b1 - 0x80) * 4096 + (b2 - 0x80) * 64 + (b3 - 0x80)
  }

  /**
   * The character that the well-formed sequence at the start of `b` encodes,
   * with that sequence's length, or `None` when `b` does not start with one.
   */
  function DecodeChar(b: seq<Byte>): (r: Option<(char, nat)>)
    ensures r.Some? ==> 1 <= r.value.1 <= |b| && r.value.1 <= 4
  {
    if |b| == 0 then None
    else
      var b0: int := b[0];
      if b0 < 0x80 then Some((b0 as char, 1))
      else if 0xC2 <= b0 <= 0xDF then
        if |b| >= 2 && Cont(b[1], 0x80, 0xBF) then Some((Value2(b0, b[1]) as char, 2)) else None
      else if 0xE0 <= b0 <= 0xEF then
        var lo := if b0 == 0xE0 then 0xA0 else 0x80;
        var hi := if b0 == 0xED then 0x9F else 0xBF;
        if |b| >= 3 && Cont(b[1], lo, hi) && Cont(b[2], 0x80, 0xBF) then
          Some((Value3(b0, b[1], b[2]) as char, 3))
        else None
      else if 0xF0 <= b0 <= 0xF4 then
        var lo := if b0 == 0xF0 then 0x90 else 0x80;
        var hi := if b0 == 0xF4 then 0x8F else 0xBF;
        if |b| >= 4 && Cont(b[1], lo, hi) && Cont(b[2], 0x80, 0xBF) && Cont(b[3], 0x80, 0xBF) then
          Some((Value4(b0, b[1], b[2], b[3]) as char, 4))
        else None
      else None
  }

  /** `from_utf8`: the decoded string, or `None` when the bytes are not UTF-8. */
  function Decode(b: seq<Byte>): Option<string>
    decreases |b|
  {
    if b == [] then Some([])
    else
      match DecodeChar(b)
      case None => None
      case Some((c, n)) =>
        match Decode(b[n..])
        case None => None
        case Some(rest) => Some([c] + rest)
  }

  /** The digits of a scalar value in base 64, the payloads of its encoding. */
  lemma Digits(cp: int)
    requires 0 <= cp < 0x11_0000
    ensures cp == (cp / 64) * 64 + cp % 64
    ensures cp / 64 == (cp / 4096) * 64 + (cp / 64) % 64
    ensures cp / 4096 == (cp / 262144) * 64 + (cp / 4096) % 64
  {
  }

  /** Base-64 digits: the quotient and remainder of `hi * 64 + lo`. */
  lemma Split64(hi: int, lo: int)
    requires hi >= 0 && 0 <= lo < 64
    ensures (hi * 64 + lo) / 64 == hi && (hi * 64 + lo) % 64 == lo
  {
  }

  /** A two-byte encoding decodes back to its character. */
  lemma DecodeEncode2(c: char, rest: seq<Byte>)
    requires 0x80 <= c as int < 0x800
    ensures DecodeChar(EncodeChar(c) + rest) == Some((c, 2))
  {
    var cp := c as int;
    Digits(cp);
    var b := EncodeChar(c) + rest;
    assert b[0] == 0xC0 + cp / 64 && b[1] == 0x80 + cp % 64;
    assert Value2(b[0], b[1]) == cp;
  }

  /** A three-byte encoding decodes back to its character. */
  lemma DecodeEncode3(c: char, rest: seq<Byte>)
    requires 0x800 <= c as int < 0x1_0000
    ensures DecodeChar(EncodeChar(c) + rest) == Some((c, 3))
  {
    var cp := c as int;
    Digits(cp);
    var b := EncodeChar(c) + rest;
    assert b[0] == 0xE0 + cp / 4096 && b[1] == 0x80 + (cp / 64) % 64 && b[2] == 0x80 + cp % 64;
    assert Value3(b[0], b[1], b[2]) == cp;
  }

  /** A four-byte encoding decodes back to its character. */
  lemma DecodeEncode4(c: char, rest: seq<Byte>)
    requires 0x1_0000 <= c as int
    ensures DecodeChar(EncodeChar(c) + rest) == Some((c, 4))
  {
    var cp := c as int;
    Digits(cp);
    var b := EncodeChar(c) + rest;
    assert b[0] == 0xF0 + cp / 262144 && b[1] == 0x80 + (cp / 4096) % 64;
    assert b[2] == 0x80 + (cp / 64) % 64 && b[3] == 0x80 + cp % 64;
    assert Value4(b[0], b[1], b[2], b[3]) == cp;
  }

  /** One character's encoding decodes back to it, whatever follows. */
  lemma DecodeEncodeChar(c: char, rest: seq<Byte>)
    ensures DecodeChar(EncodeChar(c) + rest) == Some((c, |EncodeChar(c)|))
  {
    var cp := c as int;
    if cp < 0x80 {
    } else if cp < 0x800 {
      DecodeEncode2(c, rest);
    } else if cp < 0x1_0000 {
      DecodeEncode3(c, rest);
    } else {
      DecodeEncode4(c, rest);
    }
  }

  /** A two-byte sequence is the encoding of its character. */
  lemma EncodeDecode2(b: seq<Byte>)
    requires DecodeChar(b).Some? && DecodeChar(b).value.1 == 2
    ensures EncodeChar(DecodeChar(b).value.0) == b[..2]
  {
    var cp := Value2(b[0], b[1]);
    assert DecodeChar(b).value.0 as int == cp;
    assert cp / 64 == b[0] - 0xC0 && cp % 64 == b[1] - 0x80;
  }

  /** A three-byte sequence is the encoding of its character. */
  lemma EncodeDecode3(b: seq<Byte>)
    requires DecodeChar(b).Some? && DecodeChar(b).value.1 == 3
    ensures EncodeChar(DecodeChar(b).value.0) == b[..3]
  {
    var cp := Value3(b[0], b[1], b[2]);
    assert DecodeChar(b).value.0 as int == cp;
    assert cp / 4096 == b[0] - 0xE0 && (cp / 64) % 64 == b[1] - 0x80 && cp % 64 == b[2] - 0x80;
  }

  /** A four-byte sequence is the encoding of its character. */
  lemma EncodeDecode4(b: seq<Byte>)
    requires DecodeChar(b).Some? && DecodeChar(b).value.1 == 4
    ensures EncodeChar(DecodeChar(b).value.0) == b[..4]
  {
    var cp := Value4(b[0], b[1], b[2], b[3]);
    assert DecodeChar(b).value.0 as int == cp;
    var d0, d1, d2, d3 := b[0] as int - 0xF0, b[1] as int - 0x80, b[2] as int - 0x80, b[3] as int - 0x80;
    Split64(d0 * 64 + d1, d2);
    Split64(d0, d1);
    Split64((d0 * 64 + d1) * 64 + d2, d3);
    assert cp == ((d0 * 64 + d1) * 64 + d2) * 64 + d3;
    assert cp / 64 / 64 == cp / 4096 && cp / 4096 / 64 == cp / 262144;
  }

  /** Whatever `DecodeChar` accepts is the encoding of the character it returns. */
  lemma EncodeDecodeChar(b: seq<Byte>)
    requires DecodeChar(b).Some?
    ensures var (c, n) := DecodeChar(b).value; EncodeChar(c) == b[..n]
  {
    var n := DecodeChar(b).value.1;
    if n == 2 {
      EncodeDecode2(b);
    } else if n == 3 {
      EncodeDecode3(b);
    } else if n == 4 {
      EncodeDecode4(b);
    }
  }

  /** Every string round-trips through its encoding. */
  lemma {:induction false} DecodeEncode(s: string)
    ensures Decode(Encode(s)) == Some(s)
    decreases |s|
  {
    if s != [] {
      var c, t := s[0], s[1..];
      var e := EncodeChar(c);
      DecodeEncodeChar(c, Encode(t));
      assert (e + Encode(t))[|e|..] == Encode(t);
      DecodeEncode(t);
      assert s == [c] + t;
    }
  }

  /** What `Decode` accepts is exactly the encoding of its result. */
  lemma {:induction false} EncodeDecode(b: seq<Byte>)
    requires Decode(b).Some?
    ensures Encode(Decode(b).value) == b
    decreases |b|
  {
    if b != [] {
      var (c, n) := DecodeChar(b).value;
      var rest := Decode(b[n..]).value;
      EncodeDecodeChar(b);
      EncodeDecode(b[n..]);
      var s := [c] + rest;
      assert Decode(b).value == s;
      assert s[0] == c && s[1..] == rest;
      assert Encode(s) == EncodeChar(c) + Encode(rest);
      assert b == b[..n] + b[n..];
    }
  }

  /** Decoding is injective: two byte sequences that decode to one string are equal. */
  lemma DecodeInjective(a: seq<Byte>, b: seq<Byte>)
    requires Decode(a).Some? && Decode(a) == Decode(b)
    ensures a == b
  {
    EncodeDecode(a);
    EncodeDecode(b);
  }

  /** ASCII bytes decode one for one. */
  lemma {:induction false} DecodeAscii(b: seq<Byte>)
    requires forall i :: 0 <= i < |b| ==> b[i] < 0x80
    ensures Decode(b).Some? && |Decode(b).value| == |b|
    ensures forall i :: 0 <= i < |b| ==> Decode(b).value[i] as int == b[i]
    decreases |b|
  {
    if b != [] {
      assert DecodeChar(b) == Some((b[0] as char, 1));
      DecodeAscii(b[1..]);
    }
  }

  /** The encoding of a concatenation is the concatenation of the encodings. */
  lemma {:induction false} EncodeAppend(s: string, t: string)
    ensures Encode(s + t) == Encode(s) + Encode(t)
    decreases |s|
  {
    if s != [] {
      assert (s + t)[0] == s[0] && (s + t)[1..] == s[1..] + t;
      EncodeAppend(s[1..], t);
    } else {
      assert s + t == t;
    }
  }
}
