/** UTF-8, the fixed text encoding of the message-queue wire format (`String.getBytes(UTF_8)`
    and `new String(bytes, UTF_8)`). Decoding never fails: an ill-formed byte becomes U+FFFD,
    as in Java's replacing decoder. */
module Utf8 {

  newtype byte = x: int | 0 <= x < 256

  predicate IsScalar(cp: int) { 0 <= cp < 0xD800 || 0xE000 <= cp < 0x11_0000 }

  const REPLACEMENT: char := '\U{FFFD}'

  /** The one-to-four byte encoding of one character. */
  function EncodeChar(c: char): (b: seq<byte>)
    ensures 1 <= |b| <= 4
  {
    var cp := c as int;
    if cp < 0x80 then [cp as byte]
    else if cp < 0x800 then [(0xC0 + cp / 64) as byte, (0x80 + cp % 64) as byte]
    else if cp < 0x1_0000 then
      [(0xE0 + cp / 4096) as byte, (0x80 + cp / 64 % 64) as byte, (0x80 + cp % 64) as byte]
    else
      [(0xF0 + cp / 262144) as byte, (0x80 + cp / 4096 % 64) as byte,
       (0x80 + cp / 64 % 64) as byte, (0x80 + cp % 64) as byte]
  }

  function Encode(s: string): seq<byte>
  {
    if s == [] then [] else EncodeChar(s[0]) + Encode(s[1..])
  }

  predicate IsContinuation(b: byte) { 0x80 <= b < 0xC0 }

  /** The number of bytes a sequence starting with lead byte `b` occupies, 0 for a byte that
      cannot start a sequence. */
  function SequenceLength(b: byte): nat
  {
    if b < 0x80 then 1
    else if 0xC0 <= b < 0xE0 then 2
    else if 0xE0 <= b < 0xF0 then 3
    else if 0xF0 <= b < 0xF8 then 4
    else 0
  }

  /** The code point a well-formed-looking sequence of n bytes carries. */
  function CodePoint(b: seq<byte>, n: nat): int
    requires 1 <= n <= 4 && |b| >= n
  {
    if n == 1 then b[0] as int
    else if n == 2 then (b[0] as int - 0xC0) * 64 + (b[1] as int - 0x80)
    else if n == 3 then (b[0] as int - 0xE0) * 4096 + (b[1] as int - 0x80) * 64 + (b[2] as int - 0x80)
    else (b[0] as int - 0xF0) * 262144 + (b[1] as int - 0x80) * 4096 + (b[2] as int - 0x80) * 64 + (b[3] as int - 0x80)
  }

  /** The smallest code point that may use an n-byte sequence (shorter ones are overlong). */
  function MinCodePoint(n: nat): int
  {
    if n <= 1 then 0 else if n == 2 then 0x80 else if n == 3 then 0x800 else 0x1_0000
  }

  /** Decodes the first character of a non-empty byte sequence and says how many bytes it used. */
  function DecodeStep(b: seq<byte>): (r: (char, nat))
    requires b != []
    ensures 1 <= r.1 <= |b|
  {
    var n := SequenceLength(b[0]);
    if n == 0 || |b| < n then (REPLACEMENT, 1)
    else if exists i :: 1 <= i < n && !IsContinuation(b[i]) then (REPLACEMENT, 1)
    else
      var cp := CodePoint(b, n);
      if cp < MinCodePoint(n) || !IsScalar(cp) then (REPLACEMENT, 1)
      else (cp as char, n)
  }

  function Decode(b: seq<byte>): string
    decreases |b|
  {
    if b == [] then [] else
      var (c, n) := DecodeStep(b);
      [c] + Decode(b[n..])
  }


  lemma DecodeOneChar(c: char, rest: seq<byte>)
    ensures DecodeStep(EncodeChar(c) + rest) == (c, |EncodeChar(c)|)
  {
    var cp := c as int;
    if cp < 0x80 {
    } else if cp < 0x800 {
      DecodeTwoBytes(c, rest);
    } else if cp < 0x1_0000 {
      DecodeThreeBytes(c, rest);
    } else {
      DecodeFourBytes(c, rest);
    }
  }

  lemma DecodeTwoBytes(c: char, rest: seq<byte>)
    requires 0x80 <= c as int < 0x800
    ensures DecodeStep(EncodeChar(c) + rest) == (c, 2)
  {
    var cp := c as int;
    var b := EncodeChar(c) + rest;
    assert b[0] as int == 0xC0 + cp / 64 && b[1] as int == 0x80 + cp % 64;
    assert CodePoint(b, 2) == cp;
  }

  lemma DecodeThreeBytes(c: char, rest: seq<byte>)
    requires 0x800 <= c as int < 0x1_0000
    ensures DecodeStep(EncodeChar(c) + rest) == (c, 3)
  {
    var cp := c as int;
    var b := EncodeChar(c) + rest;
    assert b[0] as int == 0xE0 + cp / 4096 && b[1] as int == 0x80 + cp / 64 % 64 && b[2] as int == 0x80 + cp % 64;
    assert cp / 4096 == cp / 64 / 64;
    assert CodePoint(b, 3) == cp;
  }

  lemma DecodeFourBytes(c: char, rest: seq<byte>)
    requires 0x1_0000 <= c as int
    ensures DecodeStep(EncodeChar(c) + rest) == (c, 4)
  {
    var cp := c as int;
    var b := EncodeChar(c) + rest;
    assert b[0] as int == 0xF0 + cp / 262144 && b[1] as int == 0x80 + cp / 4096 % 64;
    assert b[2] as int == 0x80 + cp / 64 % 64 && b[3] as int == 0x80 + cp % 64;
    assert cp / 262144 == cp / 4096 / 64 && cp / 4096 == cp / 64 / 64;
    assert CodePoint(b, 4) == cp;
  }

  /** Decoding what was encoded gives back the same text. */
  lemma {:induction false} DecodeEncode(s: string)
    ensures Decode(Encode(s)) == s
  {
    if s != [] {
      var e := EncodeChar(s[0]);
      assert Encode(s) == e + Encode(s[1..]);
      DecodeOneChar(s[0], Encode(s[1..]));
      assert (e + Encode(s[1..]))[|e|..] == Encode(s[1..]);
      DecodeEncode(s[1..]);
    }
  }
}
