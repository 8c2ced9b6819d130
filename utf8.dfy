/**
 * UTF-8 (RFC 3629), the encoding Node's `Buffer.from(string)` applies to a
 * JavaScript string before it is hashed or base64-encoded.  Dafny's `char` is
 * a Unicode scalar value, so every string here has an encoding.
 */
module Utf8 {
  import opened Wrappers
  import opened Bytes


  predicate IsContinuation(b: byte) { 0x80 <= b < 0xC0 }

  /** The bytes that encode one scalar value, in the shortest form. */
  function EncodeChar(c: char): (r: seq<byte>)
    ensures 1 <= |r| <= 4
    ensures c as int < 0x80 ==> r == [c as int as byte]
    ensures c as int >= 0x80 ==> forall i :: 0 <= i < |r| ==> r[i] >= 0x80
  {
    var n := c as int;
    if n < 0x80 then [n as byte]
    else if n < 0x800 then [(0xC0 + n / 64) as byte, (0x80 + n % 64) as byte]
    else if n < 0x10000 then
      [(0xE0 + n / 4096) as byte, (0x80 + n / 64 % 64) as byte, (0x80 + n % 64) as byte]
    else
      [(0xF0 + n / 262144) as byte, (0x80 + n / 4096 % 64) as byte,
       (0x80 + n / 64 % 64) as byte, (0x80 + n % 64) as byte]
  }

  function Encode(s: string): seq<byte>
  {
    if s == [] then [] else EncodeChar(s[0]) + Encode(s[1..])
  }

  /** A scalar value: a code point that is not a surrogate. */
  predicate IsScalar(n: int) { (0 <= n < 0xD800) || (0xE000 <= n < 0x110000) }

  /**
   * Decodes the character at the head of `b` and tells how many bytes it
   * used; refuses truncated sequences, stray continuation bytes, overlong
   * forms, surrogates and values above U+10FFFF.
   */
  function DecodeHead(b: seq<byte>): (r: Option<(char, nat)>)
    requires |b| > 0
    ensures r.Some? ==> 1 <= r.value.1 <= |b|
  {
    var b0 := b[0] as int;
    if b0 < 0x80 then Some((b0 as char, 1))
    else if 0xC2 <= b0 < 0xE0 && |b| >= 2 && IsContinuation(b[1]) then
      Some((((b0 - 0xC0) * 64 + (b[1] as int - 0x80)) as char, 2))
    else if 0xE0 <= b0 < 0xF0 && |b| >= 3 && IsContinuation(b[1]) && IsContinuation(b[2]) then
      var n := (b0 - 0xE0) * 4096 + (b[1] as int - 0x80) * 64 + (b[2] as int - 0x80);
      if 0x800 <= n && IsScalar(n) then Some((n as char, 3)) else None
    else if 0xF0 <= b0 < 0xF5 && |b| >= 4
         && IsContinuation(b[1]) && IsContinuation(b[2]) && IsContinuation(b[3]) then
      var n := (b0 - 0xF0) * 262144 + (b[1] as int - 0x80) * 4096
               + (b[2] as int - 0x80) * 64 + (b[3] as int - 0x80);
      if 0x10000 <= n && IsScalar(n) then Some((n as char, 4)) else None
    else None
  }

  function Decode(b: seq<byte>): Option<string>
    decreases |b|
  {
    if b == [] then Some([])
    else match DecodeHead(b)
      case None => None
      case Some((c, k)) =>
        match Decode(b[k..])
        case None => None
        case Some(rest) => Some([c] + rest)
  }

  /** Decoding the head of a character's encoding gives the character back. */
  lemma DecodeHeadEncodeChar(c: char, tail: seq<byte>)
    ensures DecodeHead(EncodeChar(c) + tail) == Some((c, |EncodeChar(c)|))
  {
    var n := c as int;
    if n < 0x80 {
    } else if n < 0x800 {
      DecodeHeadTwo(c, tail);
    } else if n < 0x10000 {
      DecodeHeadThree(c, tail);
    } else {
      DecodeHeadFour(c, tail);
    }
  }

  lemma DecodeHeadTwo(c: char, tail: seq<byte>)
    requires 0x80 <= c as int < 0x800
    ensures DecodeHead(EncodeChar(c) + tail) == Some((c, 2))
  {
    var n := c as int;
    var q, r := n / 64, n % 64;
    assert n == q * 64 + r;
    var b := EncodeChar(c) + tail;
    assert b[0] as int == 0xC0 + q && b[1] as int == 0x80 + r;
  }

  lemma DecodeHeadThree(c: char, tail: seq<byte>)
    requires 0x800 <= c as int < 0x10000
    ensures DecodeHead(EncodeChar(c) + tail) == Some((c, 3))
  {
    var n := c as int;
    var q, r := n / 64, n % 64;
    var q2, r2 := q / 64, q % 64;
    assert n == q * 64 + r && q == q2 * 64 + r2;
    assert n / 4096 == q2;
    var b := EncodeChar(c) + tail;
    assert b[0] as int == 0xE0 + q2 && b[1] as int == 0x80 + r2 && b[2] as int == 0x80 + r;
    assert q2 * 4096 + r2 * 64 + r == n;
  }

  lemma DecodeHeadFour(c: char, tail: seq<byte>)
    requires 0x10000 <= c as int
    ensures DecodeHead(EncodeChar(c) + tail) == Some((c, 4))
  {
    var n := c as int;
    var q, r := n / 64, n % 64;
    var q2, r2 := q / 64, q % 64;
    var q3, r3 := q2 / 64, q2 % 64;
    assert n == q * 64 + r && q == q2 * 64 + r2 && q2 == q3 * 64 + r3;
    assert n / 4096 == q2 && n / 262144 == q3;
    var b := EncodeChar(c) + tail;
    assert b[0] as int == 0xF0 + q3 && b[1] as int == 0x80 + r3;
    assert b[2] as int == 0x80 + r2 && b[3] as int == 0x80 + r;
    assert q3 * 262144 + r3 * 4096 + r2 * 64 + r == n;
  }

  /** Decoding undoes encoding, so the text inside a byte payload is recoverable. */
  lemma {:induction false} DecodeEncode(s: string)
    ensures Decode(Encode(s)) == Some(s)
  {
    if s != [] {
      var head := EncodeChar(s[0]);
      var b := Encode(s);
      DecodeHeadEncodeChar(s[0], Encode(s[1..]));
      assert b[|head|..] == Encode(s[1..]);
      DecodeEncode(s[1..]);
      assert [s[0]] + s[1..] == s;
    }
  }
}
