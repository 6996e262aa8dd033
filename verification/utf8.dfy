/** UTF-8, as Python's `str.encode('utf-8')` produces it. A Dafny `char` is a
    Unicode scalar value, so every string has an encoding (Python would raise
    on a lone surrogate, which a Dafny string cannot hold). The decoder exists
    to show that the encoding loses nothing. */
module Utf8 {
  import opened Text

  newtype byte = b: int | 0 <= b < 256

  /** Code points that are Unicode scalar values: everything up to 0x10FFFF
      except the surrogate range. */
  predicate IsScalar(n: int) {
    (0 <= n < 0xD800) || (0xE000 <= n < 0x11_0000)
  }

  /** Continuation bytes carry six payload bits under the marker 10xxxxxx. */
  predicate IsContinuation(b: byte) {
    0x80 <= b < 0xC0
  }

  /** The encoding of one character: one byte below 0x80, otherwise a lead
      byte announcing the length followed by continuation bytes, six bits
      each, most significant first. */
  function EncodeChar(c: char): (r: seq<byte>)
    ensures 1 <= |r| <= 4
    ensures (|r| == 1) == (c as int < 0x80)
    ensures |r| == 1 ==> r[0] as int == c as int
    ensures |r| > 1 ==> r[0] >= 0xC2 && forall i :: 1 <= i < |r| ==> IsContinuation(r[i])
  {
    var n := c as int;
    if n < 0x80 then
      [n as byte]
    else if n < 0x800 then
      [(0xC0 + n / 64) as byte, (0x80 + n % 64) as byte]
    else if n < 0x1_0000 then
      [(0xE0 + n / 4096) as byte, (0x80 + (n / 64) % 64) as byte, (0x80 + n % 64) as byte]
    else
      [(0xF0 + n / 262144) as byte, (0x80 + (n / 4096) % 64) as byte,
       (0x80 + (n / 64) % 64) as byte, (0x80 + n % 64) as byte]
  }

  /** `s.encode('utf-8')`. */
  function Encode(s: string): (r: seq<byte>)
    ensures |s| <= |r| <= 4 * |s|
  {
    if |s| == 0 then [] else EncodeChar(s[0]) + Encode(s[1..])
  }

  /** Reads one character from the front of `b`; gives the character and the
      number of bytes it used, or None when the front is not a well-formed
      encoding. */
  function DecodeChar(b: seq<byte>): (r: Option<(char, nat)>)
    ensures r.Some? ==> 1 <= r.value.1 <= |b|
  {
    if |b| == 0 then None
    else if b[0] < 0x80 then
      Some((b[0] as int as char, 1))
    else if 0xC2 <= b[0] < 0xE0 then
      if |b| < 2 || !IsContinuation(b[1]) then None
      else Some((((b[0] as int - 0xC0) * 64 + (b[1] as int - 0x80)) as char, 2))
    else if 0xE0 <= b[0] < 0xF0 then
      if |b| < 3 || !IsContinuation(b[1]) || !IsContinuation(b[2]) then None
      else
        var n := (b[0] as int - 0xE0) * 4096 + (b[1] as int - 0x80) * 64 + (b[2] as int - 0x80);
        if n < 0x800 || !IsScalar(n) then None else Some((n as char, 3))
    else if 0xF0 <= b[0] < 0xF5 then
      if |b| < 4 || !IsContinuation(b[1]) || !IsContinuation(b[2]) || !IsContinuation(b[3]) then None
      else
        var n := (b[0] as int - 0xF0) * 262144 + (b[1] as int - 0x80) * 4096
               + (b[2] as int - 0x80) * 64 + (b[3] as int - 0x80);
        if n < 0x1_0000 || !IsScalar(n) then None else Some((n as char, 4))
    else None
  }

  /** `b.decode('utf-8')`, None standing for a decoding error. */
  function Decode(b: seq<byte>): Option<string>
    decreases |b|
  {
    if |b| == 0 then Some("")
    else match DecodeChar(b)
      case None => None
      case Some((c, k)) =>
        match Decode(b[k..])
        case None => None
        case Some(s) => Some([c] + s)
  }

  lemma DecodeTwoBytes(c: char, rest: seq<byte>)
    requires 0x80 <= c as int < 0x800
    ensures DecodeChar(EncodeChar(c) + rest) == Some((c, 2))
  {
    var n := c as int;
    var b := EncodeChar(c) + rest;
    assert b[0] as int == 0xC0 + n / 64 && b[1] as int == 0x80 + n % 64;
    assert (b[0] as int - 0xC0) * 64 + (b[1] as int - 0x80) == n;
  }

  lemma DecodeThreeBytes(c: char, rest: seq<byte>)
    requires 0x800 <= c as int < 0x1_0000
    ensures DecodeChar(EncodeChar(c) + rest) == Some((c, 3))
  {
    var n := c as int;
    var b := EncodeChar(c) + rest;
    assert b[0] as int == 0xE0 + n / 4096 && b[1] as int == 0x80 + (n / 64) % 64
        && b[2] as int == 0x80 + n % 64;
    assert (b[0] as int - 0xE0) * 4096 + (b[1] as int - 0x80) * 64 + (b[2] as int - 0x80) == n;
  }

  /** Dividing by 4096 is dividing by 64 twice. */
  lemma DivBy4096(n: nat)
    ensures n / 4096 == (n / 64) / 64
  {
    var q := n / 64;
    assert n == 4096 * (q / 64) + 64 * (q % 64) + n % 64;
  }

  /** Dividing by 262144 is dividing by 4096, then by 64. */
  lemma DivBy262144(n: nat)
    ensures n / 262144 == (n / 4096) / 64
  {
    var q := n / 4096;
    assert n == 262144 * (q / 64) + 4096 * (q % 64) + n % 4096;
  }

  lemma DecodeFourBytes(c: char, rest: seq<byte>)
    requires 0x1_0000 <= c as int
    ensures DecodeChar(EncodeChar(c) + rest) == Some((c, 4))
  {
    var n := c as int;
    var q1 := n / 64;
    var q2 := q1 / 64;
    DivBy4096(n);
    DivBy262144(n);
    assert n == 262144 * (q2 / 64) + 4096 * (q2 % 64) + 64 * (q1 % 64) + n % 64 by {
      assert n == 64 * q1 + n % 64;
      assert q1 == 64 * q2 + q1 % 64;
      assert q2 == 64 * (q2 / 64) + q2 % 64;
    }
    var b := EncodeChar(c) + rest;
    assert b[0] as int == 0xF0 + q2 / 64 && b[1] as int == 0x80 + q2 % 64
        && b[2] as int == 0x80 + q1 % 64 && b[3] as int == 0x80 + n % 64;
  }

  /** The decoder reads back exactly the character the encoder wrote,
      whatever follows it. */
  lemma DecodeEncodeChar(c: char, rest: seq<byte>)
    ensures DecodeChar(EncodeChar(c) + rest) == Some((c, |EncodeChar(c)|))
  {
    var n := c as int;
    if n < 0x80 {
    } else if n < 0x800 {
      DecodeTwoBytes(c, rest);
    } else if n < 0x1_0000 {
      DecodeThreeBytes(c, rest);
    } else {
      DecodeFourBytes(c, rest);
    }
  }

  /** Decoding an encoding gives the string back. */
  lemma {:induction false} DecodeEncode(s: string)
    ensures Decode(Encode(s)) == Some(s)
    decreases |s|
  {
    if |s| > 0 {
      var e := EncodeChar(s[0]);
      DecodeEncodeChar(s[0], Encode(s[1..]));
      assert (e + Encode(s[1..]))[|e|..] == Encode(s[1..]);
      DecodeEncode(s[1..]);
      assert [s[0]] + s[1..] == s;
    }
  }

  /** Distinct strings have distinct encodings. */
  lemma EncodeInjective(s: string, t: string)
    requires Encode(s) == Encode(t)
    ensures s == t
  {
    DecodeEncode(s);
    DecodeEncode(t);
  }

  /** Every byte of a multi-byte encoding is at least 0x80, so an ASCII byte
      in an encoding always stands for that same ASCII character. */
  lemma {:induction false} EncodeAsciiByte(s: string, b: byte)
    requires b < 0x80
    ensures b in Encode(s) <==> b as int as char in s
    decreases |s|
  {
    if |s| > 0 {
      EncodeAsciiByte(s[1..], b);
      assert s == [s[0]] + s[1..];
      var e := EncodeChar(s[0]);
      assert b in e <==> s[0] == b as int as char by {
        if |e| > 1 {
          assert forall i :: 0 <= i < |e| ==> e[i] >= 0x80;
        }
      }
    }
  }
}
