/**
 UTF-8, as Python's `bytes(text, 'utf-8')` produces it. A Dafny `char` is a
 Unicode scalar value, so every string has an encoding (Python would raise
 for a lone surrogate, which a `char` cannot hold).
 */
module Utf8 {
  import opened Bytes
  import opened Text

  predicate IsScalar(cp: int) {
    (0 <= cp < 0xD800) || (0xE000 <= cp < 0x11_0000)
  }

  /** The one to four bytes that encode a single character. */
  function EncodeChar(c: char): (b: seq<byte>)
    ensures 1 <= |b| <= 4
    ensures |b| == 1 <==> (c as int) < 0x80
  {
    var cp := c as int;
    if cp < 0x80 then [cp]
    else if cp < 0x800 then [0xC0 + cp / 64, 0x80 + cp % 64]
    else if cp < 0x1_0000 then [0xE0 + cp / 4096, 0x80 + (cp / 64) % 64, 0x80 + cp % 64]
    else [0xF0 + cp / 262144, 0x80 + (cp / 4096) % 64, 0x80 + (cp / 64) % 64, 0x80 + cp % 64]
  }

  function Encode(s: string): (b: seq<byte>)
    ensures |b| >= |s|
    decreases |s|
  {
    if |s| == 0 then [] else EncodeChar(s[0]) + Encode(s[1..])
  }

  predicate IsCont(x: byte) {
    0x80 <= x < 0xC0
  }

  /** Decodes the character at the front of `b` with the byte count it used,
      or `None` if the front is not a well-formed sequence. */
  function DecodeChar(b: seq<byte>): (r: Option<(char, nat)>)
    ensures r.Some? ==> 1 <= r.value.1 <= |b|
  {
    if |b| == 0 then None
    else if b[0] < 0x80 then Some((b[0] as char, 1))
    else if 0xC0 <= b[0] < 0xE0 && |b| >= 2 && IsCont(b[1]) then
      var cp := ((b[0] as int) - 0xC0) * 64 + ((b[1] as int) - 0x80);
      if IsScalar(cp) then Some((cp as char, 2)) else None
    else if 0xE0 <= b[0] < 0xF0 && |b| >= 3 && IsCont(b[1]) && IsCont(b[2]) then
      var cp := ((b[0] as int) - 0xE0) * 4096 + ((b[1] as int) - 0x80) * 64 + ((b[2] as int) - 0x80);
      if IsScalar(cp) then Some((cp as char, 3)) else None
    else if 0xF0 <= b[0] < 0xF8 && |b| >= 4 && IsCont(b[1]) && IsCont(b[2]) && IsCont(b[3]) then
      var cp := ((b[0] as int) - 0xF0) * 262144 + ((b[1] as int) - 0x80) * 4096 + ((b[2] as int) - 0x80) * 64 + ((b[3] as int) - 0x80);
      if IsScalar(cp) then Some((cp as char, 4)) else None
    else None
  }

  /** Reads a byte sequence back as text, `None` at the first byte that does
      not start a well-formed sequence. It is the reader for `Encode`'s
      output; unlike `bytes.decode`, it does not reject overlong forms. */
  function Decode(b: seq<byte>): (r: Option<string>)
    decreases |b|
  {
    if |b| == 0 then Some("")
    else match DecodeChar(b)
      case None => None
      case Some((c, n)) =>
        match Decode(b[n..])
        case None => None
        case Some(rest) => Some([c] + rest)
  }

  /** Each character's encoding is read back as that character, whatever follows. */
  lemma DecodeEncodeChar(c: char, rest: seq<byte>)
    ensures DecodeChar(EncodeChar(c) + rest) == Some((c, |EncodeChar(c)|))
  {
    var cp := c as int;
    if cp < 0x80 {
    } else if cp < 0x800 {
      DecodeEncodeTwo(c, rest);
    } else if cp < 0x1_0000 {
      DecodeEncodeThree(c, rest);
    } else {
      DecodeEncodeFour(c, rest);
    }
  }

  lemma DecodeEncodeTwo(c: char, rest: seq<byte>)
    requires 0x80 <= c as int < 0x800
    ensures DecodeChar(EncodeChar(c) + rest) == Some((c, 2))
  {
    var cp := c as int;
    assert cp == (cp / 64) * 64 + cp % 64;
  }

  lemma DecodeEncodeThree(c: char, rest: seq<byte>)
    requires 0x800 <= c as int < 0x1_0000
    ensures DecodeChar(EncodeChar(c) + rest) == Some((c, 3))
  {
    var cp := c as int;
    assert cp / 64 == (cp / 4096) * 64 + (cp / 64) % 64;
    assert cp == (cp / 64) * 64 + cp % 64;
  }

  lemma DecodeEncodeFour(c: char, rest: seq<byte>)
    requires 0x1_0000 <= c as int
    ensures DecodeChar(EncodeChar(c) + rest) == Some((c, 4))
  {
    var cp := c as int;
    var b := EncodeChar(c) + rest;
    assert cp / 4096 == (cp / 262144) * 64 + (cp / 4096) % 64;
    assert cp / 64 == (cp / 4096) * 64 + (cp / 64) % 64;
    assert cp == (cp / 64) * 64 + cp % 64;
    assert b[0] == 0xF0 + cp / 262144 < 0xF8;
  }

  /** Decoding an encoding gives the original text. */
  lemma {:induction false} DecodeEncode(s: string)
    ensures Decode(Encode(s)) == Some(s)
    decreases |s|
  {
    if |s| > 0 {
      var e := EncodeChar(s[0]);
      DecodeEncodeChar(s[0], Encode(s[1..]));
      assert (e + Encode(s[1..]))[|e|..] == Encode(s[1..]);
      DecodeEncode(s[1..]);
      assert [s[0]] + s[1..] == s;
    }
  }

  /** Only the NUL character encodes to a NUL byte. */
  lemma {:induction false} EncodeNoNul(s: string)
    requires '\0' !in s
    ensures 0 !in Encode(s)
    decreases |s|
  {
    if |s| > 0 {
      EncodeNoNul(s[1..]);
    }
  }
}
