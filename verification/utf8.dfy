/**
 * Text encoding at the edges of the server: `String::from_utf8_lossy` turns
 * the request buffer and each file response into text, and `as_bytes` turns
 * the response text back into the bytes written to the socket.
 *
 * The lossy decoder follows the Rust standard library's rule: the input is
 * cut into chunks, each either one well-formed UTF-8 sequence (decoded to its
 * scalar value) or one maximal invalid subpart (replaced by U+FFFD).
 */
module Utf8 {

  /** An octet, as held in Rust's `u8` buffers. */
  newtype byte = x: int | 0 <= x < 0x100

  /** U+FFFD REPLACEMENT CHARACTER, what the lossy decoder writes for invalid input. */
  const Replacement: char := '\U{FFFD}'

  predicate IsAscii(bs: seq<byte>)
  {
    forall i :: 0 <= i < |bs| ==> bs[i] < 0x80
  }

  predicate IsContinuation(b: byte)
  {
    0x80 <= b < 0xC0
  }

  /** The allowed second bytes of a three-byte sequence led by `b0` (no overlongs, no surrogates). */
  predicate SecondOfThree(b0: byte, b1: byte)
  {
    if b0 == 0xE0 then 0xA0 <= b1 < 0xC0
    else if b0 == 0xED then 0x80 <= b1 < 0xA0
    else IsContinuation(b1)
  }

  /** The allowed second bytes of a four-byte sequence led by `b0` (no overlongs, nothing past U+10FFFF). */
  predicate SecondOfFour(b0: byte, b1: byte)
  {
    if b0 == 0xF0 then 0x90 <= b1 < 0xC0
    else if b0 == 0xF4 then 0x80 <= b1 < 0x90
    else IsContinuation(b1)
  }

  /** One chunk of the input: a decoded scalar value, or an invalid subpart; `len` bytes long. */
  datatype Chunk = Scalar(c: char, len: nat) | Invalid(len: nat)

  /**
   * The chunk at the head of `bs`. A byte that cannot continue the current
   * sequence (or the end of the input) ends an invalid chunk just before it.
   */
  function LeadChunk(bs: seq<byte>): (k: Chunk)
    requires |bs| > 0
    ensures 1 <= k.len <= |bs| && k.len <= 4
    ensures k.Scalar? && k.len == 1 <==> bs[0] < 0x80
  {
    var b0 := bs[0];
    if b0 < 0x80 then
      Scalar(b0 as int as char, 1)
    else if 0xC2 <= b0 < 0xE0 then
      if |bs| > 1 && IsContinuation(bs[1]) then
        Scalar(((b0 as int - 0xC0) * 64 + (bs[1] as int - 0x80)) as char, 2)
      else Invalid(1)
    else if 0xE0 <= b0 < 0xF0 then
      if |bs| > 1 && SecondOfThree(b0, bs[1]) then
        if |bs| > 2 && IsContinuation(bs[2]) then
          Scalar(((b0 as int - 0xE0) * 4096 + (bs[1] as int - 0x80) * 64 + (bs[2] as int - 0x80)) as char, 3)
        else Invalid(2)
      else Invalid(1)
    else if 0xF0 <= b0 < 0xF5 then
      if |bs| > 1 && SecondOfFour(b0, bs[1]) then
        if |bs| > 2 && IsContinuation(bs[2]) then
          if |bs| > 3 && IsContinuation(bs[3]) then
            Scalar(((b0 as int - 0xF0) * 0x40000 + (bs[1] as int - 0x80) * 4096
                    + (bs[2] as int - 0x80) * 64 + (bs[3] as int - 0x80)) as char, 4)
          else Invalid(3)
        else Invalid(2)
      else Invalid(1)
    else
      Invalid(1)
  }

  /** `String::from_utf8_lossy`: decode, replacing each invalid chunk by one U+FFFD. */
  function Decode(bs: seq<byte>): (s: string)
    ensures |s| <= |bs|
    ensures s == [] <==> bs == []
    decreases |bs|
  {
    if bs == [] then []
    else
      var k := LeadChunk(bs);
      [if k.Scalar? then k.c else Replacement] + Decode(bs[k.len..])
  }

  /** Well-formed UTF-8: every chunk decodes to a scalar value. */
  predicate Valid(bs: seq<byte>)
    decreases |bs|
  {
    bs == [] || (LeadChunk(bs).Scalar? && Valid(bs[LeadChunk(bs).len..]))
  }

  /** The UTF-8 encoding of one scalar value. */
  function EncodeChar(c: char): (r: seq<byte>)
    ensures 1 <= |r| <= 4
  {
    var cp := c as int;
    if cp < 0x80 then
      [cp as byte]
    else if cp < 0x800 then
      [(0xC0 + cp / 64) as byte, (0x80 + cp % 64) as byte]
    else if cp < 0x10000 then
      [(0xE0 + cp / 4096) as byte, (0x80 + cp / 64 % 64) as byte, (0x80 + cp % 64) as byte]
    else
      [(0xF0 + cp / 0x40000) as byte, (0x80 + cp / 4096 % 64) as byte,
       (0x80 + cp / 64 % 64) as byte, (0x80 + cp % 64) as byte]
  }

  /** `str::as_bytes`: the UTF-8 encoding of a string. */
  function Encode(s: string): (bs: seq<byte>)
    ensures |s| <= |bs| <= 4 * |s|
  {
    if s == [] then [] else EncodeChar(s[0]) + Encode(s[1..])
  }

  /** Dividing a number written in base 64 with a known lowest digit. */
  lemma DivMod64(q: int, r: int)
    requires 0 <= r < 64
    ensures (q * 64 + r) / 64 == q && (q * 64 + r) % 64 == r
  {
  }

  /** The encoding of a scalar value is read back as that value, whatever follows it. */
  lemma DecodeEncodeChar(c: char, rest: seq<byte>)
    ensures LeadChunk(EncodeChar(c) + rest) == Scalar(c, |EncodeChar(c)|)
  {
    var cp := c as int;
    if cp < 0x80 {
    } else if cp < 0x800 {
      DecodeTwoBytes(c, rest);
    } else if cp < 0x10000 {
      DecodeThreeBytes(c, rest);
    } else {
      DecodeFourBytes(c, rest);
    }
  }

  lemma DecodeTwoBytes(c: char, rest: seq<byte>)
    requires 0x80 <= c as int < 0x800
    ensures LeadChunk(EncodeChar(c) + rest) == Scalar(c, 2)
  {
    var cp := c as int;
    assert cp == (cp / 64) * 64 + cp % 64;
  }

  lemma DecodeThreeBytes(c: char, rest: seq<byte>)
    requires 0x800 <= c as int < 0x10000
    ensures LeadChunk(EncodeChar(c) + rest) == Scalar(c, 3)
  {
    var cp := c as int;
    var q := cp / 64;
    assert cp == q * 64 + cp % 64;
    assert q == (q / 64) * 64 + q % 64;
    assert q / 64 == cp / 4096;
    assert cp == (cp / 4096) * 4096 + (cp / 64 % 64) * 64 + cp % 64;
  }

  lemma DecodeFourBytes(c: char, rest: seq<byte>)
    requires 0x10000 <= c as int
    ensures LeadChunk(EncodeChar(c) + rest) == Scalar(c, 4)
  {
    var cp := c as int;
    var q := cp / 64;
    var p := q / 64;
    assert cp == q * 64 + cp % 64;
    assert q == p * 64 + q % 64;
    assert p == (p / 64) * 64 + p % 64;
    assert p == cp / 4096;
    assert p / 64 == cp / 0x40000;
    assert cp == (cp / 0x40000) * 0x40000 + (cp / 4096 % 64) * 4096 + (cp / 64 % 64) * 64 + cp % 64;
  }

  /** A valid chunk is exactly the encoding of the scalar value it decodes to. */
  lemma EncodeLeadChunk(bs: seq<byte>)
    requires |bs| > 0 && LeadChunk(bs).Scalar?
    ensures EncodeChar(LeadChunk(bs).c) == bs[..LeadChunk(bs).len]
  {
    var k := LeadChunk(bs);
    TakeSmall(bs);
    if k.len == 2 {
      EncodeTwoBytes(bs[0], bs[1]);
    } else if k.len == 3 {
      EncodeThreeBytes(bs[0], bs[1], bs[2]);
    } else if k.len == 4 {
      EncodeFourBytes(bs[0], bs[1], bs[2], bs[3]);
    }
  }

  lemma TakeSmall<T>(s: seq<T>)
    ensures |s| >= 1 ==> s[..1] == [s[0]]
    ensures |s| >= 2 ==> s[..2] == [s[0], s[1]]
    ensures |s| >= 3 ==> s[..3] == [s[0], s[1], s[2]]
    ensures |s| >= 4 ==> s[..4] == [s[0], s[1], s[2], s[3]]
  {
  }

  lemma EncodeTwoBytes(b0: byte, b1: byte)
    requires 0xC2 <= b0 < 0xE0 && IsContinuation(b1)
    ensures EncodeChar(((b0 as int - 0xC0) * 64 + (b1 as int - 0x80)) as char) == [b0, b1]
  {
    DivMod64(b0 as int - 0xC0, b1 as int - 0x80);
  }

  lemma EncodeThreeBytes(b0: byte, b1: byte, b2: byte)
    requires 0xE0 <= b0 < 0xF0 && SecondOfThree(b0, b1) && IsContinuation(b2)
    ensures EncodeChar(((b0 as int - 0xE0) * 4096 + (b1 as int - 0x80) * 64 + (b2 as int - 0x80)) as char)
            == [b0, b1, b2]
  {
    var x, y, z := b0 as int - 0xE0, b1 as int - 0x80, b2 as int - 0x80;
    var cp := x * 4096 + y * 64 + z;
    assert cp == (x * 64 + y) * 64 + z;
    DivMod64(x * 64 + y, z);
    DivMod64(x, y);
    assert cp / 4096 == x;
  }

  lemma EncodeFourBytes(b0: byte, b1: byte, b2: byte, b3: byte)
    requires 0xF0 <= b0 < 0xF5 && SecondOfFour(b0, b1) && IsContinuation(b2) && IsContinuation(b3)
    ensures EncodeChar(((b0 as int - 0xF0) * 0x40000 + (b1 as int - 0x80) * 4096
                        + (b2 as int - 0x80) * 64 + (b3 as int - 0x80)) as char)
            == [b0, b1, b2, b3]
  {
    var w, x, y, z := b0 as int - 0xF0, b1 as int - 0x80, b2 as int - 0x80, b3 as int - 0x80;
    var cp := w * 0x40000 + x * 4096 + y * 64 + z;
    assert cp == ((w * 64 + x) * 64 + y) * 64 + z;
    DivMod64((w * 64 + x) * 64 + y, z);
    DivMod64(w * 64 + x, y);
    DivMod64(w, x);
    assert cp / 4096 == w * 64 + x;
    assert cp / 0x40000 == w;
  }

  /** Decoding undoes encoding, and the encoded text ends on a chunk boundary. */
  lemma {:induction false} DecodeAfterEncode(s: string, rest: seq<byte>)
    ensures Decode(Encode(s) + rest) == s + Decode(rest)
  {
    if s == [] {
      assert Encode(s) + rest == rest;
    } else {
      var tail := Encode(s[1..]) + rest;
      assert Encode(s) + rest == EncodeChar(s[0]) + tail;
      DecodeCharThen(s[0], tail);
      DecodeAfterEncode(s[1..], rest);
      ConsAppend(s, Decode(rest));
    }
  }

  lemma ConsAppend<T>(s: seq<T>, d: seq<T>)
    requires |s| > 0
    ensures [s[0]] + (s[1..] + d) == s + d
  {
  }

  lemma DecodeCharThen(c: char, tail: seq<byte>)
    ensures Decode(EncodeChar(c) + tail) == [c] + Decode(tail)
  {
    var e := EncodeChar(c);
    DecodeEncodeChar(c, tail);
    assert (e + tail)[|e|..] == tail;
  }

  /** `as_bytes` always yields well-formed UTF-8. */
  lemma {:induction false} EncodeIsValid(s: string)
    ensures Valid(Encode(s))
  {
    if s != [] {
      var e := EncodeChar(s[0]);
      DecodeEncodeChar(s[0], Encode(s[1..]));
      assert (e + Encode(s[1..]))[|e|..] == Encode(s[1..]);
      EncodeIsValid(s[1..]);
    }
  }

  /** On well-formed input the lossy decoder loses nothing: re-encoding gives the bytes back. */
  lemma {:induction false} EncodeAfterDecode(bs: seq<byte>)
    requires Valid(bs)
    ensures Encode(Decode(bs)) == bs
  {
    if bs != [] {
      var k := LeadChunk(bs);
      var rest := bs[k.len..];
      EncodeLeadChunk(bs);
      EncodeAfterDecode(rest);
      EncodeCons(k.c, Decode(rest));
      calc {
        Encode(Decode(bs));
        Encode([k.c] + Decode(rest));
        EncodeChar(k.c) + Encode(Decode(rest));
        { TakeDrop(bs, k.len); }
        bs;
      }
    }
  }

  lemma TakeDrop<T>(s: seq<T>, n: nat)
    requires n <= |s|
    ensures s[..n] + s[n..] == s
  {
  }

  lemma EncodeCons(c: char, s: string)
    ensures Encode([c] + s) == EncodeChar(c) + Encode(s)
  {
    assert ([c] + s)[1..] == s;
  }

  /** An ASCII byte (or the end of input) never continues a sequence, so the chunk before it ends there. */
  lemma LeadChunkBeforeAscii(a: seq<byte>, b: seq<byte>)
    requires |a| > 0
    requires b == [] || b[0] < 0x80
    ensures LeadChunk(a + b) == LeadChunk(a)
  {
    var ab := a + b;
    assert forall i :: 0 <= i < |a| ==> ab[i] == a[i];
    assert |a| < |ab| ==> ab[|a|] < 0x80;
  }

  /** Decoding splits at an ASCII byte: no chunk straddles it. */
  lemma {:induction false} DecodeSplit(a: seq<byte>, b: seq<byte>)
    requires b == [] || b[0] < 0x80
    ensures Decode(a + b) == Decode(a) + Decode(b)
  {
    if a == [] {
      assert a + b == b;
    } else {
      var k := LeadChunk(a);
      LeadChunkBeforeAscii(a, b);
      assert (a + b)[k.len..] == a[k.len..] + b;
      DecodeSplit(a[k.len..], b);
    }
  }

  /** A line feed is decoded only from the byte 0x0A. */
  lemma {:induction false} DecodeWithoutNewline(bs: seq<byte>)
    requires 0x0A !in bs
    ensures '\n' !in Decode(bs)
  {
    if bs != [] {
      var k := LeadChunk(bs);
      var rest := bs[k.len..];
      assert forall i :: 0 <= i < |rest| ==> rest[i] == bs[k.len + i];
      LeadChunkNotNewline(bs);
      DecodeWithoutNewline(rest);
    }
  }

  /** Only the byte 0x0A starts a chunk that decodes to a line feed. */
  lemma LeadChunkNotNewline(bs: seq<byte>)
    requires |bs| > 0 && bs[0] != 0x0A
    ensures LeadChunk(bs).Scalar? ==> LeadChunk(bs).c != '\n'
  {
  }

  /** The lossy decoder reads back every encoded string exactly. */
  lemma DecodeEncode(s: string)
    ensures Decode(Encode(s)) == s
  {
    var e := Encode(s);
    DecodeAfterEncode(s, []);
    assert e + [] == e;
    assert s + [] == s;
  }

  /** Different strings have different encodings. */
  lemma EncodeInjective(s: string, t: string)
    requires Encode(s) == Encode(t)
    ensures s == t
  {
    DecodeEncode(s);
    DecodeEncode(t);
  }
}
