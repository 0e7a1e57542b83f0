/**
 * Bytes and Python's `str.encode('utf-8')`. The scripts build their log as text
 * (the header, the `$ command` lines) encoded to bytes and glued to the raw bytes
 * the build tools wrote.
 */
module Utf8 {

  newtype byte = x: int | 0 <= x < 256

  type Bytes = seq<byte>

  const LF: byte := 10
  const CR: byte := 13

  /** The UTF-8 encoding of one Unicode scalar value: one byte for ASCII, otherwise
      a lead byte followed by continuation bytes, all of them at least 0x80. */
  function EncodeChar(c: char): (b: Bytes)
    ensures 1 <= |b| <= 4
    ensures |b| == 1 <==> c as int < 0x80
    ensures |b| == 1 ==> b[0] as int == c as int
    ensures |b| > 1 ==> forall k :: 0 <= k < |b| ==> b[k] >= 0x80
  {
    var n := c as int;
    if n < 0x80 then [n as byte]
    else if n < 0x800 then [(0xC0 + n / 0x40) as byte, (0x80 + n % 0x40) as byte]
    else if n < 0x1_0000 then
      [(0xE0 + n / 0x1000) as byte, (0x80 + n / 0x40 % 0x40) as byte, (0x80 + n % 0x40) as byte]
    else
      [(0xF0 + n / 0x4_0000) as byte, (0x80 + n / 0x1000 % 0x40) as byte,
       (0x80 + n / 0x40 % 0x40) as byte, (0x80 + n % 0x40) as byte]
  }

  /** `s.encode('utf-8')`: the encodings of the characters, in order. */
  function Encode(s: string): Bytes
    decreases |s|
  {
    if s == [] then [] else Encode(s[..|s| - 1]) + EncodeChar(s[|s| - 1])
  }

  /** Encoding is a homomorphism: encoding a concatenation concatenates the encodings. */
  lemma {:induction false} EncodeAppend(a: string, b: string)
    ensures Encode(a + b) == Encode(a) + Encode(b)
    decreases |b|
  {
    if b == [] {
      assert a + b == a;
    } else {
      var init := b[..|b| - 1];
      assert (a + b)[..|a + b| - 1] == a + init;
      assert (a + b)[|a + b| - 1] == b[|b| - 1];
      EncodeAppend(a, init);
    }
  }

  /** An ASCII byte occurs in the encoding exactly where its character occurs in the text,
      because every byte of a multi-byte encoding is at least 0x80. */
  lemma {:induction false} EncodeAsciiIn(s: string, c: char)
    requires c as int < 0x80
    ensures (c as int as byte in Encode(s)) <==> c in s
    decreases |s|
  {
    if s != [] {
      var init := s[..|s| - 1];
      assert s == init + [s[|s| - 1]];
      EncodeAsciiIn(init, c);
      var last := EncodeChar(s[|s| - 1]);
      assert c as int as byte in last <==> s[|s| - 1] == c;
    }
  }

  /** A one-character string of ASCII encodes to its one byte. */
  lemma EncodeAscii(c: char)
    requires c as int < 0x80
    ensures Encode([c]) == [c as int as byte]
  {
    assert [c][..0] == [];
  }
}
