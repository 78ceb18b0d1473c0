/** The UTF-8 byte view of a Rust `&str` (`str::as_bytes`), and the facts
    about it that the chunk-type factory relies on: ASCII characters are
    their own single byte, and every other character starts with a byte of
    0xC0 or more. */
module Utf8 {
  import opened Primitives

  predicate IsAscii(c: char) {
    c as int < 0x80
  }

  /** The UTF-8 encoding of one Unicode scalar value (RFC 3629, section 3). */
  function EncodeChar(c: char): (r: seq<byte>)
    ensures 1 <= |r| <= 4
    ensures IsAscii(c) ==> r == [c as int as byte]
    ensures !IsAscii(c) ==> r[0] >= 0xC0
  {
    var cp := c as int;
    if cp < 0x80 then [cp as byte]
    else if cp < 0x800 then
      [(0xC0 + cp / 0x40) as byte, (0x80 + cp % 0x40) as byte]
    else if cp < 0x1_0000 then
      [(0xE0 + cp / 0x1000) as byte, (0x80 + cp / 0x40 % 0x40) as byte, (0x80 + cp % 0x40) as byte]
    else
      [(0xF0 + cp / 0x4_0000) as byte, (0x80 + cp / 0x1000 % 0x40) as byte,
       (0x80 + cp / 0x40 % 0x40) as byte, (0x80 + cp % 0x40) as byte]
  }

  /** `str::as_bytes`: the concatenated encodings of the characters. */
  function Encode(s: string): (r: seq<byte>)
    ensures |r| >= |s|
    decreases |s|
  {
    if s == [] then [] else EncodeChar(s[0]) + Encode(s[1..])
  }

  /** A string of ASCII characters is encoded one byte per character. */
  lemma {:induction false} EncodeAscii(s: string)
    requires forall i :: 0 <= i < |s| ==> IsAscii(s[i])
    ensures |Encode(s)| == |s|
    ensures forall i :: 0 <= i < |s| ==> Encode(s)[i] as int == s[i] as int
  {
    if s != [] {
      EncodeAscii(s[1..]);
      assert Encode(s) == [s[0] as int as byte] + Encode(s[1..]);
    }
  }

  /** If every byte of the encoding is below 0xC0, every character is ASCII. */
  lemma {:induction false} SmallBytesMeanAscii(s: string)
    requires forall j :: 0 <= j < |Encode(s)| ==> Encode(s)[j] < 0xC0
    ensures forall i :: 0 <= i < |s| ==> IsAscii(s[i])
  {
    if s != [] {
      var head, tail := EncodeChar(s[0]), Encode(s[1..]);
      assert Encode(s) == head + tail;
      assert Encode(s)[0] == head[0];
      forall j | 0 <= j < |tail| ensures tail[j] < 0xC0 {
        assert tail[j] == Encode(s)[|head| + j];
      }
      SmallBytesMeanAscii(s[1..]);
      forall i | 0 <= i < |s| ensures IsAscii(s[i]) {
        if i > 0 { assert s[i] == s[1..][i - 1]; }
      }
    }
  }
}
