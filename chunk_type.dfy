/** The 4-byte chunk type of section 5.4 of the PNG specification
    (ISO/IEC 15948): four ASCII letters, where the case of each letter carries
    one property bit (bit 5 of the byte, value 32): ancillary, private,
    reserved and safe-to-copy. A `ChunkType` can only hold four letters; the
    factory `FromSlice` is the only way to build one from untrusted bytes. */
module ChunkTypes {
  import opened Primitives
  import Utf8

  /** `is_valid_byte`: an ASCII letter, A-Z or a-z. */
  predicate IsValidByte(b: byte) {
    (b >= 65 && b <= 90) || (b >= 97 && b <= 122)
  }

  /** `u8::is_ascii_uppercase`. */
  predicate IsAsciiUpper(b: byte) {
    65 <= b <= 90
  }

  /** `u8::is_ascii_lowercase`. */
  predicate IsAsciiLower(b: byte) {
    97 <= b <= 122
  }

  /** What `from_slice` demands: exactly four bytes, each a letter. */
  predicate IsValidTag(d: seq<byte>) {
    |d| == 4 && forall i :: 0 <= i < |d| ==> IsValidByte(d[i])
  }

  /** The byte vectors a chunk type may hold. */
  type Tag = d: seq<byte> | IsValidTag(d) witness [65, 65, 65, 65]

  datatype ChunkType = ChunkType(data: Tag)

  /** `ChunkType::from_slice`: the length check, then a scan that stops at
      the first byte that is not a letter. */
  method FromSlice(d: seq<byte>) returns (r: Result<ChunkType>)
    ensures r.Ok? <==> |d| == 4 && forall i :: 0 <= i < |d| ==> IsValidByte(d[i])
    ensures r.Ok? ==> r.value.data == d
  {
    if |d| != 4 {
      return Err;
    }
    for i := 0 to |d|
      invariant forall j :: 0 <= j < i ==> IsValidByte(d[j])
    {
      if !IsValidByte(d[i]) {
        return Err;
      }
    }
    return Ok(ChunkType(d));
  }

  /** `TryFrom<[u8; 4]>`: the array has four bytes by its type. */
  method TryFromArray(a: seq<byte>) returns (r: Result<ChunkType>)
    requires |a| == 4
    ensures r.Ok? <==> forall i :: 0 <= i < 4 ==> IsValidByte(a[i])
    ensures r.Ok? ==> r.value.data == a
  {
    r := FromSlice(a);
  }

  predicate IsAsciiLetter(c: char) {
    'A' <= c <= 'Z' || 'a' <= c <= 'z'
  }

  /** `FromStr`: validates the UTF-8 bytes of the string, so it accepts
      exactly the strings of four ASCII letters, and the tag holds their
      character codes. */
  method FromStr(s: string) returns (r: Result<ChunkType>)
    ensures r.Ok? <==> |s| == 4 && forall i :: 0 <= i < |s| ==> IsAsciiLetter(s[i])
    ensures r.Ok? ==> forall i :: 0 <= i < |s| ==> r.value.data[i] as int == s[i] as int
  {
    r := FromSlice(Utf8.Encode(s));
    LetterStringIff(s);
    if r.Ok? {
      Utf8.EncodeAscii(s);
    }
  }

  /** The UTF-8 bytes of `s` form a valid tag exactly when `s` is four ASCII letters. */
  lemma LetterStringIff(s: string)
    ensures IsValidTag(Utf8.Encode(s)) <==> |s| == 4 && forall i :: 0 <= i < |s| ==> IsAsciiLetter(s[i])
  {
    var e := Utf8.Encode(s);
    if IsValidTag(e) {
      Utf8.SmallBytesMeanAscii(s);
      Utf8.EncodeAscii(s);
      forall i | 0 <= i < |s| ensures IsAsciiLetter(s[i]) {
        assert IsValidByte(e[i]);
      }
    }
    if |s| == 4 && forall i :: 0 <= i < |s| ==> IsAsciiLetter(s[i]) {
      Utf8.EncodeAscii(s);
    }
  }

  /** `bytes`: copies the four bytes into a fresh `[u8; 4]`. */
  method Bytes(t: ChunkType) returns (b: seq<byte>)
    ensures |b| == 4 && b == t.data
  {
    var a := new byte[4];
    for i := 0 to 4
      invariant a[..i] == t.data[..i]
    {
      a[i] := t.data[i];
    }
    assert a[..] == a[..4];
    b := a[..];
  }

  /** `PartialEq::eq`: byte-wise comparison of the stored vectors. */
  function Eq(a: ChunkType, b: ChunkType): (r: bool)
    ensures r <==> a == b
    ensures r <==> forall i :: 0 <= i < 4 ==> a.data[i] == b.data[i]
  {
    a.data == b.data
  }

  /** `is_valid`: tests the case of byte 2, exactly as `is_reserved_bit_valid` does. */
  predicate IsValid(t: ChunkType) {
    IsAsciiUpper(t.data[2])
  }

  predicate IsCritical(t: ChunkType) {
    IsAsciiUpper(t.data[0])
  }

  predicate IsPublic(t: ChunkType) {
    IsAsciiUpper(t.data[1])
  }

  predicate IsReservedBitValid(t: ChunkType) {
    IsAsciiUpper(t.data[2])
  }

  predicate IsSafeToCopy(t: ChunkType) {
    IsAsciiLower(t.data[3])
  }

  /** `Display`: the four bytes read as ASCII characters; the decoding
      cannot fail, because UTF-8-encoding the result gives the bytes back. */
  function ToString(t: ChunkType): (s: string)
    ensures |s| == 4
    ensures Utf8.Encode(s) == t.data
  {
    var chars := seq(4, i requires 0 <= i < 4 => t.data[i] as int as char);
    assert forall i :: 0 <= i < 4 ==> chars[i] as int == t.data[i] as int < 0x80;
    Utf8.EncodeAscii(chars);
    chars
  }

  /** The property bit of section 5.4 of the PNG specification: bit 5 of the byte. */
  function PropertyBit(b: byte): (bit: int) {
    b as int / 32 % 2
  }

  /** For a letter, upper case is property bit 0 and lower case is property
      bit 1; so each byte of a chunk type is exactly one of the two. */
  lemma CaseIsPropertyBit(b: byte)
    requires IsValidByte(b)
    ensures IsAsciiUpper(b) <==> PropertyBit(b) == 0
    ensures IsAsciiLower(b) <==> PropertyBit(b) == 1
    ensures IsAsciiLower(b) <==> !IsAsciiUpper(b)
  {
    if b <= 90 {
      assert 2 <= b as int / 32 <= 2;
    } else {
      assert 3 <= b as int / 32 <= 3;
    }
  }

  /** The four classification predicates read the property bits of bytes 0-3:
      critical, public and reserved-valid when the bit is 0, safe to copy
      when it is 1. */
  lemma PredicatesReadPropertyBits(t: ChunkType)
    ensures IsCritical(t) <==> PropertyBit(t.data[0]) == 0
    ensures IsPublic(t) <==> PropertyBit(t.data[1]) == 0
    ensures IsReservedBitValid(t) <==> PropertyBit(t.data[2]) == 0
    ensures IsSafeToCopy(t) <==> PropertyBit(t.data[3]) == 1
  {
    CaseIsPropertyBit(t.data[0]);
    CaseIsPropertyBit(t.data[1]);
    CaseIsPropertyBit(t.data[2]);
    CaseIsPropertyBit(t.data[3]);
  }

  /** `is_valid` and `is_reserved_bit_valid` always agree. */
  lemma IsValidIsReservedBitValid(t: ChunkType)
    ensures IsValid(t) == IsReservedBitValid(t)
  {
  }

  /** Because every byte is a letter, "lower case" and "not upper case" coincide
      for byte 3. */
  lemma SafeToCopyIffNotUpper(t: ChunkType)
    ensures IsSafeToCopy(t) <==> !IsAsciiUpper(t.data[3])
  {
    CaseIsPropertyBit(t.data[3]);
  }

  /** Parsing a string and displaying the result gives the string back. */
  lemma DisplayRoundTrip(s: string)
    requires |s| == 4 && forall i :: 0 <= i < 4 ==> IsAsciiLetter(s[i])
    ensures IsValidTag(Utf8.Encode(s))
    ensures ToString(ChunkType(Utf8.Encode(s))) == s
  {
    LetterStringIff(s);
    Utf8.EncodeAscii(s);
    var t := ChunkType(Utf8.Encode(s));
    assert forall i :: 0 <= i < 4 ==> ToString(t)[i] == s[i];
  }

  /** The tests on "RuSt", "ruSt", "RUSt", "Rust", "RuST" and "Ru1t", written
      as the ASCII codes of those strings. */
  lemma ClassificationExamples()
    ensures IsValidTag([82, 117, 83, 116])
    ensures var t := ChunkType([82, 117, 83, 116]);
      IsCritical(t) && !IsPublic(t) && IsReservedBitValid(t) && IsSafeToCopy(t) && IsValid(t)
    ensures IsValidTag([114, 117, 83, 116]) && !IsCritical(ChunkType([114, 117, 83, 116]))
    ensures IsValidTag([82, 85, 83, 116]) && IsPublic(ChunkType([82, 85, 83, 116]))
    ensures IsValidTag([82, 117, 115, 116]) && !IsReservedBitValid(ChunkType([82, 117, 115, 116]))
    ensures IsValidTag([82, 117, 115, 116]) && !IsValid(ChunkType([82, 117, 115, 116]))
    ensures IsValidTag([82, 117, 83, 84]) && !IsSafeToCopy(ChunkType([82, 117, 83, 84]))
    ensures !IsValidTag([82, 117, 49, 116])
  {
    assert !IsValidByte([82, 117, 49, 116][2]);
  }

  /** `test_chunk_type_from_bytes`, `test_chunk_type_from_str`,
      `test_invalid_chunk_is_valid` and `test_chunk_type_string`: both
      adapters accept "RuSt" and agree, the bytes come back unchanged,
      "Ru1t" is refused, and the tag displays as "RuSt". */
  method AdapterExamples() returns (agree: bool)
    ensures agree
  {
    var fromArray := TryFromArray([82, 117, 83, 116]);
    var fromStr := FromStr("RuSt");
    var refused := FromStr("Ru1t");
    assert !IsAsciiLetter("Ru1t"[2]);
    agree := fromArray.Ok? && fromStr.Ok? && refused.Err?;
    if agree {
      assert fromStr.value.data == [82, 117, 83, 116];
      var bytes := Bytes(fromArray.value);
      DisplayRoundTrip("RuSt");
      agree := Eq(fromArray.value, fromStr.value) && bytes == [82, 117, 83, 116]
        && ToString(fromStr.value) == "RuSt";
    }
  }
}
