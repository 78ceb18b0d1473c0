/** A chunk: a chunk type, a payload and the CRC-32 of the type bytes followed
    by the payload. A chunk is built by `New`, which computes the CRC, or by
    `TryFrom`, which parses the layout
      length (4 bytes, big-endian) ++ type (4) ++ payload (length) ++ crc (4, big-endian)
    and accepts it only when the stored CRC matches the computed one. */
module Chunks {
  import opened Primitives
  import opened ChunkTypes
  import Crc32

  datatype Chunk = Chunk(typ: ChunkType, data: seq<byte>, crc: u32)

  /** The invariant every chunk has: its CRC covers the type bytes and the payload. */
  ghost predicate Valid(c: Chunk) {
    c.crc == Crc32.Checksum(c.typ.data + c.data)
  }

  /** The chunks the code can hold: its fields are private, and both `new`
      and `try_from` store the CRC computed from type and payload. */
  type ValidChunk = c: Chunk | Valid(c)
    ghost witness Chunk(ChunkType([65, 65, 65, 65]), [], Crc32.Checksum([65, 65, 65, 65] + []))

  /** `Chunk::new`: a fresh digest is fed the type bytes, then the payload. */
  method New(t: ChunkType, data: seq<byte>) returns (c: ValidChunk)
    ensures c.typ == t && c.data == data
    ensures c.crc == Crc32.Checksum(t.data + data)
  {
    var digest := new Crc32.Digest();
    var typeBytes := Bytes(t);
    digest.Update(typeBytes);
    digest.Update(data);
    Crc32.UpdateAllAppend(Crc32.Init, typeBytes, data);
    c := Chunk(t, data, digest.Result());
  }

  /** `length`: the payload length cast with `as u32`, which keeps the low 32 bits. */
  function Length(c: Chunk): (n: u32)
    ensures |c.data| < TwoTo32 ==> n as int == |c.data|
  {
    (|c.data| % TwoTo32) as u32
  }

  function TypeOf(c: Chunk): (t: ChunkType) {
    c.typ
  }

  function Data(c: Chunk): (d: seq<byte>) {
    c.data
  }

  function Crc(c: Chunk): (crc: u32) {
    c.crc
  }

  /** `as_bytes`: a copy of the payload. */
  function AsBytes(c: Chunk): (b: seq<byte>) {
    c.data
  }

  /** What the accessors of any chunk report: `crc()` is the CRC-32 of the
      type bytes followed by `data()`, `as_bytes()` is `data()`, `length()`
      is the payload length, and the chunk is the one `New` builds from its
      type and payload, so the CRC field carries no information of its own. */
  lemma AccessorsOfChunk(c: ValidChunk)
    ensures Crc(c) == Crc32.Checksum(TypeOf(c).data + Data(c))
    ensures AsBytes(c) == Data(c)
    ensures |Data(c)| < TwoTo32 ==> Length(c) as int == |Data(c)|
    ensures c == Chunk(TypeOf(c), Data(c), Crc32.Checksum(TypeOf(c).data + AsBytes(c)))
  {
  }

  /** Two chunks over the same type bytes and payload have the same CRC. */
  lemma CrcDeterminedByContents(c1: ValidChunk, c2: ValidChunk)
    requires c1.typ.data + c1.data == c2.typ.data + c2.data
    ensures Crc(c1) == Crc(c2)
  {
  }

  /** What `try_from` can do: return a chunk, return `Err(())`, or panic. */
  datatype Outcome = Parsed(chunk: ValidChunk) | Rejected | Panicked

  /** The length field: the big-endian number in the first four bytes. */
  function DeclaredLength(v: seq<byte>): (len: nat)
    requires |v| >= 4
  {
    FromBE32(v[..4]) as nat
  }

  /** The parser, stated over absolute offsets of the input, with the checks
      in the order the code makes them: the length field is present, the
      rest holds at least type, payload and CRC, the type is valid, the CRC
      field takes exactly the remaining bytes (otherwise `copy_from_slice`
      panics), and the stored CRC equals the computed one. */
  function Parse(v: seq<byte>): (r: Outcome) {
    if |v| < 4 then Rejected
    else
      var len := DeclaredLength(v);
      if |v| - 4 < len + 8 then Rejected
      else if !IsValidTag(v[4..8]) then Rejected
      else if |v| != len + 12 then Panicked
      else
        var typ, data := ChunkType(v[4..8]), v[8..8 + len];
        var crc := Crc32.Checksum(typ.data + data);
        if FromBE32(v[8 + len..]) != crc then Rejected
        else Parsed(Chunk(typ, data, crc))
  }

  /** `TryFrom<&[u8]>::try_from`: walks the input with a `remain` cursor. */
  method TryFrom(value: seq<byte>) returns (r: Outcome)
    ensures r == Parse(value)
  {
    if |value| < 4 {
      return Rejected;
    }
    var len := FromBE32(value[..4]) as int;
    var remain := value[4..];
    if |remain| < len + 8 {
      return Rejected;
    }
    var typ := remain[..4];
    remain := remain[4..];
    var data := remain[..len];
    remain := remain[len..];
    assert typ == value[4..8] && data == value[8..8 + len] && remain == value[8 + len..];
    var tag := TryFromArray(typ);
    if tag.Err? {
      return Rejected;
    }
    var chunk := New(tag.value, data);
    // `crc.copy_from_slice(remain)` panics unless exactly four bytes remain.
    if |remain| != 4 {
      return Panicked;
    }
    var crc := FromBE32(remain);
    if chunk.crc != crc {
      return Rejected;
    }
    return Parsed(chunk);
  }

  /** The chunk layout the parser reads; the code has no serializer, so this
      exists only to state round trips. */
  ghost function Layout(t: ChunkType, data: seq<byte>, crc: u32): (v: seq<byte>)
    requires |data| < TwoTo32
    ensures |v| == |data| + 12
  {
    ToBE32(|data| as u32) + t.data + data + ToBE32(crc)
  }

  /** The four fields of a layout, read back at their offsets. */
  lemma LayoutFields(t: ChunkType, data: seq<byte>, crc: u32)
    requires |data| < TwoTo32
    ensures var v := Layout(t, data, crc);
      v[..4] == ToBE32(|data| as u32) && v[4..8] == t.data
      && v[8..8 + |data|] == data && v[8 + |data|..] == ToBE32(crc)
  {
    var v := Layout(t, data, crc);
    var p := ToBE32(|data| as u32);
    assert v == p + (t.data + (data + ToBE32(crc)));
    assert v[..4] == p;
    assert v[4..] == t.data + (data + ToBE32(crc));
    assert v[4..][..4] == t.data;
    assert v[8..] == data + ToBE32(crc);
    assert v[8..][..|data|] == data;
  }

  /** Input shorter than the length field is rejected. */
  lemma ParseRejectsShortPrefix(v: seq<byte>)
    requires |v| < 4
    ensures Parse(v) == Rejected
  {
  }

  /** Input with fewer than `len + 8` bytes after the length field is rejected. */
  lemma ParseRejectsShortBody(v: seq<byte>)
    requires |v| >= 4 && |v| < DeclaredLength(v) + 12
    ensures Parse(v) == Rejected
  {
  }

  /** Input long enough whose type bytes are not four letters is rejected,
      even when it is too long: the type is checked before the CRC is copied. */
  lemma ParseRejectsInvalidType(v: seq<byte>)
    requires |v| >= 4 && |v| >= DeclaredLength(v) + 12
    requires !IsValidTag(v[4..8])
    ensures Parse(v) == Rejected
  {
  }

  /** Exactly-sized input with a valid type and a CRC field that differs
      from the CRC of type and payload is rejected. */
  lemma ParseRejectsCrcMismatch(v: seq<byte>)
    requires |v| >= 12 && |v| == DeclaredLength(v) + 12
    requires IsValidTag(v[4..8])
    requires FromBE32(v[|v| - 4..]) != Crc32.Checksum(v[4..|v| - 4])
    ensures Parse(v) == Rejected
  {
    assert v[4..8] + v[8..|v| - 4] == v[4..|v| - 4];
  }

  /** Input longer than the declared layout never yields a chunk: with a
      valid type it reaches `copy_from_slice` and panics. */
  lemma ParseOverlongNeverSucceeds(v: seq<byte>)
    requires |v| >= 4 && |v| > DeclaredLength(v) + 12
    ensures !Parse(v).Parsed?
    ensures Parse(v) == Panicked <==> IsValidTag(v[4..8])
  {
  }

  /** The parser succeeds exactly on well-formed input, and the chunk it
      returns holds the type bytes 4..8 and the payload 8..8+len of the input,
      has length `len`, and keeps the chunk invariant. */
  lemma ParseSucceedsIff(v: seq<byte>)
    ensures Parse(v).Parsed? <==>
      |v| >= 12 && |v| == DeclaredLength(v) + 12 && IsValidTag(v[4..8])
      && FromBE32(v[|v| - 4..]) == Crc32.Checksum(v[4..|v| - 4])
    ensures Parse(v).Parsed? ==>
      var c := Parse(v).chunk;
      TypeOf(c).data == v[4..8] && Data(c) == v[8..|v| - 4]
      && Length(c) == FromBE32(v[..4]) && Crc(c) == FromBE32(v[|v| - 4..]) && Valid(c)
  {
    if |v| >= 12 {
      assert v[4..8] + v[8..|v| - 4] == v[4..|v| - 4];
    }
  }

  /** Round trip: every chunk with a payload that fits the length field
      parses back from its layout, field for field. */
  lemma ParseLayoutRoundTrip(c: ValidChunk)
    requires |c.data| < TwoTo32
    ensures Parse(Layout(c.typ, c.data, c.crc)) == Parsed(c)
  {
    LayoutFields(c.typ, c.data, c.crc);
    FromToBE32(|c.data| as u32);
    FromToBE32(c.crc);
  }

  /** The other direction: input the parser accepts is exactly the layout of
      the chunk it returns. */
  lemma ParsedInputIsLayout(v: seq<byte>)
    requires Parse(v).Parsed?
    ensures var c := Parse(v).chunk;
      |c.data| < TwoTo32 && v == Layout(c.typ, c.data, c.crc)
  {
    var c := Parse(v).chunk;
    var len := DeclaredLength(v);
    ToFromBE32(v[..4]);
    ToFromBE32(v[8 + len..]);
    LayoutFields(c.typ, c.data, c.crc);
    var w := Layout(c.typ, c.data, c.crc);
    assert v == v[..4] + v[4..8] + v[8..8 + len] + v[8 + len..];
    assert w == w[..4] + w[4..8] + w[8..8 + len] + w[8 + len..];
  }

  /** Tamper detection: a layout whose CRC field holds any other value than
      the CRC of type and payload is rejected. */
  lemma ParseRejectsTamperedCrc(t: ChunkType, data: seq<byte>, crc: u32)
    requires |data| < TwoTo32
    requires crc != Crc32.Checksum(t.data + data)
    ensures Parse(Layout(t, data, crc)) == Rejected
  {
    LayoutFields(t, data, crc);
    FromToBE32(|data| as u32);
    FromToBE32(crc);
  }

  /** Truncation detection: every proper prefix of a layout is rejected. */
  lemma ParseRejectsTruncatedLayout(t: ChunkType, data: seq<byte>, crc: u32, k: nat)
    requires |data| < TwoTo32
    requires k < |data| + 12
    ensures Parse(Layout(t, data, crc)[..k]) == Rejected
  {
    var v := Layout(t, data, crc)[..k];
    if k >= 4 {
      LayoutFields(t, data, crc);
      assert v[..4] == Layout(t, data, crc)[..4];
      FromToBE32(|data| as u32);
    }
  }

  const RuSt: ChunkType := ChunkType([82, 117, 83, 116])

  /** "This is where your secret message will be!" in ASCII. */
  const Message: seq<byte> := [84, 104, 105, 115, 32, 105, 115, 32, 119, 104, 101, 114, 101,
    32, 121, 111, 117, 114, 32, 115, 101, 99, 114, 101, 116, 32, 109, 101, 115, 115, 97, 103,
    101, 32, 119, 105, 108, 108, 32, 98, 101, 33]

  /** What the test on the 42-byte message checks, for any type and any
      42-byte payload: the layout with the right CRC parses back with length
      42, and the layout whose CRC field is one less is refused. */
  lemma FortyTwoByteChunk(t: ChunkType, data: seq<byte>, crc: u32)
    requires |data| == 42 && crc == Crc32.Checksum(t.data + data)
    ensures var p := Parse(Layout(t, data, crc));
      p.Parsed? && Length(p.chunk) == 42 && TypeOf(p.chunk) == t && Data(p.chunk) == data
      && Crc(p.chunk) == crc
    ensures Parse(Layout(t, data, ((crc as int + 0xFFFF_FFFF) % TwoTo32) as u32)) == Rejected
  {
    ParseLayoutRoundTrip(Chunk(t, data, crc));
    ParseRejectsTamperedCrc(t, data, ((crc as int + 0xFFFF_FFFF) % TwoTo32) as u32);
  }

  /** `test_valid_chunk_from_bytes` and `test_invalid_chunk_from_bytes`:
      the message under type "RuSt" parses back with length 42 and type
      "RuSt" when the CRC field is right, and is refused when it is one less. */
  lemma MessageExamples(crc: u32)
    requires crc == Crc32.Checksum(RuSt.data + Message)
    ensures var p := Parse(Layout(RuSt, Message, crc));
      p.Parsed? && Length(p.chunk) == 42 && ToString(TypeOf(p.chunk)) == "RuSt"
      && Data(p.chunk) == Message && Crc(p.chunk) == crc
    ensures Parse(Layout(RuSt, Message, ((crc as int + 0xFFFF_FFFF) % TwoTo32) as u32)) == Rejected
  {
    FortyTwoByteChunk(RuSt, Message, crc);
    ToStringOfRuSt();
  }

  lemma ToStringOfRuSt()
    ensures ToString(RuSt) == "RuSt"
  {
    ToStringCodes(RuSt);
  }

  /** The characters of `ToString(t)` have the codes of the bytes of `t`. */
  lemma ToStringCodes(t: ChunkType)
    ensures forall i :: 0 <= i < 4 ==> ToString(t)[i] as int == t.data[i] as int
  {
    Utf8.EncodeAscii(ToString(t));
  }
}
