/** CRC-32/ISO-HDLC (ISO/IEC 13239; the CRC of section 5.5 of the PNG
    specification): polynomial 0x04C11DB7 processed reflected, register
    initialised to 0xFFFFFFFF, input and output reflected, final XOR with
    0xFFFFFFFF. It is given by the table-free, bit-at-a-time definition over
    32-bit unsigned registers, and a streaming `Digest` mirrors the `digest` /
    `update` / `finalize` calls the chunk constructor makes. */
module Crc32 {
  import opened Primitives

  /** 0x04C11DB7 with its 32 bits reversed. */
  const ReflectedPoly: u32 := 0xEDB8_8320
  const Init: u32 := 0xFFFF_FFFF
  const XorOut: u32 := 0xFFFF_FFFF

  function Pow2(n: nat): (p: nat) {
    if n == 0 then 1 else 2 * Pow2(n - 1)
  }

  lemma Pow2Of32()
    ensures Pow2(32) == TwoTo32
  {
    assert Pow2(8) == 0x100;
    assert Pow2(16) == 0x1_0000;
    assert Pow2(24) == 0x100_0000;
  }

  /** Bitwise exclusive or of two natural numbers, lowest bit first. */
  function Xor(a: nat, b: nat): (r: nat)
    decreases a + b
  {
    if a == 0 && b == 0 then 0
    else (if a % 2 == b % 2 then 0 else 1) + 2 * Xor(a / 2, b / 2)
  }

  /** Exclusive or never sets a bit above the operands' highest bit. */
  lemma {:induction false} XorBound(a: nat, b: nat, width: nat)
    requires a < Pow2(width) && b < Pow2(width)
    ensures Xor(a, b) < Pow2(width)
    decreases width
  {
    if width > 0 && !(a == 0 && b == 0) {
      XorBound(a / 2, b / 2, width - 1);
    }
  }

  /** Exclusive or of two registers. */
  function Xor32(a: u32, b: u32): (r: u32) {
    Pow2Of32();
    XorBound(a as nat, b as nat, 32);
    Xor(a as nat, b as nat) as u32
  }

  /** One bit of the reflected shift register: the low bit falls out, and
      the polynomial is XORed in when that bit was set (multiplying by the
      bit selects the polynomial or zero). */
  function Shift(reg: u32): (r: u32) {
    Xor32(reg / 2, (reg % 2) * ReflectedPoly)
  }

  lemma {:induction false} XorZero(a: nat)
    ensures Xor(a, 0) == a
    decreases a
  {
    if a != 0 {
      XorZero(a / 2);
    }
  }

  /** `Shift` is the textbook step of a reflected CRC register. */
  lemma ShiftIsConditionalXor(reg: u32)
    ensures Shift(reg) == if reg % 2 == 1 then Xor32(reg / 2, ReflectedPoly) else reg / 2
  {
    if reg % 2 == 0 {
      XorZero(reg as nat / 2);
    }
  }

  /** One byte: XOR it into the low end of the register, then shift eight times. */
  function UpdateByte(reg: u32, b: byte): (r: u32) {
    var r := Xor32(reg, b as int as u32);
    Shift(Shift(Shift(Shift(Shift(Shift(Shift(Shift(r))))))))
  }

  /** The register after feeding the bytes of `s`, first byte first. */
  function UpdateAll(reg: u32, s: seq<byte>): (r: u32)
    decreases |s|
  {
    if s == [] then reg else UpdateAll(UpdateByte(reg, s[0]), s[1..])
  }

  function Finalize(reg: u32): (crc: u32) {
    Xor32(reg, XorOut)
  }

  /** The CRC-32 of a whole message. */
  function Checksum(s: seq<byte>): (crc: u32) {
    Finalize(UpdateAll(Init, s))
  }

  /** Feeding a message in two pieces leaves the register where feeding it
      whole does: this is what makes a streaming digest correct. */
  lemma {:induction false} UpdateAllAppend(reg: u32, a: seq<byte>, b: seq<byte>)
    ensures UpdateAll(reg, a + b) == UpdateAll(UpdateAll(reg, a), b)
    decreases |a|
  {
    if a == [] {
      assert a + b == b;
    } else {
      assert (a + b)[0] == a[0];
      assert (a + b)[1..] == a[1..] + b;
      UpdateAllAppend(UpdateByte(reg, a[0]), a[1..], b);
    }
  }

  /** The digest object of the `crc` crate, reduced to its register. */
  class Digest {
    var state: u32

    constructor ()
      ensures state == Init
    {
      state := Init;
    }

    /** Feeds `bytes`, one byte at a time. */
    method Update(bytes: seq<byte>)
      modifies this
      ensures state == UpdateAll(old(state), bytes)
    {
      ghost var start := state;
      var i := 0;
      while i < |bytes|
        invariant 0 <= i <= |bytes|
        invariant state == UpdateAll(start, bytes[..i])
      {
        assert bytes[..i + 1] == bytes[..i] + [bytes[i]];
        UpdateAllAppend(start, bytes[..i], [bytes[i]]);
        state := UpdateByte(state, bytes[i]);
        i := i + 1;
      }
      assert bytes[..i] == bytes;
    }

    /** The CRC of everything fed so far. */
    function Result(): (crc: u32)
      reads this
    {
      Finalize(state)
    }
  }
}
