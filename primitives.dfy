/** Machine-level types shared by the chunk codec: Rust's `u8` and `u32`,
    the unit-error `Result` the codec returns, and the big-endian conversions
    `u32::from_be_bytes` / `u32::to_be_bytes`. */
module Primitives {

  /** Rust `u8`. */
  newtype byte = x: int | 0 <= x < 0x100

  /** Rust `u32`. */
  newtype u32 = x: int | 0 <= x < 0x1_0000_0000

  const TwoTo32: int := 0x1_0000_0000

  /** `Result<T, ()>`: every error of the codec is the unit value. */
  datatype Result<T> = Ok(value: T) | Err

  /** `u32::from_be_bytes`: the first byte is the most significant. */
  function FromBE32(s: seq<byte>): (x: u32)
    requires |s| == 4
    ensures x as int % 0x100 == s[3] as int
    ensures x as int / 0x100_0000 == s[0] as int
  {
    (s[0] as int * 0x100_0000 + s[1] as int * 0x1_0000 + s[2] as int * 0x100 + s[3] as int) as u32
  }

  /** `u32::to_be_bytes`. */
  function ToBE32(x: u32): (s: seq<byte>)
    ensures |s| == 4
  {
    [(x as int / 0x100_0000) as byte,
     (x as int / 0x1_0000 % 0x100) as byte,
     (x as int / 0x100 % 0x100) as byte,
     (x as int % 0x100) as byte]
  }

  /** Decoding the big-endian encoding gives the number back. */
  lemma FromToBE32(x: u32)
    ensures FromBE32(ToBE32(x)) == x
  {
    var n := x as int;
    var a, b, c, d := n / 0x100_0000, n / 0x1_0000 % 0x100, n / 0x100 % 0x100, n % 0x100;
    assert n / 0x100 == (n / 0x1_0000) * 0x100 + c;
    assert n / 0x1_0000 == a * 0x100 + b;
    assert n == (n / 0x100) * 0x100 + d;
  }

  /** Encoding the decoded number gives the four bytes back. */
  lemma ToFromBE32(s: seq<byte>)
    requires |s| == 4
    ensures ToBE32(FromBE32(s)) == s
  {
    var n := FromBE32(s) as int;
    assert n / 0x100 == s[0] as int * 0x1_0000 + s[1] as int * 0x100 + s[2] as int;
    assert n / 0x1_0000 == s[0] as int * 0x100 + s[1] as int;
  }
}
