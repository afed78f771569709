/** Option and Result, the two wrappers the engine's Rust code returns. */
module Wrappers {
  datatype Option<+T> = None | Some(value: T)

  datatype Result<+T, +E> = Ok(value: T) | Err(error: E)
}

/**
 * Fixed-width unsigned integers and their little-endian byte images, as the
 * engine reads them out of the captured memory of the x86 target.
 */
module Words {
  type u8 = x: int | 0 <= x < 0x100
  type u16 = x: int | 0 <= x < 0x1_0000
  type u32 = x: int | 0 <= x < 0x1_0000_0000
  type i16 = x: int | -0x8000 <= x < 0x8000
  type i32 = x: int | -0x8000_0000 <= x < 0x8000_0000

  /** `u32::to_le_bytes`: least significant byte first. */
  function ToLeBytes(x: u32): (b: seq<u8>)
    ensures |b| == 4
  {
    [x % 0x100, (x / 0x100) % 0x100, (x / 0x1_0000) % 0x100, x / 0x100_0000]
  }

  /** `u32::from_le_bytes`. */
  function FromLeBytes(b: seq<u8>): u32
    requires |b| == 4
  {
    b[0] as int + 0x100 * b[1] as int + 0x1_0000 * b[2] as int + 0x100_0000 * b[3] as int
  }

  lemma {:induction false} FromToLeBytes(x: u32)
    ensures FromLeBytes(ToLeBytes(x)) == x
  {
    var q1 := x / 0x100;
    var q2 := x / 0x1_0000;
    assert q2 == q1 / 0x100;
    assert x / 0x100_0000 == q2 / 0x100;
    assert x == 0x100 * q1 + x % 0x100;
    assert q1 == 0x100 * q2 + q1 % 0x100;
    assert q2 == 0x100 * (q2 / 0x100) + q2 % 0x100;
  }

  lemma {:induction false} ToFromLeBytes(b: seq<u8>)
    requires |b| == 4
    ensures ToLeBytes(FromLeBytes(b)) == b
  {
    var x := FromLeBytes(b);
    assert x / 0x100 == b[1] as int + 0x100 * b[2] as int + 0x1_0000 * b[3] as int;
    assert x / 0x1_0000 == b[2] as int + 0x100 * b[3] as int;
    assert x / 0x100_0000 == b[3];
  }

  /** Two bytes read as a little-endian `u16`. */
  function U16At(s: seq<u8>, off: nat): u16
    requires off + 2 <= |s|
  {
    s[off] as int + 0x100 * s[off + 1] as int
  }

  /** Four bytes read as a little-endian `u32`. */
  function U32At(s: seq<u8>, off: nat): u32
    requires off + 4 <= |s|
  {
    FromLeBytes(s[off..off + 4])
  }

  /** A `u16` bit pattern reinterpreted as a two's complement `i16`. */
  function AsI16(x: u16): i16
  {
    if x < 0x8000 then x else x - 0x1_0000
  }

  /** A `u32` bit pattern reinterpreted as a two's complement `i32`. */
  function AsI32(x: u32): i32
  {
    if x < 0x8000_0000 then x else x - 0x1_0000_0000
  }
}
