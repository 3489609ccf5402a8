/** Bytes, and 32-bit words laid out little-endian as the on-disk structures use them. */
module Bytes {
  const U32: nat := 0x1_0000_0000
  const U64: nat := 0x1_0000_0000_0000_0000

  type byte = x: nat | x < 256
  type u32 = x: nat | x < U32

  /** The four bytes of `x`, least significant first. */
  function Le32(x: u32): (s: seq<byte>)
    ensures |s| == 4
  {
    var y := x / 256;
    var z := y / 256;
    [x % 256, y % 256, z % 256, z / 256]
  }

  /** Byte `q` of a `uint32_t`, counted from the low end. */
  function ByteOf(x: u32, q: nat): (b: byte)
    requires q < 4
  {
    if q == 0 then x % 0x100
    else if q == 1 then x / 0x100 % 0x100
    else if q == 2 then x / 0x1_0000 % 0x100
    else x / 0x100_0000
  }

  lemma Le32Bytes(x: u32, q: nat)
    requires q < 4
    ensures Le32(x)[q] == ByteOf(x, q)
  {}

  function De32(s: seq<byte>): (x: u32)
    requires |s| == 4
  {
    (s[0] as int) + 256 * ((s[1] as int) + 256 * ((s[2] as int) + 256 * (s[3] as int)))
  }

  /** Decoding inverts encoding on every 32-bit value. */
  lemma Le32RoundTrip(x: u32)
    ensures De32(Le32(x)) == x
  {}

  function Zeros(n: nat): (s: seq<byte>)
    ensures |s| == n
  {
    seq(n, _ => 0)
  }
}
