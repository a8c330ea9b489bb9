/** Fixed-width unsigned integers and their byte encodings, as Rust's
    `u8`, `u32`, `to_le_bytes`, `to_be_bytes` and `from_le_bytes` give them. */
module Bytes {

  const BYTE_LIMIT: int := 0x100
  const U32_LIMIT: int := 0x1_0000_0000
  const U32_MAX: int := 0xFFFF_FFFF

  type byte = x: int | 0 <= x < BYTE_LIMIT
  type u32 = x: int | 0 <= x < U32_LIMIT

  /** Rust's `as u32` cast of a wider unsigned value: keep the low 32 bits. */
  function WrapU32(n: nat): (r: u32)
    ensures n < U32_LIMIT ==> r == n
    ensures (r - n) % U32_LIMIT == 0
  {
    n % U32_LIMIT
  }

  /** `u32::to_le_bytes`: least significant byte first. */
  function LeBytes(v: u32): (r: seq<byte>)
    ensures |r| == 4
  {
    [v % 0x100, (v / 0x100) % 0x100, (v / 0x1_0000) % 0x100, v / 0x100_0000]
  }

  /** `u32::to_be_bytes`: most significant byte first. */
  function BeBytes(v: u32): (r: seq<byte>)
    ensures |r| == 4
  {
    [v / 0x100_0000, (v / 0x1_0000) % 0x100, (v / 0x100) % 0x100, v % 0x100]
  }

  /** `u32::from_le_bytes` of a four-byte array. */
  function FromLe(b: seq<byte>): u32
    requires |b| == 4
  {
    b[0] as int + 0x100 * b[1] as int + 0x1_0000 * b[2] as int + 0x100_0000 * b[3] as int
  }

  function Reverse4(b: seq<byte>): (r: seq<byte>)
    requires |b| == 4
    ensures |r| == 4 && forall i | 0 <= i < 4 :: r[i] == b[3 - i]
  {
    [b[3], b[2], b[1], b[0]]
  }

  /** Decoding undoes encoding. */
  lemma FromLeOfLeBytes(v: u32)
    ensures FromLe(LeBytes(v)) == v
  {
    var b := LeBytes(v);
    assert v == v % 0x100 + 0x100 * (v / 0x100);
    assert v / 0x100 == (v / 0x100) % 0x100 + 0x100 * (v / 0x1_0000);
    assert v / 0x1_0000 == (v / 0x1_0000) % 0x100 + 0x100 * (v / 0x100_0000);
  }

  /** Encoding undoes decoding: the four bytes are recovered exactly. */
  lemma LeBytesOfFromLe(b: seq<byte>)
    requires |b| == 4
    ensures LeBytes(FromLe(b)) == b
  {
    var v := FromLe(b);
    var hi: int := b[1] as int + 0x100 * b[2] as int + 0x1_0000 * b[3] as int;
    assert v == b[0] as int + 0x100 * hi;
    assert v % 0x100 == b[0] && v / 0x100 == hi;
    var hi2: int := b[2] as int + 0x100 * b[3] as int;
    assert hi == b[1] as int + 0x100 * hi2;
    assert (v / 0x100) % 0x100 == b[1];
    assert v / 0x1_0000 == hi2 by {
      assert v / 0x1_0000 == (v / 0x100) / 0x100;
    }
    assert (v / 0x1_0000) % 0x100 == b[2];
    assert v / 0x100_0000 == b[3] by {
      assert v / 0x100_0000 == (v / 0x1_0000) / 0x100;
    }
  }

  /** The big-endian encoding is the little-endian one reversed. */
  lemma BeIsReversedLe(v: u32)
    ensures BeBytes(v) == Reverse4(LeBytes(v))
  {
  }
}
