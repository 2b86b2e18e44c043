/**
  Fixed-width unsigned machine integers of the firmware (u8, u32, u64) as
  bounded mathematical integers, with the few operations on them that the
  debugging random-number generator uses: wrapping addition, the
  little-endian byte view of a u32, and joining two u32 halves into a u64.
 */
module Words {

  const U32_MODULUS: int := 0x1_0000_0000
  const U32_MAX: int := 0xFFFF_FFFF

  type u8 = x: int | 0 <= x < 0x100
  type u32 = x: int | 0 <= x < 0x1_0000_0000
  type u64 = x: int | 0 <= x < 0x1_0000_0000_0000_0000

  /** `u32::wrapping_add`: the exact sum when it fits, the sum less 2^32 otherwise. */
  function WrappingAdd(a: u32, b: u32): (r: u32)
    ensures a + b <= U32_MAX ==> r == a + b
    ensures a + b > U32_MAX ==> r == a + b - U32_MODULUS
  {
    (a + b) % U32_MODULUS
  }

  /** The value of four bytes read least significant first. */
  function FromLeBytes(b: seq<u8>): (r: u32)
    requires |b| == 4
  {
    b[0] as int + 0x100 * b[1] as int + 0x1_0000 * b[2] as int + 0x100_0000 * b[3] as int
  }

  /**
    `u32::to_ne_bytes` on a little-endian target: the four bytes of `v`,
    least significant first. Reading them back gives `v`.
   */
  function ToLeBytes(v: u32): (r: seq<u8>)
    ensures |r| == 4
    ensures FromLeBytes(r) == v
  {
    var r := [v % 0x100, v / 0x100 % 0x100, v / 0x1_0000 % 0x100, v / 0x100_0000];
    assert v == v % 0x100 + 0x100 * (v / 0x100);
    assert v / 0x100 == v / 0x100 % 0x100 + 0x100 * (v / 0x1_0000);
    assert v / 0x1_0000 == v / 0x1_0000 % 0x100 + 0x100 * (v / 0x100_0000);
    r
  }

  /** The other round trip: four bytes are exactly the bytes of the value they encode. */
  lemma LeBytesRoundTrip(b: seq<u8>)
    requires |b| == 4
    ensures ToLeBytes(FromLeBytes(b)) == b
  {
    var v := FromLeBytes(b);
    assert v % 0x100 == b[0];
    assert v / 0x100 == b[1] as int + 0x100 * b[2] as int + 0x1_0000 * b[3] as int;
    assert v / 0x1_0000 == b[2] as int + 0x100 * b[3] as int;
    assert v / 0x100_0000 == b[3];
  }

  /**
    `((upper as u64) << 32) | (lower as u64)`: the shift leaves the low 32
    bits zero, so the or places `lower` there unchanged. The result splits
    back into exactly the two halves it was built from.
   */
  function Join64(upper: u32, lower: u32): (r: u64)
    ensures r / U32_MODULUS == upper
    ensures r % U32_MODULUS == lower
  {
    upper * U32_MODULUS + lower
  }

  /**
    The same fact in 64-bit machine arithmetic: for halves below 2^32 the
    shift-and-or of the source and the multiply-and-add of `Join64` agree.
   */
  lemma ShiftOrIsJoin(upper: bv64, lower: bv64)
    requires upper < 0x1_0000_0000 && lower < 0x1_0000_0000
    ensures (upper << 32) | lower == upper * 0x1_0000_0000 + lower
  {
  }
}
