/**
 Machine integers, the little-endian byte image of a 32-bit word, and the
 opaque model of an `f32`.

 Every field of the records this model serialises is four bytes wide: a `u32`
 or an `f32`. An `f32` is never computed with here, so it is kept as its IEEE
 754 bit pattern and encoded exactly like a `u32`.
 */
module Bytes {

  newtype uint8 = x: int | 0 <= x < 0x100
  newtype uint32 = x: int | 0 <= x < 0x1_0000_0000

  const U32_MODULUS: int := 0x1_0000_0000

  /** Width in bytes of one `u32` or `f32` field. */
  const WORD_SIZE: nat := 4

  /** Rust's `n as u32` on a `usize`: keeps the low 32 bits of `n`. */
  function TruncU32(n: nat): (r: uint32)
    ensures n < U32_MODULUS ==> r as int == n
    ensures exists k: nat :: n == k * U32_MODULUS + r as int
  {
    var r := (n % U32_MODULUS) as uint32;
    assert n == (n / U32_MODULUS) * U32_MODULUS + r as int;
    r
  }

  /** The bytes of a word as a little-endian host lays them out. */
  function U32ToBytes(x: uint32): (b: seq<uint8>)
    ensures |b| == WORD_SIZE
    ensures b[0] as int == x as int % 0x100
    ensures b[3] as int == x as int / 0x100_0000
  {
    [ (x % 0x100) as uint8,
      (x / 0x100 % 0x100) as uint8,
      (x / 0x1_0000 % 0x100) as uint8,
      (x / 0x100_0000) as uint8 ]
  }

  /** Reassembles a little-endian word; it gives the bytes their place values. */
  function U32FromBytes(b: seq<uint8>): (x: uint32)
    requires |b| == WORD_SIZE
    ensures x as int % 0x100 == b[0] as int
    ensures x as int / 0x100_0000 == b[3] as int
  {
    (b[0] as int + 0x100 * b[1] as int + 0x1_0000 * b[2] as int + 0x100_0000 * b[3] as int) as uint32
  }

  lemma U32RoundTrip(x: uint32)
    ensures U32FromBytes(U32ToBytes(x)) == x
  {
    var n := x as int;
    var q1, q2, q3 := n / 0x100, n / 0x1_0000, n / 0x100_0000;
    assert q2 == q1 / 0x100 && q3 == q2 / 0x100;
    assert n == n % 0x100 + 0x100 * q1;
    assert q1 == q1 % 0x100 + 0x100 * q2;
    assert q2 == q2 % 0x100 + 0x100 * q3;
  }

  lemma U32BytesRoundTrip(b: seq<uint8>)
    requires |b| == WORD_SIZE
    ensures U32ToBytes(U32FromBytes(b)) == b
  {
    var b0, b1, b2, b3 := b[0] as int, b[1] as int, b[2] as int, b[3] as int;
    var n := U32FromBytes(b) as int;
    assert n == b0 + 0x100 * (b1 + 0x100 * (b2 + 0x100 * b3));
    assert n / 0x100 == b1 + 0x100 * (b2 + 0x100 * b3);
    assert n / 0x1_0000 == b2 + 0x100 * b3;
    assert n / 0x100_0000 == b3;
  }

  /** An `f32`, kept as its bit pattern; the model does no float arithmetic. */
  datatype F32 = F32(bits: uint32)

  /** `0.0_f32` */
  const ZERO: F32 := F32(0)
  /** `std::f32::consts::PI` */
  const PI: F32 := F32(0x4049_0FDB)

  /** A `[f32; 3]` (a position, a scaling or an rgb colour). */
  datatype Vec3 = Vec3(x: F32, y: F32, z: F32)

  /** A `[f32; 4]`, one row of a 3x4 matrix. */
  datatype Vec4 = Vec4(x: F32, y: F32, z: F32, w: F32)

  function Vec3Words(v: Vec3): (w: seq<uint32>)
    ensures |w| == 3
  {
    [v.x.bits, v.y.bits, v.z.bits]
  }

  function Vec4Words(v: Vec4): (w: seq<uint32>)
    ensures |w| == 4
  {
    [v.x.bits, v.y.bits, v.z.bits, v.w.bits]
  }

  /** Reads a `[f32; 3]` back from three words starting at `at`. */
  function Vec3At(w: seq<uint32>, at: nat): (v: Vec3)
    requires at + 3 <= |w|
    ensures Vec3Words(v) == w[at..at + 3]
  {
    Vec3(F32(w[at]), F32(w[at + 1]), F32(w[at + 2]))
  }

  /** Reads a `[f32; 4]` back from four words starting at `at`. */
  function Vec4At(w: seq<uint32>, at: nat): (v: Vec4)
    requires at + 4 <= |w|
    ensures Vec4Words(v) == w[at..at + 4]
  {
    Vec4(F32(w[at]), F32(w[at + 1]), F32(w[at + 2]), F32(w[at + 3]))
  }
}
