/** The cuboid primitive record (`src/shapes/cuboid.rs`). */
module Cuboids {
  import opened Bytes
  import opened Optional
  import opened Layout

  /** A 3x4 rotation matrix, one `[f32; 4]` per row. */
  datatype Rotation = Rotation(row0: Vec4, row1: Vec4, row2: Vec4)

  /**
   `#[repr(C)]`: position `[f32; 3]`, pad, scaling `[f32; 3]`, pad,
   rotation `[[f32; 4]; 3]`.
   */
  datatype Cuboid = Cuboid(position: Vec3, pad1: F32, scaling: Vec3, pad2: F32, rotation: Rotation)

  /** `size_of::<Cuboid>()`: twenty 4-byte fields. */
  const CUBOID_STRIDE: nat := 80

  /**
   The `f32` operations `Cuboid::new` applies to the Euler angles, left
   uninterpreted: the model fixes which operation feeds which matrix entry,
   not what the operations compute.
   */
  datatype FloatOps = FloatOps(
    sin: F32 -> F32,
    cos: F32 -> F32,
    mul: (F32, F32) -> F32,
    add: (F32, F32) -> F32,
    sub: (F32, F32) -> F32,
    neg: F32 -> F32)

  /**
   The rotation matrix built from Euler angles `(a, b, c)`, entry by entry
   as `Cuboid::new` writes it, with a zero fourth lane in every row.
   */
  function EulerRotation(euler: Vec3, f: FloatOps): Rotation {
    var (a, b, c) := (euler.x, euler.y, euler.z);
    Rotation(
      Vec4(f.mul(f.cos(b), f.cos(c)),
           f.sub(f.mul(f.mul(f.sin(a), f.sin(b)), f.cos(c)), f.mul(f.cos(a), f.sin(c))),
           f.add(f.mul(f.mul(f.cos(a), f.sin(b)), f.cos(c)), f.mul(f.sin(a), f.sin(c))),
           ZERO),
      Vec4(f.mul(f.cos(b), f.sin(c)),
           f.add(f.mul(f.mul(f.sin(a), f.sin(b)), f.sin(c)), f.mul(f.cos(a), f.cos(c))),
           f.sub(f.mul(f.mul(f.cos(a), f.sin(b)), f.sin(c)), f.mul(f.sin(a), f.cos(c))),
           ZERO),
      Vec4(f.neg(f.sin(b)),
           f.mul(f.sin(a), f.cos(b)),
           f.mul(f.cos(a), f.cos(b)),
           ZERO))
  }

  /**
   `Cuboid::new`: position and scaling are stored unchanged, both padding
   slots are zero, and the rotation comes from the Euler angles alone.
   */
  function New(position: Vec3, scaling: Vec3, euler: Vec3, f: FloatOps): (c: Cuboid)
    ensures CuboidWords(c)[0..3] == Vec3Words(position)
    ensures CuboidWords(c)[4..7] == Vec3Words(scaling)
    ensures CuboidWords(c)[3] == 0 && CuboidWords(c)[7] == 0
    ensures CuboidWords(c)[11] == 0 && CuboidWords(c)[15] == 0 && CuboidWords(c)[19] == 0
    ensures c.rotation == EulerRotation(euler, f)
  {
    Cuboid(position, ZERO, scaling, ZERO, EulerRotation(euler, f))
  }

  /** The record's fields as words, in `#[repr(C)]` order. */
  function CuboidWords(c: Cuboid): (w: seq<uint32>)
    ensures |w| == 20
  {
    Vec3Words(c.position) + [c.pad1.bits] + Vec3Words(c.scaling) + [c.pad2.bits]
      + Vec4Words(c.rotation.row0) + Vec4Words(c.rotation.row1) + Vec4Words(c.rotation.row2)
  }

  /** `bytemuck::bytes_of(&cuboid)` */
  function CuboidToBytes(c: Cuboid): (b: seq<uint8>)
    ensures |b| == CUBOID_STRIDE
  {
    WordsRoundTrip(CuboidWords(c));
    WordsToBytes(CuboidWords(c))
  }

  /** Reads a cuboid back from its 80-byte image. */
  function DecodeCuboid(b: seq<uint8>): (r: Option<Cuboid>)
    ensures r.Some? ==> |b| == CUBOID_STRIDE
  {
    match BytesToWords(b)
    case Some(w) =>
      if |w| == 20 then
        Some(Cuboid(Vec3At(w, 0), F32(w[3]), Vec3At(w, 4), F32(w[7]),
                    Rotation(Vec4At(w, 8), Vec4At(w, 12), Vec4At(w, 16))))
      else None
    case None => None
  }

  lemma CuboidRoundTrip(c: Cuboid)
    ensures DecodeCuboid(CuboidToBytes(c)) == Some(c)
  {
    WordsRoundTrip(CuboidWords(c));
  }

  /** Position and scaling never influence the rotation. */
  lemma RotationIgnoresPlacement(p1: Vec3, s1: Vec3, p2: Vec3, s2: Vec3, euler: Vec3, f: FloatOps)
    ensures New(p1, s1, euler, f).rotation == New(p2, s2, euler, f).rotation
  {
  }
}
