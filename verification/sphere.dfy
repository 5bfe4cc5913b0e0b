/** The sphere primitive record (`src/sphere.rs`). */
module Spheres {
  import opened Bytes
  import opened Optional
  import opened Layout

  /** `#[repr(C)]`: position `[f32; 3]`, then radius `f32`. */
  datatype Sphere = Sphere(position: Vec3, radius: F32)

  /** `size_of::<Sphere>()`: four 4-byte fields, no padding. */
  const SPHERE_STRIDE: nat := 16

  /**
   `Sphere::new`: any position and any radius are accepted, with no check;
   the record holds exactly the arguments, in layout order.
   */
  function New(position: Vec3, radius: F32): (s: Sphere)
    ensures SphereWords(s) == Vec3Words(position) + [radius.bits]
  {
    Sphere(position, radius)
  }

  /** The record's fields as words, in `#[repr(C)]` order. */
  function SphereWords(s: Sphere): (w: seq<uint32>)
    ensures |w| == 4
  {
    Vec3Words(s.position) + [s.radius.bits]
  }

  /** `bytemuck::bytes_of(&sphere)` */
  function SphereToBytes(s: Sphere): (b: seq<uint8>)
    ensures |b| == SPHERE_STRIDE
  {
    WordsRoundTrip(SphereWords(s));
    WordsToBytes(SphereWords(s))
  }

  /** Reads a sphere back from its 16-byte image. */
  function DecodeSphere(b: seq<uint8>): (r: Option<Sphere>)
    ensures r.Some? ==> |b| == SPHERE_STRIDE
  {
    match BytesToWords(b)
    case Some(w) =>
      if |w| == 4 then Some(Sphere(Vec3At(w, 0), F32(w[3]))) else None
    case None => None
  }

  lemma SphereRoundTrip(s: Sphere)
    ensures DecodeSphere(SphereToBytes(s)) == Some(s)
  {
    WordsRoundTrip(SphereWords(s));
  }

  /** `Sphere::new` is injective: distinct arguments give distinct records. */
  lemma NewInjective(p1: Vec3, r1: F32, p2: Vec3, r2: F32)
    ensures New(p1, r1) == New(p2, r2) <==> p1 == p2 && r1 == r2
  {
  }

  /** The sphere table's encoder has a fixed width and is inverted by `DecodeSphere`. */
  lemma SphereLayout()
    ensures FixedWidth(SphereToBytes, SPHERE_STRIDE)
    ensures Inverts(DecodeSphere, SphereToBytes)
  {
    forall s: Sphere ensures DecodeSphere(SphereToBytes(s)) == Some(s) {
      SphereRoundTrip(s);
    }
  }

  /** The sphere table's byte image: the records' images back to back, in order. */
  function TableBytes(spheres: seq<Sphere>): (b: seq<uint8>)
    ensures |b| == SPHERE_STRIDE * |spheres|
    ensures DecodeTable(b) == Some(spheres)
  {
    SphereLayout();
    ConcatLength(spheres, SphereToBytes, SPHERE_STRIDE);
    SplitConcat(spheres, SphereToBytes, SPHERE_STRIDE, DecodeSphere);
    Concat(spheres, SphereToBytes)
  }

  /** Reads a sphere table back from its byte image. */
  function DecodeTable(b: seq<uint8>): Option<seq<Sphere>> {
    Split(b, SPHERE_STRIDE, DecodeSphere)
  }

  /** Appending a sphere appends its image: earlier bytes are left as they were. */
  lemma TableBytesSnoc(spheres: seq<Sphere>, s: Sphere)
    ensures TableBytes(spheres + [s]) == TableBytes(spheres) + SphereToBytes(s)
  {
    ConcatSnoc(spheres, s, SphereToBytes);
  }
}
