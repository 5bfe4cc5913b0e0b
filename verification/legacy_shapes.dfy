/**
 The older shape registry (`src/shape.rs`): the same append-only directory
 and sphere table, with a shape record that has no reflectivity, stores the
 type before the index, and is uploaded without a count header.
 */
module LegacyShapes {
  import opened Bytes
  import opened Optional
  import opened Layout
  import opened Sink
  import opened Spheres

  const SHAPE_CAPACITY: nat := 32

  const SHAPE_TYPE_SPHERE: uint32 := 0

  /** `#[repr(C)]`: colour `[f32; 3]`, shape type, index, three `f32` of padding. */
  datatype Shape = Shape(color: Vec3, shapeType: uint32, index: uint32, pad0: F32, pad1: F32, pad2: F32)

  /** `size_of::<Shape>()`: eight 4-byte fields. */
  const SHAPE_STRIDE: nat := 32

  const SHAPES_BUFFER_SIZE: nat := SHAPE_STRIDE * SHAPE_CAPACITY
  const SPHERES_BUFFER_SIZE: nat := SPHERE_STRIDE * SHAPE_CAPACITY

  /** `Shape::new(color, shape_type, index)`: arguments in layout order, padding zero. */
  function NewShape(color: Vec3, shapeType: uint32, index: uint32): (s: Shape)
    ensures ShapeWords(s) == Vec3Words(color) + [shapeType, index, 0, 0, 0]
  {
    Shape(color, shapeType, index, ZERO, ZERO, ZERO)
  }

  function ShapeWords(s: Shape): (w: seq<uint32>)
    ensures |w| == 8
  {
    Vec3Words(s.color) + [s.shapeType, s.index, s.pad0.bits, s.pad1.bits, s.pad2.bits]
  }

  /** `bytemuck::bytes_of(&shape)` */
  function ShapeToBytes(s: Shape): (b: seq<uint8>)
    ensures |b| == SHAPE_STRIDE
  {
    WordsRoundTrip(ShapeWords(s));
    WordsToBytes(ShapeWords(s))
  }

  function DecodeShape(b: seq<uint8>): (r: Option<Shape>)
    ensures r.Some? ==> |b| == SHAPE_STRIDE
  {
    match BytesToWords(b)
    case Some(w) =>
      if |w| == 8 then Some(Shape(Vec3At(w, 0), w[3], w[4], F32(w[5]), F32(w[6]), F32(w[7]))) else None
    case None => None
  }

  lemma ShapeRoundTrip(s: Shape)
    ensures DecodeShape(ShapeToBytes(s)) == Some(s)
  {
    WordsRoundTrip(ShapeWords(s));
  }

  lemma ShapeLayout()
    ensures FixedWidth(ShapeToBytes, SHAPE_STRIDE)
    ensures Inverts(DecodeShape, ShapeToBytes)
  {
    forall s: Shape ensures DecodeShape(ShapeToBytes(s)) == Some(s) {
      ShapeRoundTrip(s);
    }
  }

  /** The state part of the older `ShapeCollection`. */
  datatype ShapeCollection = ShapeCollection(shapes: seq<Shape>, spheres: seq<Sphere>, dirty: bool)

  ghost predicate Valid(c: ShapeCollection) {
    && |c.shapes| == |c.spheres|
    && forall i :: 0 <= i < |c.shapes| ==>
         && c.shapes[i].index == TruncU32(i)
         && c.shapes[i].shapeType == SHAPE_TYPE_SPHERE
         && c.shapes[i].pad0 == ZERO && c.shapes[i].pad1 == ZERO && c.shapes[i].pad2 == ZERO
  }

  /** `shapes_bytes` */
  function ShapesBytes(c: ShapeCollection): (b: seq<uint8>)
    ensures |b| == SHAPE_STRIDE * |c.shapes|
    ensures DecodeShapes(b) == Some(c.shapes)
  {
    ShapeLayout();
    ConcatLength(c.shapes, ShapeToBytes, SHAPE_STRIDE);
    SplitConcat(c.shapes, ShapeToBytes, SHAPE_STRIDE, DecodeShape);
    Concat(c.shapes, ShapeToBytes)
  }

  /** `sphere_bytes` */
  function SphereBytes(c: ShapeCollection): (b: seq<uint8>)
    ensures |b| == SPHERE_STRIDE * |c.spheres|
    ensures DecodeTable(b) == Some(c.spheres)
  {
    TableBytes(c.spheres)
  }

  function DecodeShapes(b: seq<uint8>): Option<seq<Shape>> {
    Split(b, SHAPE_STRIDE, DecodeShape)
  }

  /** Shape `i` occupies bytes `[32 i, 32 (i + 1))` of `shapes_bytes`: insertion order is kept. */
  lemma ShapesBytesRecord(c: ShapeCollection, i: nat)
    requires i < |c.shapes|
    ensures ShapesBytes(c)[SHAPE_STRIDE * i..SHAPE_STRIDE * (i + 1)] == ShapeToBytes(c.shapes[i])
  {
    ShapeLayout();
    ConcatRecord(c.shapes, ShapeToBytes, SHAPE_STRIDE, i);
  }

  /** The two GPU buffers, as last written, hold the tables' byte images. */
  ghost predicate Mirrors(c: ShapeCollection, log: seq<Write>) {
    && Holds(log, ShapesBuffer, ShapesBytes(c))
    && Holds(log, SpheresBuffer, SphereBytes(c))
  }

  ghost predicate Coherent(c: ShapeCollection, log: seq<Write>) {
    !c.dirty ==> Mirrors(c, log)
  }

  /** `ShapeCollection::new`, state part: empty, clean, coherent with untouched buffers. */
  function New(): (c: ShapeCollection)
    ensures Valid(c) && !c.dirty
    ensures ShapesBytes(c) == [] && SphereBytes(c) == []
    ensures Coherent(c, [])
  {
    ShapeCollection([], [], false)
  }

  /** `add_sphere`: appends a sphere and a sphere shape pointing at it, marks dirty. */
  function AddSphere(c: ShapeCollection, sphere: Sphere, color: Vec3): (r: ShapeCollection)
    ensures |r.spheres| == |c.spheres| + 1 && |r.shapes| == |c.shapes| + 1
    ensures r.spheres[..|c.spheres|] == c.spheres && r.spheres[|c.spheres|] == sphere
    ensures r.shapes[..|c.shapes|] == c.shapes
    ensures var s := r.shapes[|c.shapes|];
            && s.index == TruncU32(|c.spheres|) && s.shapeType == SHAPE_TYPE_SPHERE && s.color == color
            && s.pad0 == ZERO && s.pad1 == ZERO && s.pad2 == ZERO
    ensures r.dirty
  {
    var index := TruncU32(|c.spheres|);
    var r := ShapeCollection(c.shapes + [NewShape(color, SHAPE_TYPE_SPHERE, index)], c.spheres + [sphere], true);
    assert r.shapes[..|c.shapes|] == c.shapes;
    assert r.spheres[..|c.spheres|] == c.spheres;
    r
  }

  lemma AddSphereKeepsValid(c: ShapeCollection, sphere: Sphere, color: Vec3)
    requires Valid(c)
    ensures Valid(AddSphere(c, sphere, color))
  {
  }

  lemma AddSphereExtendsBytes(c: ShapeCollection, sphere: Sphere, color: Vec3)
    ensures var r := AddSphere(c, sphere, color);
            && ShapesBytes(r) == ShapesBytes(c) + ShapeToBytes(r.shapes[|c.shapes|])
            && SphereBytes(r) == SphereBytes(c) + SphereToBytes(sphere)
  {
    var r := AddSphere(c, sphere, color);
    assert r.shapes == c.shapes + [r.shapes[|c.shapes|]];
    assert r.spheres == c.spheres + [sphere];
    ConcatSnoc(c.shapes, r.shapes[|c.shapes|], ShapeToBytes);
    TableBytesSnoc(c.spheres, sphere);
  }

  /** `update_buffers`: when dirty, writes `shapes_bytes` then `sphere_bytes` and clears the flag. */
  function UpdateBuffers(c: ShapeCollection, log: seq<Write>): (r: (ShapeCollection, seq<Write>))
    ensures !c.dirty ==> r == (c, log)
    ensures c.dirty ==> r.0 == c.(dirty := false)
    ensures c.dirty ==> |r.1| == |log| + 2 && r.1[..|log|] == log
    ensures c.dirty ==> r.1[|log|].target == ShapesBuffer
                        && DecodeShapes(r.1[|log|].data) == Some(c.shapes)
    ensures c.dirty ==> r.1[|log| + 1].target == SpheresBuffer
                        && DecodeTable(r.1[|log| + 1].data) == Some(c.spheres)
    ensures forall i :: |log| <= i < |r.1| ==> r.1[i].target != CountUniform
  {
    if c.dirty then
      var writes := [Write(ShapesBuffer, ShapesBytes(c)), Write(SpheresBuffer, SphereBytes(c))];
      assert (log + writes)[..|log|] == log;
      (c.(dirty := false), log + writes)
    else
      (c, log)
  }

  lemma OperationsKeepCoherent(c: ShapeCollection, log: seq<Write>, sphere: Sphere, color: Vec3)
    requires Coherent(c, log)
    ensures Coherent(AddSphere(c, sphere, color), log)
    ensures var (c', log') := UpdateBuffers(c, log); Coherent(c', log') && Mirrors(c', log')
  {
  }

  lemma UpdateBuffersIdempotent(c: ShapeCollection, log: seq<Write>)
    ensures var (c1, log1) := UpdateBuffers(c, log);
            && UpdateBuffers(c1, log1) == (c1, log1)
            && |log1| == |log| + (if c.dirty then 2 else 0)
  {
  }

  lemma IndexIsPosition(c: ShapeCollection, i: nat)
    requires Valid(c) && |c.shapes| <= U32_MODULUS
    requires i < |c.shapes|
    ensures c.shapes[i].index as int == i
    ensures (c.shapes[i].index as int) < |c.spheres|
  {
  }

  ghost predicate FitsBuffers(c: ShapeCollection) {
    |ShapesBytes(c)| <= SHAPES_BUFFER_SIZE && |SphereBytes(c)| <= SPHERES_BUFFER_SIZE
  }

  lemma FitsBuffersIffWithinCapacity(c: ShapeCollection)
    requires Valid(c)
    ensures FitsBuffers(c) <==> |c.shapes| <= SHAPE_CAPACITY
  {
  }
}
