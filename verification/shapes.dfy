/**
 The shape registry (`src/shapes/mod.rs`): an append-only shape directory and
 sphere table, a dirty flag, and the sync step that uploads both tables and a
 count header to the GPU.
 */
module Shapes {
  import opened Bytes
  import opened Optional
  import opened Layout
  import opened Sink
  import opened Spheres

  /** Number of records the GPU shape and sphere buffers are sized for. */
  const SHAPE_CAPACITY: nat := 32

  /** `shape_type` of a shape whose `index` points into the sphere table. */
  const SHAPE_TYPE_SPHERE: uint32 := 0

  /** An rgb colour: three `f32` (`Color` of `src/color.rs`). */
  datatype Color = Color(r: F32, g: F32, b: F32)

  /**
   `#[repr(C)]`: colour, index, shape type, reflectivity, two `f32` of padding.
   Note the index comes before the type in memory.
   */
  datatype Shape = Shape(color: Color, index: uint32, shapeType: uint32, reflectivity: F32, pad0: F32, pad1: F32)

  /** `size_of::<Shape>()`: eight 4-byte fields. */
  const SHAPE_STRIDE: nat := 32

  /** Byte sizes of the pre-allocated GPU buffers. */
  const SHAPES_BUFFER_SIZE: nat := SHAPE_STRIDE * SHAPE_CAPACITY
  const SPHERES_BUFFER_SIZE: nat := SPHERE_STRIDE * SHAPE_CAPACITY

  /**
   `Shape::new(color, shape_type, index, reflectivity)`: each argument is
   stored in its own field although the parameter order (type, then index)
   differs from the layout order (index, then type); the padding is zero.
   */
  function NewShape(color: Color, shapeType: uint32, index: uint32, reflectivity: F32): (s: Shape)
    ensures ShapeWords(s) == [color.r.bits, color.g.bits, color.b.bits, index, shapeType, reflectivity.bits, 0, 0]
  {
    Shape(color, index, shapeType, reflectivity, ZERO, ZERO)
  }

  /** The record's fields as words, in `#[repr(C)]` order. */
  function ShapeWords(s: Shape): (w: seq<uint32>)
    ensures |w| == 8
  {
    [s.color.r.bits, s.color.g.bits, s.color.b.bits, s.index, s.shapeType, s.reflectivity.bits, s.pad0.bits, s.pad1.bits]
  }

  /** `bytemuck::bytes_of(&shape)` */
  function ShapeToBytes(s: Shape): (b: seq<uint8>)
    ensures |b| == SHAPE_STRIDE
  {
    WordsRoundTrip(ShapeWords(s));
    WordsToBytes(ShapeWords(s))
  }

  /** Reads a shape back from its 32-byte image. */
  function DecodeShape(b: seq<uint8>): (r: Option<Shape>)
    ensures r.Some? ==> |b| == SHAPE_STRIDE
  {
    match BytesToWords(b)
    case Some(w) =>
      if |w| == 8 then Some(Shape(Color(F32(w[0]), F32(w[1]), F32(w[2])), w[3], w[4], F32(w[5]), F32(w[6]), F32(w[7])))
      else None
    case None => None
  }

  lemma ShapeRoundTrip(s: Shape)
    ensures DecodeShape(ShapeToBytes(s)) == Some(s)
  {
    WordsRoundTrip(ShapeWords(s));
  }

  lemma ShapeLayout()
    ensures FixedWidth(ShapeToBytes, SHAPE_STRIDE)
    ensures Inverts(DecodeShape, ShapeToBytes)
  {
    forall s: Shape ensures DecodeShape(ShapeToBytes(s)) == Some(s) {
      ShapeRoundTrip(s);
    }
  }

  /** `ShapeCount(u32)`: the count header, a single `u32`. */
  datatype ShapeCount = ShapeCount(count: uint32)

  function ShapeCountToBytes(n: ShapeCount): (b: seq<uint8>)
    ensures |b| == WORD_SIZE
    ensures U32FromBytes(b) == n.count
  {
    U32RoundTrip(n.count);
    U32ToBytes(n.count)
  }

  /** The state part of `ShapeCollection`; the GPU handles are left out. */
  datatype ShapeCollection = ShapeCollection(shapes: seq<Shape>, spheres: seq<Sphere>, dirty: bool)

  /**
   The registry's invariant: one shape per sphere, and shape `i` is a sphere
   shape whose index is `i` (as the `u32` the source casts it to) with zero
   padding.
   */
  ghost predicate Valid(c: ShapeCollection) {
    && |c.shapes| == |c.spheres|
    && forall i :: 0 <= i < |c.shapes| ==>
         && c.shapes[i].index == TruncU32(i)
         && c.shapes[i].shapeType == SHAPE_TYPE_SPHERE
         && c.shapes[i].pad0 == ZERO && c.shapes[i].pad1 == ZERO
  }

  /** `shapes_bytes`: the shape directory as the bytes uploaded to the GPU. */
  function ShapesBytes(c: ShapeCollection): (b: seq<uint8>)
    ensures |b| == SHAPE_STRIDE * |c.shapes|
    ensures DecodeShapes(b) == Some(c.shapes)
  {
    ShapeLayout();
    ConcatLength(c.shapes, ShapeToBytes, SHAPE_STRIDE);
    SplitConcat(c.shapes, ShapeToBytes, SHAPE_STRIDE, DecodeShape);
    Concat(c.shapes, ShapeToBytes)
  }

  /** `sphere_bytes`: the sphere table as the bytes uploaded to the GPU. */
  function SphereBytes(c: ShapeCollection): (b: seq<uint8>)
    ensures |b| == SPHERE_STRIDE * |c.spheres|
    ensures DecodeTable(b) == Some(c.spheres)
  {
    TableBytes(c.spheres)
  }

  /** Reads a shape directory back from its byte image. */
  function DecodeShapes(b: seq<uint8>): Option<seq<Shape>> {
    Split(b, SHAPE_STRIDE, DecodeShape)
  }

  /** Shape `i` occupies bytes `[32 i, 32 (i + 1))` of `shapes_bytes`. */
  lemma ShapesBytesRecord(c: ShapeCollection, i: nat)
    requires i < |c.shapes|
    ensures ShapesBytes(c)[SHAPE_STRIDE * i..SHAPE_STRIDE * (i + 1)] == ShapeToBytes(c.shapes[i])
  {
    ShapeLayout();
    ConcatRecord(c.shapes, ShapeToBytes, SHAPE_STRIDE, i);
  }

  /** The bytes the count uniform is created with: `ShapeCount(0)`. */
  function InitialLog(): (log: seq<Write>)
    ensures LastWrite(log, CountUniform).Some?
    ensures |LastWrite(log, CountUniform).value| == WORD_SIZE
    ensures U32FromBytes(LastWrite(log, CountUniform).value) == 0
    ensures LastWrite(log, ShapesBuffer).None? && LastWrite(log, SpheresBuffer).None?
  {
    [Write(CountUniform, ShapeCountToBytes(ShapeCount(0)))]
  }

  /**
   The GPU buffers, as last written, hold the collection: the count header
   is the directory length (cast to `u32`) and the two buffers hold the
   tables' byte images.
   */
  ghost predicate Mirrors(c: ShapeCollection, log: seq<Write>) {
    && Holds(log, CountUniform, ShapeCountToBytes(ShapeCount(TruncU32(|c.shapes|))))
    && Holds(log, ShapesBuffer, ShapesBytes(c))
    && Holds(log, SpheresBuffer, SphereBytes(c))
  }

  /** What the dirty flag promises: a clean collection is mirrored on the GPU. */
  ghost predicate Coherent(c: ShapeCollection, log: seq<Write>) {
    !c.dirty ==> Mirrors(c, log)
  }

  /**
   `ShapeCollection::new`, state part: both tables empty and the flag clear,
   which is coherent with the freshly created GPU buffers.
   */
  function New(): (c: ShapeCollection)
    ensures Valid(c) && !c.dirty
    ensures ShapesBytes(c) == [] && SphereBytes(c) == []
    ensures Coherent(c, InitialLog())
  {
    ShapeCollection([], [], false)
  }

  /**
   `add_sphere`: appends the sphere and a sphere shape that points at it,
   leaves every earlier entry as it was, and marks the collection dirty.
   There is no capacity check.
   */
  function AddSphere(c: ShapeCollection, sphere: Sphere, color: Color, reflectivity: F32): (r: ShapeCollection)
    ensures |r.spheres| == |c.spheres| + 1 && |r.shapes| == |c.shapes| + 1
    ensures r.spheres[..|c.spheres|] == c.spheres && r.spheres[|c.spheres|] == sphere
    ensures r.shapes[..|c.shapes|] == c.shapes
    ensures var s := r.shapes[|c.shapes|];
            && s.index == TruncU32(|c.spheres|) && s.shapeType == SHAPE_TYPE_SPHERE
            && s.color == color && s.reflectivity == reflectivity
            && s.pad0 == ZERO && s.pad1 == ZERO
    ensures r.dirty
  {
    var index := TruncU32(|c.spheres|);
    var r := ShapeCollection(c.shapes + [NewShape(color, SHAPE_TYPE_SPHERE, index, reflectivity)],
                             c.spheres + [sphere], true);
    assert r.shapes[..|c.shapes|] == c.shapes;
    assert r.spheres[..|c.spheres|] == c.spheres;
    r
  }

  /** `add_sphere` keeps the registry invariant. */
  lemma AddSphereKeepsValid(c: ShapeCollection, sphere: Sphere, color: Color, reflectivity: F32)
    requires Valid(c)
    ensures Valid(AddSphere(c, sphere, color, reflectivity))
  {
  }

  /** `add_sphere` only appends to the uploaded bytes: the old images are prefixes. */
  lemma AddSphereExtendsBytes(c: ShapeCollection, sphere: Sphere, color: Color, reflectivity: F32)
    ensures var r := AddSphere(c, sphere, color, reflectivity);
            && ShapesBytes(r) == ShapesBytes(c) + ShapeToBytes(r.shapes[|c.shapes|])
            && SphereBytes(r) == SphereBytes(c) + SphereToBytes(sphere)
  {
    var r := AddSphere(c, sphere, color, reflectivity);
    assert r.shapes == c.shapes + [r.shapes[|c.shapes|]];
    assert r.spheres == c.spheres + [sphere];
    ConcatSnoc(c.shapes, r.shapes[|c.shapes|], ShapeToBytes);
    TableBytesSnoc(c.spheres, sphere);
  }

  /**
   In a valid collection holding at most 2^32 shapes, shape `i` refers to
   sphere `i`: its index is its own position and lies inside the sphere table.
   */
  lemma IndexIsPosition(c: ShapeCollection, i: nat)
    requires Valid(c) && |c.shapes| <= U32_MODULUS
    requires i < |c.shapes|
    ensures c.shapes[i].index as int == i
    ensures (c.shapes[i].index as int) < |c.spheres|
  {
  }

  /**
   `update_buffers`: when dirty, writes the count header, `shapes_bytes` and
   `sphere_bytes`, in that order, and clears the flag; when clean, writes
   nothing and changes nothing.
   */
  function UpdateBuffers(c: ShapeCollection, log: seq<Write>): (r: (ShapeCollection, seq<Write>))
    ensures !c.dirty ==> r == (c, log)
    ensures c.dirty ==> r.0 == c.(dirty := false)
    ensures c.dirty ==> |r.1| == |log| + 3 && r.1[..|log|] == log
    ensures c.dirty ==> r.1[|log|].target == CountUniform && |r.1[|log|].data| == WORD_SIZE
                        && U32FromBytes(r.1[|log|].data) == TruncU32(|c.shapes|)
    ensures c.dirty ==> r.1[|log| + 1].target == ShapesBuffer
                        && DecodeShapes(r.1[|log| + 1].data) == Some(c.shapes)
    ensures c.dirty ==> r.1[|log| + 2].target == SpheresBuffer
                        && DecodeTable(r.1[|log| + 2].data) == Some(c.spheres)
  {
    if c.dirty then
      var writes := [ Write(CountUniform, ShapeCountToBytes(ShapeCount(TruncU32(|c.shapes|)))),
                      Write(ShapesBuffer, ShapesBytes(c)),
                      Write(SpheresBuffer, SphereBytes(c)) ];
      assert (log + writes)[..|log|] == log;
      (c.(dirty := false), log + writes)
    else
      (c, log)
  }

  /** Every operation keeps the collection coherent with the GPU buffers. */
  lemma OperationsKeepCoherent(c: ShapeCollection, log: seq<Write>, sphere: Sphere, color: Color, reflectivity: F32)
    requires Coherent(c, log)
    ensures Coherent(AddSphere(c, sphere, color, reflectivity), log)
    ensures var (c', log') := UpdateBuffers(c, log); Coherent(c', log') && Mirrors(c', log')
  {
  }

  /** Two syncs in a row upload once: the second finds the collection clean. */
  lemma UpdateBuffersIdempotent(c: ShapeCollection, log: seq<Write>)
    ensures var (c1, log1) := UpdateBuffers(c, log);
            && UpdateBuffers(c1, log1) == (c1, log1)
            && |log1| == |log| + (if c.dirty then 3 else 0)
  {
  }

  /** The written images fit the pre-sized GPU buffers exactly when the tables hold at most 32 records. */
  ghost predicate FitsBuffers(c: ShapeCollection) {
    |ShapesBytes(c)| <= SHAPES_BUFFER_SIZE && |SphereBytes(c)| <= SPHERES_BUFFER_SIZE
  }

  lemma FitsBuffersIffWithinCapacity(c: ShapeCollection)
    requires Valid(c)
    ensures FitsBuffers(c) <==> |c.shapes| <= SHAPE_CAPACITY
  {
  }

  /** `add_sphere` on a full collection still appends, and the next upload no longer fits. */
  lemma AddSphereIgnoresCapacity(c: ShapeCollection, sphere: Sphere, color: Color, reflectivity: F32)
    requires Valid(c) && |c.shapes| == SHAPE_CAPACITY
    ensures FitsBuffers(c)
    ensures !FitsBuffers(AddSphere(c, sphere, color, reflectivity))
  {
  }

  /** One `add_sphere` call's arguments. */
  datatype SphereAdd = SphereAdd(sphere: Sphere, color: Color, reflectivity: F32)

  /** A sequence of `add_sphere` calls, in order. */
  function AddAll(c: ShapeCollection, adds: seq<SphereAdd>): ShapeCollection
    decreases |adds|
  {
    if adds == [] then c
    else AddAll(AddSphere(c, adds[0].sphere, adds[0].color, adds[0].reflectivity), adds[1..])
  }

  /**
   After any sequence of `add_sphere` calls the invariant still holds, the
   old entries are untouched, and entry `|c.spheres| + k` is the `k`-th call's
   sphere and a shape carrying that call's colour and reflectivity.
   */
  lemma {:induction false} AddAllAppends(c: ShapeCollection, adds: seq<SphereAdd>)
    requires Valid(c)
    ensures var r := AddAll(c, adds);
            && Valid(r)
            && |r.spheres| == |c.spheres| + |adds|
            && r.spheres[..|c.spheres|] == c.spheres
            && r.shapes[..|c.shapes|] == c.shapes
            && (forall k :: 0 <= k < |adds| ==>
                  && r.spheres[|c.spheres| + k] == adds[k].sphere
                  && r.shapes[|c.shapes| + k].color == adds[k].color
                  && r.shapes[|c.shapes| + k].reflectivity == adds[k].reflectivity)
            && r.dirty == (c.dirty || |adds| > 0)
    decreases |adds|
  {
    if adds != [] {
      var a := adds[0];
      var c1 := AddSphere(c, a.sphere, a.color, a.reflectivity);
      AddSphereKeepsValid(c, a.sphere, a.color, a.reflectivity);
      AddAllAppends(c1, adds[1..]);
      var r := AddAll(c1, adds[1..]);
      assert r == AddAll(c, adds);
      var n := |c.spheres|;
      assert r.spheres[..n] == r.spheres[..n + 1][..n];
      assert r.shapes[..n] == r.shapes[..n + 1][..n];
      forall k | 0 <= k < |adds|
        ensures r.spheres[n + k] == adds[k].sphere
        ensures r.shapes[n + k].color == adds[k].color
        ensures r.shapes[n + k].reflectivity == adds[k].reflectivity
      {
        if k == 0 {
          assert r.spheres[n] == r.spheres[..n + 1][n] == c1.spheres[n];
          assert r.shapes[n] == r.shapes[..n + 1][n] == c1.shapes[n];
        } else {
          assert adds[1..][k - 1] == adds[k];
          assert n + k == (n + 1) + (k - 1);
        }
      }
    }
  }

  /**
   Two `add_sphere` calls on a new collection give shapes 0 and 1, pointing
   at spheres 0 and 1; the next sync writes a header reading 2 and the two
   tables, and leaves the collection clean.
   */
  lemma TwoSpheresThenSync(s0: Sphere, s1: Sphere, color: Color, reflectivity: F32)
    ensures var c := AddSphere(AddSphere(New(), s0, color, reflectivity), s1, color, reflectivity);
            var (c', log) := UpdateBuffers(c, []);
            && c'.spheres == [s0, s1]
            && c'.shapes[0].index == 0 && c'.shapes[1].index == 1
            && !c'.dirty && |log| == 3
            && U32FromBytes(log[0].data) == 2
  {
  }
}
