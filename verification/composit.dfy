/** Composite records and the CSG descriptor tree (`src/shapes/composit.rs`). */
module Composits {
  import opened Bytes
  import opened Optional
  import opened Layout
  import opened Spheres
  import opened Cuboids

  /** `#[repr(C)]`: two shape indices and an operation tag, all `u32`. */
  datatype Composit = Composit(a: uint32, b: uint32, compType: uint32)

  /** `size_of::<Composit>()`: three 4-byte fields. */
  const COMPOSIT_STRIDE: nat := 12

  /** `Composit::new`: the three arguments land in the record's three fields, in order. */
  function New(a: uint32, b: uint32, compType: uint32): (c: Composit)
    ensures CompositWords(c) == [a, b, compType]
  {
    Composit(a, b, compType)
  }

  function CompositWords(c: Composit): (w: seq<uint32>)
    ensures |w| == 3
  {
    [c.a, c.b, c.compType]
  }

  /** `bytemuck::bytes_of(&composit)` */
  function CompositToBytes(c: Composit): (b: seq<uint8>)
    ensures |b| == COMPOSIT_STRIDE
  {
    WordsRoundTrip(CompositWords(c));
    WordsToBytes(CompositWords(c))
  }

  function DecodeComposit(b: seq<uint8>): (r: Option<Composit>)
    ensures r.Some? ==> |b| == COMPOSIT_STRIDE
  {
    match BytesToWords(b)
    case Some(w) => if |w| == 3 then Some(Composit(w[0], w[1], w[2])) else None
    case None => None
  }

  lemma CompositRoundTrip(c: Composit)
    ensures DecodeComposit(CompositToBytes(c)) == Some(c)
  {
    WordsRoundTrip(CompositWords(c));
  }

  /**
   `CompositDescriptor`: a leaf primitive with its shape properties, or a
   binary CSG operator over two owned sub-descriptors. The shape-properties
   type is not defined in the modelled files, so it is a parameter here.
   */
  datatype CompositDescriptor<Props> =
    | CuboidLeaf(cuboid: Cuboid, cuboidProps: Props)
    | SphereLeaf(sphere: Sphere, sphereProps: Props)
    | Union(left: CompositDescriptor<Props>, right: CompositDescriptor<Props>)
    | Intersection(left: CompositDescriptor<Props>, right: CompositDescriptor<Props>)
    | Difference(left: CompositDescriptor<Props>, right: CompositDescriptor<Props>)
  {
    predicate IsLeaf() {
      CuboidLeaf? || SphereLeaf?
    }

    predicate IsOperator() {
      Union? || Intersection? || Difference?
    }
  }

  /** The direct sub-descriptors: none for a leaf, left then right for an operator. */
  function Children<P>(d: CompositDescriptor<P>): (cs: seq<CompositDescriptor<P>>)
    ensures d.IsLeaf() <==> cs == []
    ensures d.IsOperator() <==> |cs| == 2
    ensures d.IsOperator() ==> cs == [d.left, d.right]
    ensures forall i :: 0 <= i < |cs| ==> Size(cs[i]) < Size(d)
  {
    match d
    case CuboidLeaf(_, _) => []
    case SphereLeaf(_, _) => []
    case Union(l, r) => [l, r]
    case Intersection(l, r) => [l, r]
    case Difference(l, r) => [l, r]
  }

  /** Number of nodes, leaves and operators together. */
  function Size<P>(d: CompositDescriptor<P>): nat {
    if d.IsLeaf() then 1 else 1 + Size(d.left) + Size(d.right)
  }

  function LeafCount<P>(d: CompositDescriptor<P>): nat {
    if d.IsLeaf() then 1 else LeafCount(d.left) + LeafCount(d.right)
  }

  function OperatorCount<P>(d: CompositDescriptor<P>): nat {
    if d.IsLeaf() then 0 else 1 + OperatorCount(d.left) + OperatorCount(d.right)
  }

  /** The descriptor is closed: every value is exactly one of a leaf or an operator. */
  lemma LeafOrOperator<P>(d: CompositDescriptor<P>)
    ensures d.IsLeaf() != d.IsOperator()
  {
  }

  /** A full binary tree has one more leaf than it has operator nodes. */
  lemma {:induction false} LeavesAreOperatorsPlusOne<P>(d: CompositDescriptor<P>)
    ensures LeafCount(d) == OperatorCount(d) + 1
    ensures Size(d) == LeafCount(d) + OperatorCount(d)
  {
    if d.IsOperator() {
      LeavesAreOperatorsPlusOne(d.left);
      LeavesAreOperatorsPlusOne(d.right);
    }
  }
}
