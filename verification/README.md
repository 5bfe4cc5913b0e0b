# Shape registry and camera sync of a wgpu ray marcher, in Dafny

This project models the CPU side of a compute-shader ray marcher's scene
state, and proves properties of that model. It covers:

- the shape registry `ShapeCollection` (`src/shapes/mod.rs`). This is an
  append-only directory of `Shape` records plus a table of `Sphere` records.
  A dirty flag gates the sync step `update_buffers`. That step uploads a
  `ShapeCount` header and the byte images of both tables to GPU buffers.
- the older registry in `src/shape.rs`. Its shape record is laid out
  differently, it has no reflectivity, and it uploads no count header.
- the plain `#[repr(C)]` records these serialise: `Sphere`, `Cuboid`
  (including the structure of its Euler rotation matrix) and `Composit`.
- the closed CSG descriptor tree `CompositDescriptor`.
- the camera's dirty-flag machine `CameraManager` (`src/camera.rs`).

Everything is an immutable value with pure transition functions. Float
values are never computed with, so an `f32` is kept as its 32-bit pattern
(`Bytes.F32`). The GPU queue is a log of `(buffer, bytes)` writes
(`Sink.Write`); every `queue.write_buffer` call in the source is at offset
0. `bytemuck::bytes_of` is the little-endian concatenation of a record's
4-byte fields in declaration order (`Layout.WordsToBytes`). A table's image
is the records' images back to back (`Layout.Concat`). Every record
encoding has a decoder (`Layout.Split` for tables), and round-trip lemmas
state what the uploaded bytes mean.

The central invariant is `Shapes.Valid`:
- there is one shape per sphere;
- shape `i` is a sphere shape whose `index` is `i as u32`;
- its padding is zero.

The dirty flag's promise is `Coherent`: a clean collection or camera is
mirrored by the last bytes written to each of its GPU buffers. Every
operation preserves it. A freshly constructed camera is the exception: it
is clean without being mirrored (see "## Findings").

`src/shapes/mod.rs` imports its `Sphere` from a `sphere` submodule;
src/shapes/sphere.rs is not part of this model. The model assumes that
record has the same layout as the `Sphere` of `src/sphere.rs` and uses the
latter for both registries.

## Model

| member | source | states |
|---|---|---|
| Bytes.TruncU32 | src/shapes/mod.rs:82 | `len() as u32` keeps the low 32 bits: the result equals `n` below 2^32 and differs from `n` by a multiple of 2^32 |
| Bytes.U32RoundTrip | src/shapes/mod.rs:111 | the 4-byte little-endian image of a `u32` field reads back to the same value |
| Bytes.U32BytesRoundTrip | src/shapes/mod.rs:111 | every 4-byte string is the image of exactly one `u32`, so the word encoding is a bijection |
| Layout.ConcatLength | src/shapes/mod.rs:118-120 | `Layout.Concat`, the model of the `flat_map` of record images: flat-mapping fixed-width record images gives exactly width × count bytes |
| Layout.ConcatAppend | src/shapes/mod.rs:118-120 | the image of two tables joined is the two images joined |
| Layout.ConcatSnoc | src/shapes/mod.rs:118-120 | appending a record appends its image, so the old byte string is a prefix of the new one |
| Layout.ConcatRecord | src/shapes/mod.rs:118-120 | record `i` occupies bytes `[w·i, w·(i+1))` of the image, so table order is kept |
| Layout.SplitConcat | src/shapes/mod.rs:118-120 | cutting a table image into stride-sized chunks and decoding each chunk gives the table back |
| Layout.Split | src/shapes/mod.rs:118-120 | a successful decode of a table image found exactly stride × count bytes |
| Layout.DecodeWord | src/shapes/mod.rs:111 | a 4-byte field decodes exactly when it has 4 bytes, and re-encodes to those bytes |
| Layout.WordsToBytesField | src/shapes/mod.rs:14-22 | field `i` of a record (in `#[repr(C)]` declaration order) is bytes `[4i, 4(i+1))` of its `bytes_of` image, so each `*ToBytes` image puts the `*Words` fields at those offsets |
| Layout.WordsRoundTrip | src/shapes/mod.rs:14-22 | a record's word list has a 4-byte-per-field image that decodes back to the words |
| Sink.LastWrite | src/shapes/mod.rs:111-113 | the value reported for a buffer is the data of a write to it with no later write to it, and it is absent exactly when the buffer was never written |
| Sink.LastWriteAppend | src/shapes/mod.rs:111-113 | a new write changes what its own buffer last received and nothing else |
| Spheres.New | src/sphere.rs:10-15 | `Sphere::new` stores position and radius unchanged, in layout order, with no validation of the radius |
| Spheres.NewInjective | src/sphere.rs:2-15 | equal arguments give equal spheres and distinct arguments give distinct spheres |
| Spheres.SphereToBytes | src/sphere.rs:4-7 | a sphere's image is 16 bytes: position (3 f32) then radius |
| Spheres.SphereRoundTrip | src/sphere.rs:4-7 | a sphere image decodes back to the same sphere |
| Spheres.SphereLayout | src/sphere.rs:4-7 | the sphere encoder has a fixed width and the sphere decoder inverts it |
| Spheres.TableBytes | src/shapes/mod.rs:122-124 | `sphere_bytes` is 16 × count bytes and decodes back to the sphere table |
| Spheres.TableBytesSnoc | src/shapes/mod.rs:122-124 | pushing a sphere appends its image to `sphere_bytes` and keeps the earlier bytes |
| Cuboids.New | src/shapes/cuboid.rs:23-36 | `Cuboid::new` copies position and scaling unchanged and zeroes both padding slots. Every rotation row's fourth lane is 0.0. The rotation is the Euler sin/cos product matrix |
| Cuboids.RotationIgnoresPlacement | src/shapes/cuboid.rs:24-29 | the rotation depends only on the Euler angles, never on position or scaling |
| Cuboids.CuboidToBytes | src/shapes/cuboid.rs:10-16 | a cuboid's image is 80 bytes: position, pad, scaling, pad, 3×4 rotation |
| Cuboids.CuboidRoundTrip | src/shapes/cuboid.rs:10-16 | a cuboid image decodes back to the same cuboid |
| Composits.New | src/shapes/composit.rs:15-17 | `Composit::new(a, b, comp_type)` stores its three arguments verbatim as the record's three fields, in order |
| Composits.CompositToBytes | src/shapes/composit.rs:8-12 | a composite record's image is 12 bytes (three u32) |
| Composits.CompositRoundTrip | src/shapes/composit.rs:8-12 | a composite image decodes back to the same `(a, b, comp_type)` |
| Composits.Children | src/shapes/composit.rs:20-26 | leaves (CUBOID, SPHERE) have no children and operators (UNION, INTERSECTION, DIFFERENCE) exactly their two boxed sub-descriptors, left then right, each strictly smaller, so structural recursion terminates |
| Composits.LeafOrOperator | src/shapes/composit.rs:20-26 | the descriptor is closed: each value is a leaf or an operator, never both |
| Composits.LeavesAreOperatorsPlusOne | src/shapes/composit.rs:23-25 | every descriptor has one more leaf than it has operator nodes, and its size is their sum |
| Shapes.NewShape | src/shapes/mod.rs:31-39 | `Shape::new(color, shape_type, index, reflectivity)` puts each argument in its own field. The index lands before the type, matching layout order rather than parameter order. The padding is zero |
| Shapes.ShapeToBytes | src/shapes/mod.rs:14-22 | a shape's image is 32 bytes: colour, index, shape type, reflectivity, 2 pad |
| Shapes.ShapeRoundTrip | src/shapes/mod.rs:14-22 | a shape image decodes back to the same shape |
| Shapes.ShapeLayout | src/shapes/mod.rs:14-22 | the shape encoder has a fixed width and the shape decoder inverts it |
| Shapes.ShapeCountToBytes | src/shapes/mod.rs:26-28 | the count header is one 4-byte `u32` that reads back to the count |
| Shapes.ShapesBytes | src/shapes/mod.rs:118-120 | `shapes_bytes` is 32 × count bytes and decodes back to the shape directory in order |
| Shapes.ShapesBytesRecord | src/shapes/mod.rs:118-120 | shape `i` is bytes `[32i, 32(i+1))` of `shapes_bytes` |
| Shapes.SphereBytes | src/shapes/mod.rs:122-124 | `sphere_bytes` is 16 × count bytes and decodes back to the sphere table |
| Shapes.InitialLog | src/shapes/mod.rs:89-93 | at creation only the count uniform holds data, a 4-byte `ShapeCount(0)` that reads back as 0; the shape and sphere buffers have never been written |
| Shapes.New | src/shapes/mod.rs:78 | a new collection has empty tables, is clean and valid, and is coherent with the freshly created buffers |
| Shapes.AddSphere | src/shapes/mod.rs:81-86 | `add_sphere` appends exactly one sphere and one shape and leaves earlier entries unchanged. The new shape has index = old sphere count (as u32), type 0, the given colour and reflectivity, and zero padding. The collection becomes dirty |
| Shapes.AddSphereKeepsValid | src/shapes/mod.rs:81-86 | `add_sphere` preserves equal table lengths, `shapes[i].index == i as u32`, `shape_type == 0` and zero padding |
| Shapes.AddSphereExtendsBytes | src/shapes/mod.rs:81-86 | after `add_sphere`, the old `shapes_bytes` and `sphere_bytes` are prefixes of the new ones, followed by the new records' images |
| Shapes.IndexIsPosition | src/shapes/mod.rs:82-84 | in a valid collection of at most 2^32 shapes, shape `i` has index `i`, which lies inside the sphere table |
| Shapes.AddAllAppends | src/shapes/mod.rs:81-86 | any sequence of `add_sphere` calls keeps the invariant and leaves old entries untouched. Entry `old + k` holds the `k`-th call's sphere, colour and reflectivity. Dirty is set iff some call was made (or it was already set) |
| Shapes.UpdateBuffers | src/shapes/mod.rs:109-116 | when dirty, it writes three things in order and then clears dirty: a count header reading `len as u32`, the shape image (decodes to the directory) and the sphere image (decodes to the sphere table). When clean, it writes nothing and changes nothing |
| Shapes.OperationsKeepCoherent | src/shapes/mod.rs:81-116 | `add_sphere` and `update_buffers` preserve "clean implies the GPU buffers hold the current tables and count". After `update_buffers` the buffers always hold them |
| Shapes.UpdateBuffersIdempotent | src/shapes/mod.rs:109-116 | two consecutive syncs write once: three writes if dirty, none otherwise, and the second call is a no-op |
| Shapes.FitsBuffersIffWithinCapacity | src/shapes/mod.rs:94-105 | for a valid collection, the uploaded images fit the buffers pre-sized for `SHAPE_CAPACITY = 32` records exactly when there are at most 32 shapes |
| Shapes.AddSphereIgnoresCapacity | src/shapes/mod.rs:81-86 | `add_sphere` on a full collection still appends, after which the images no longer fit the buffers |
| Shapes.TwoSpheresThenSync | src/shapes/mod.rs:78-116 | on a new collection, two `add_sphere` calls give shapes with indices 0 and 1 over spheres `[s0, s1]`. The next sync writes three times (header reading 2) and leaves the collection clean |
| LegacyShapes.NewShape | src/shape.rs:20-27 | the older `Shape::new` stores colour, shape type and index verbatim in layout order, with three zero pad words |
| LegacyShapes.ShapeToBytes | src/shape.rs:12-17 | an older shape's image is 32 bytes: colour (3 f32), type, index, 3 pad |
| LegacyShapes.ShapeRoundTrip | src/shape.rs:12-17 | an older shape image decodes back to the same shape |
| LegacyShapes.ShapeLayout | src/shape.rs:12-17 | the older shape encoder has a fixed width and the decoder inverts it |
| LegacyShapes.ShapesBytes | src/shape.rs:95-97 | `shapes_bytes` is 32 × count bytes and decodes back to the directory in insertion order |
| LegacyShapes.ShapesBytesRecord | src/shape.rs:95-97 | shape `i` is bytes `[32i, 32(i+1))` of `shapes_bytes` |
| LegacyShapes.SphereBytes | src/shape.rs:99-101 | `sphere_bytes` is 16 × count bytes and decodes back to the sphere table |
| LegacyShapes.New | src/shape.rs:61 | a new collection is empty, clean, valid, and coherent with never-written buffers |
| LegacyShapes.AddSphere | src/shape.rs:64-69 | appends one sphere and one shape with index = old sphere count (as u32), type 0, the given colour and zero padding. Earlier entries are unchanged and the collection becomes dirty |
| LegacyShapes.AddSphereKeepsValid | src/shape.rs:64-69 | `add_sphere` preserves equal lengths, `shapes[i].index == i as u32`, type 0 and zero padding |
| LegacyShapes.AddSphereExtendsBytes | src/shape.rs:64-69 | after `add_sphere`, the old byte images are prefixes of the new ones |
| LegacyShapes.IndexIsPosition | src/shape.rs:65-67 | in a valid collection of at most 2^32 shapes, shape `i` has index `i` inside the sphere table |
| LegacyShapes.UpdateBuffers | src/shape.rs:87-93 | when dirty, it writes the shape image then the sphere image (no count header) and clears dirty. When clean, it is a no-op |
| LegacyShapes.OperationsKeepCoherent | src/shape.rs:64-93 | `add_sphere` and `update_buffers` preserve "clean implies the two buffers hold the current tables" |
| LegacyShapes.UpdateBuffersIdempotent | src/shape.rs:87-93 | two consecutive syncs write once (two writes if dirty, none otherwise) |
| LegacyShapes.FitsBuffersIffWithinCapacity | src/shape.rs:71-85 | the images fit the buffers sized for 32 records exactly when there are at most 32 shapes |
| Cameras.UniformToBytes | src/camera.rs:8-10 | the camera uniform's image is 48 bytes (a 3×4 f32 matrix) |
| Cameras.UniformRoundTrip | src/camera.rs:8-10 | a camera uniform image decodes back to the same matrix |
| Cameras.New | src/camera.rs:36 | a new camera is clean with the given size, angle π and field of view 0.2 |
| Cameras.SetSize | src/camera.rs:39-42 | `set_size` stores the size and sets dirty, leaving angle and field of view unchanged |
| Cameras.SetAngle | src/camera.rs:100-103 | `set_angle` stores the angle and sets dirty, leaving size and field of view unchanged |
| Cameras.AngleIsLastSet | src/camera.rs:96-98 | `angle()`, modelled by `Cameras.Angle`, returns the most recently stored angle; `set_size` and `update_buffers` do not change it |
| Cameras.UpdateBuffers | src/camera.rs:72-77 | when dirty, it uploads one uniform, generated from the current angle and size, and clears dirty. When clean, it is a no-op |
| Cameras.OperationsKeepCoherent | src/camera.rs:39-103 | setters and sync preserve "clean implies the uniform buffer holds the current camera's uniform" |
| Cameras.UpdateBuffersIdempotent | src/camera.rs:72-77 | two consecutive syncs upload once |
| Cameras.NewIsNotCoherent | src/camera.rs:36 | as written, a new camera is clean though its buffer was never written, so a sync right after construction uploads nothing |
| Cameras.NewDirty | src/camera.rs:36 | a constructor with the flag raised: same size, angle and field of view, but dirty |
| Cameras.NewDirtyIsCoherent | src/camera.rs:63-77 | a camera from `NewDirty` is coherent from the start, and its first sync uploads the uniform |

## Left out

- GPU buffer, bind-group and bind-group-layout creation (`create_buffers`, `init_buffers`, `bind_group_layout`, `bind_group`) is foreign wgpu API. Only its observable effects are modelled: the count uniform's initial `ShapeCount(0)`, the buffer sizes, and the fact that a never-written buffer holds no records.
- `queue.write_buffer` is a log entry `(buffer, bytes)`. The offset is always 0 and is not recorded. What wgpu does when a write exceeds the buffer (a validation error) is not modelled; `FitsBuffers` states when writes stay in bounds.
- `f32` bit-level encoding: an `f32` is its 32-bit pattern, encoded little-endian like a `u32` (a little-endian host is assumed). No float arithmetic is modelled.
- Cuboids.New: the sin/cos products are built from uninterpreted float operations passed in as `FloatOps`. The model fixes which operation feeds which entry, not the values.
- `CameraManager::generate_uniform` (trigonometry and division) is a function parameter of `Cameras.UpdateBuffers`. It may depend only on the angle and the size, as the source's does.
- `Cuboid::new_rand` and `Color::random` use a process-global, mutex-guarded random generator and are left out.
- src/shapes/sphere.rs is not part of this model: the newer registry's `Sphere` is assumed to have the layout of `src/sphere.rs` (position, then radius, 16 bytes).
- `ShapeProperties` is imported by `src/shapes/composit.rs` but not defined in the modelled files, so it is the type parameter of `CompositDescriptor`.
- No flattener (`create_composite`), cube insertion or capacity-overflow error exists in the modelled code, so none is modelled. The descriptor's structural facts are proved on their own.
- The camera's `fov` is stored but never read in the modelled code; it is kept as state only.
- `src/app.rs` (surface, pipelines, render passes), `src/main.rs` (event loop and timing) and `build.rs` (shader templating through file I/O) are I/O and GPU plumbing outside the registry.
- Sink.Holds: a buffer that was never written is zero-filled by wgpu. The model treats it as holding the empty table, not as a byte string of zeros of the buffer's size.

## Findings

| source | as written | input that shows it | evidently intended | confidence | as-written member | corrected member |
|---|---|---|---|---|---|---|
| src/camera.rs:36 | `CameraManager::new` sets `dirty: false`, but `init_buffers` (src/camera.rs:63-70) creates the uniform buffer without contents | `CameraManager::new(device, size)` followed by `update_buffers(queue)` writes nothing, so the ray-direction matrix stays all zero until `set_size` or `set_angle` is called | the first sync uploads the initial camera, i.e. the camera starts dirty | low, not executed; callers not in the model may call a setter before the first frame | Cameras.NewIsNotCoherent | Cameras.NewDirty |
