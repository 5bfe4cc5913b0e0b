/**
 The camera's dirty-flag state machine (`src/camera.rs`): setters mark the
 camera dirty, and the sync step uploads the camera uniform once and clears
 the flag.
 */
module Cameras {
  import opened Bytes
  import opened Optional
  import opened Layout
  import opened Sink

  /** `winit::dpi::PhysicalSize<u32>` */
  datatype PhysicalSize = PhysicalSize(width: uint32, height: uint32)

  /** `0.2_f32`, the initial field of view. */
  const INITIAL_FOV: F32 := F32(0x3E4C_CCCD)

  /** The state part of `CameraManager`; the GPU handles are left out. */
  datatype CameraManager = CameraManager(dirty: bool, size: PhysicalSize, angle: F32, fov: F32)

  /** `CameraUniform { ray_dir_mat: [[f32; 4]; 3] }`, rows right, up, forward. */
  datatype CameraUniform = CameraUniform(right: Vec4, up: Vec4, forward: Vec4)

  /** `size_of::<CameraUniform>()`: twelve 4-byte fields. */
  const CAMERA_UNIFORM_SIZE: nat := 48

  /**
   `generate_uniform`, whose trigonometry is not modelled: it reads only the
   angle and the window size, so it is any function of those two.
   */
  type UniformGenerator = (F32, PhysicalSize) -> CameraUniform

  function UniformWords(u: CameraUniform): (w: seq<uint32>)
    ensures |w| == 12
  {
    Vec4Words(u.right) + Vec4Words(u.up) + Vec4Words(u.forward)
  }

  /** `bytemuck::bytes_of(&uniform)` */
  function UniformToBytes(u: CameraUniform): (b: seq<uint8>)
    ensures |b| == CAMERA_UNIFORM_SIZE
  {
    WordsRoundTrip(UniformWords(u));
    WordsToBytes(UniformWords(u))
  }

  function DecodeUniform(b: seq<uint8>): (r: Option<CameraUniform>)
    ensures r.Some? ==> |b| == CAMERA_UNIFORM_SIZE
  {
    match BytesToWords(b)
    case Some(w) => if |w| == 12 then Some(CameraUniform(Vec4At(w, 0), Vec4At(w, 4), Vec4At(w, 8))) else None
    case None => None
  }

  lemma UniformRoundTrip(u: CameraUniform)
    ensures DecodeUniform(UniformToBytes(u)) == Some(u)
  {
    WordsRoundTrip(UniformWords(u));
  }

  /** `CameraManager::new`, state part: clean, the given size, angle pi, field of view 0.2. */
  function New(size: PhysicalSize): (m: CameraManager)
    ensures !m.dirty && m.size == size
    ensures Angle(m) == PI && m.fov == INITIAL_FOV
  {
    CameraManager(false, size, PI, INITIAL_FOV)
  }

  /** `set_size`: stores the size and marks dirty; angle and field of view are kept. */
  function SetSize(m: CameraManager, size: PhysicalSize): (r: CameraManager)
    ensures r.dirty && r.size == size
    ensures Angle(r) == Angle(m) && r.fov == m.fov
  {
    m.(dirty := true, size := size)
  }

  /** `set_angle`: stores the angle and marks dirty; size and field of view are kept. */
  function SetAngle(m: CameraManager, angle: F32): (r: CameraManager)
    ensures r.dirty && Angle(r) == angle
    ensures r.size == m.size && r.fov == m.fov
  {
    m.(angle := angle, dirty := true)
  }

  /** `angle()` */
  function Angle(m: CameraManager): F32 {
    m.angle
  }

  /**
   `update_buffers`: when dirty, uploads the uniform generated from the
   current angle and size and clears the flag; when clean, does nothing.
   */
  function UpdateBuffers(m: CameraManager, log: seq<Write>, generate: UniformGenerator): (r: (CameraManager, seq<Write>))
    ensures !m.dirty ==> r == (m, log)
    ensures m.dirty ==> r.0 == m.(dirty := false)
    ensures m.dirty ==> |r.1| == |log| + 1 && r.1[..|log|] == log
    ensures m.dirty ==> r.1[|log|].target == CameraUniformBuffer
                        && DecodeUniform(r.1[|log|].data) == Some(generate(m.angle, m.size))
  {
    if m.dirty then
      UniformRoundTrip(generate(m.angle, m.size));
      var log' := log + [Write(CameraUniformBuffer, UniformToBytes(generate(m.angle, m.size)))];
      assert log'[..|log|] == log;
      (m.(dirty := false), log')
    else
      (m, log)
  }

  /** `angle()` returns the angle most recently stored; no other operation changes it. */
  lemma AngleIsLastSet(m: CameraManager, a: F32, size: PhysicalSize, log: seq<Write>, g: UniformGenerator)
    ensures Angle(SetAngle(m, a)) == a
    ensures Angle(SetAngle(SetSize(m, size), a)) == a
    ensures Angle(SetSize(SetAngle(m, a), size)) == a
    ensures Angle(UpdateBuffers(SetAngle(m, a), log, g).0) == a
  {
  }

  /** The uniform buffer, as last written, holds the uniform of the current angle and size. */
  ghost predicate Mirrors(m: CameraManager, log: seq<Write>, g: UniformGenerator) {
    LastWrite(log, CameraUniformBuffer) == Some(UniformToBytes(g(m.angle, m.size)))
  }

  ghost predicate Coherent(m: CameraManager, log: seq<Write>, g: UniformGenerator) {
    !m.dirty ==> Mirrors(m, log, g)
  }

  /** The setters and the sync step keep the camera coherent with its uniform buffer. */
  lemma OperationsKeepCoherent(m: CameraManager, log: seq<Write>, g: UniformGenerator, size: PhysicalSize, angle: F32)
    requires Coherent(m, log, g)
    ensures Coherent(SetSize(m, size), log, g)
    ensures Coherent(SetAngle(m, angle), log, g)
    ensures var (m', log') := UpdateBuffers(m, log, g); Coherent(m', log', g) && Mirrors(m', log', g)
  {
  }

  /** Two syncs in a row upload once. */
  lemma UpdateBuffersIdempotent(m: CameraManager, log: seq<Write>, g: UniformGenerator)
    ensures var (m1, log1) := UpdateBuffers(m, log, g);
            && UpdateBuffers(m1, log1, g) == (m1, log1)
            && |log1| == |log| + (if m.dirty then 1 else 0)
  {
  }

  /**
   As written, a new camera is clean although its uniform buffer was created
   empty: a sync right after construction uploads nothing, so the buffer is
   never filled until a setter runs.
   */
  lemma NewIsNotCoherent(size: PhysicalSize, g: UniformGenerator)
    ensures !Coherent(New(size), [], g)
    ensures UpdateBuffers(New(size), [], g).1 == []
  {
  }

  /** `CameraManager::new` with the flag raised, so the first sync uploads the uniform. */
  function NewDirty(size: PhysicalSize): (m: CameraManager)
    ensures m.dirty && m.size == size
    ensures Angle(m) == PI && m.fov == INITIAL_FOV
  {
    CameraManager(true, size, PI, INITIAL_FOV)
  }

  /** A camera built by `NewDirty` is coherent from the start and mirrored after the first sync. */
  lemma NewDirtyIsCoherent(size: PhysicalSize, g: UniformGenerator)
    ensures Coherent(NewDirty(size), [], g)
    ensures var (m, log) := UpdateBuffers(NewDirty(size), [], g);
            Mirrors(m, log, g) && |log| == 1
  {
  }
}
