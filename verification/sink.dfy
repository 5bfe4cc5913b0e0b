/**
 The GPU queue as an abstract sink.

 A `queue.write_buffer(&buffer, 0, bytes)` call is recorded as one `Write`
 of `bytes` to the named buffer; every write in the modelled code is at
 offset 0, so the offset is not kept. The log is in call order.
 */
module Sink {
  import opened Bytes
  import opened Optional

  /** The GPU buffers the modelled code writes to. */
  datatype Target = CountUniform | ShapesBuffer | SpheresBuffer | CameraUniformBuffer

  datatype Write = Write(target: Target, data: seq<uint8>)

  /** The bytes of the most recent write to `t`, if `t` was ever written. */
  function LastWrite(log: seq<Write>, t: Target): (r: Option<seq<uint8>>)
    ensures r.None? <==> forall i :: 0 <= i < |log| ==> log[i].target != t
    ensures r.Some? ==> exists i :: 0 <= i < |log| && log[i] == Write(t, r.value)
                                   && forall j :: i < j < |log| ==> log[j].target != t
    decreases |log|
  {
    if log == [] then None
    else if log[|log| - 1].target == t then Some(log[|log| - 1].data)
    else
      var earlier := log[..|log| - 1];
      var r := LastWrite(earlier, t);
      if r.Some? then
        var i :| 0 <= i < |earlier| && earlier[i] == Write(t, r.value)
                 && forall j :: i < j < |earlier| ==> earlier[j].target != t;
        assert log[i] == Write(t, r.value);
        r
      else r
  }

  /** Appending a write changes only what its own target last received. */
  lemma LastWriteAppend(log: seq<Write>, w: Write, t: Target)
    ensures LastWrite(log + [w], t) == if w.target == t then Some(w.data) else LastWrite(log, t)
  {
  }

  /**
   The buffer `t` as last written holds `table`. A buffer never written is
   still zero-filled from its creation, which a reader takes as no records,
   so it holds only the empty table.
   */
  ghost predicate Holds(log: seq<Write>, t: Target, table: seq<uint8>) {
    match LastWrite(log, t)
    case None => table == []
    case Some(d) => d == table
  }
}
