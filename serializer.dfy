/** The entry point: serialize one value into a fresh scratch buffer with
    the writer, copy out what was written, and return the buffer's array to
    the pool whether the write succeeded or not. */
module Serializer {
  import opened Bytes
  import opened Results
  import opened Values
  import opened ScratchBuffers
  import opened Writer

  /** Both Serialize overloads: the value's own serializer and an explicit
      proxy call the same writer on the same buffer, so one method models
      them. The result is exactly the value's encoding, or the writer's error. */
  method Serialize(v: Value) returns (r: Result<seq<byte>>)
    ensures r == Encoding(Named, v)
  {
    var buffer := new ScratchBuffer();
    var writer := new MsgPackWriter(buffer);
    assert buffer.Span() == [];
    var w := writer.SerializeValue(v);
    if w.Err? {
      buffer.Dispose();
      return Err(w.error);
    }
    var bytes := buffer.Span();
    assert bytes == [] + Encoding(Named, v).value == Encoding(Named, v).value;
    buffer.Dispose();
    return Ok(bytes);
  }
}
