/** The byte source the reader draws from: a whole input array and a read
    offset into it. Span is what remains; FillBuffer answers whether the
    next fillCount bytes are all present. */
module BufReaders {
  import opened Bytes

  class ArrayBufReader {
    const buffer: array<byte>
    var offset: nat

    ghost predicate Valid()
      reads this
    {
      offset <= buffer.Length
    }

    constructor (bytes: array<byte>)
      ensures buffer == bytes && offset == 0 && Valid()
    {
      buffer := bytes;
      offset := 0;
    }

    /** The bytes not yet consumed. */
    function Span(): (s: seq<byte>)
      requires Valid()
      reads this, buffer
      ensures |s| == buffer.Length - offset
      ensures forall i :: 0 <= i < |s| ==> s[i] == buffer[offset + i]
    {
      buffer[offset..]
    }

    /** Consumes count bytes; advancing past the end of the buffer is not allowed. */
    method Advance(count: int)
      requires Valid() && 0 <= offset + count <= buffer.Length
      modifies this`offset
      ensures Valid() && offset == old(offset) + count
    {
      offset := offset + count;
    }

    /** Whether the next fillCount bytes are available. Everything is
        already in memory, so nothing is loaded and nothing changes. */
    method FillBuffer(fillCount: int) returns (ok: bool)
      requires Valid()
      ensures ok <==> fillCount <= |Span()|
    {
      ok := offset + fillCount <= buffer.Length;
    }
  }
}
