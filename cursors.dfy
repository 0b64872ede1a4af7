/** The cursors the reader hands to generated deserialization code. A type
    cursor reads a custom type's keys, or an enum's member index; a
    collection cursor counts the elements of an array or the keys and values
    of a map. Values are read by forwarding to the reader. */
module Cursors {
  import opened Bytes
  import opened Results
  import opened TypeInfos
  import opened Decoding
  import opened Reader

  /** The type cursor. Its two generations (ITypeDeserializer and
      IDeserializeType) share the key counter and TryReadIndex. */
  class DeserializeType {
    const deserializer: MsgPackReader
    var count: int

    constructor (d: MsgPackReader)
      ensures deserializer == d && count == 0
    {
      deserializer := d;
      count := 0;
    }

    /** A type cursor does not know how many entries remain. */
    function SizeOpt(): Option<int>
    {
      None
    }

    /** The next field index: EndOfType once FieldCount keys have been
        read, otherwise the index of the next key, counted only when the key
        was read. An enum's member index is read as an `int`. */
    method TryReadIndex(info: TypeInfo) returns (r: Result<IndexResult>)
      requires deserializer.Valid()
      modifies deserializer.reader`offset, this`count
      ensures deserializer.Follows(r, TypeIndexAt(info, old(count), deserializer.Input(), old(deserializer.Pos())))
      ensures count == if r.Ok? then NextCount(info, old(count)) else old(count)
    {
      if info.kind == CustomType {
        if count >= FieldCount(info) {
          return Ok(IndexResult(EndOfType, None));
        }
        var span := deserializer.ReadUtf8Span();
        if span.Err? {
          return Err(span.error);
        }
        var index := TryGetIndex(info, span.value);
        var errorName := if index == IndexNotFound then Some(SpanDescription(|span.value|)) else None;
        count := count + 1;
        return Ok(IndexResult(index, errorName));
      } else if info.kind == Enum {
        var i := deserializer.ReadInt(I32Read);
        if i.Err? {
          return Err(i.error);
        }
        return Ok(IndexResult(i.value, None));
      }
      return Ok(IndexResult(IndexNotFound, Some(KindMismatch(info.kind))));
    }

    /** A field's value, read by the reader; the key count is untouched. */
    method ReadScalar(kind: ReadKind) returns (r: Result<Item>)
      requires deserializer.Valid()
      modifies deserializer.reader`offset
      ensures deserializer.Follows(r, ScalarAt(deserializer.Input(), old(deserializer.Pos()), kind))
    {
      r := deserializer.ReadScalar(kind);
    }

    /** Skipping an unknown field's value is not implemented. */
    method SkipValue() returns (r: Result<()>)
      ensures r == Err(NotImplemented)
    {
      r := Err(NotImplemented);
    }
  }

  /** The collection cursor of the ITypeDeserializer generation. The caller
      asks for an index, then reads the value; the index argument of a read
      is not looked at, values come in stream order. */
  class DeserializeCollection {
    const deserializer: MsgPackReader
    const isDict: bool
    const length: i32
    var index: i32

    constructor (d: MsgPackReader, seed: CollectionSeed)
      ensures deserializer == d && isDict == seed.isDict && length == seed.length && index == 0
    {
      deserializer := d;
      isDict := seed.isDict;
      length := seed.length;
      index := 0;
    }

    function SizeOpt(): int
    {
      Decoding.SizeOpt(CollectionSeed(isDict, length))
    }

    /** The current index while it is below the length, EndOfType after;
        nothing is read. */
    method TryReadIndex() returns (r: IndexResult)
      ensures r.errorName == None
      ensures index >= length ==> r.index == EndOfType
      ensures index < length ==> r.index == index
    {
      if index >= length {
        return IndexResult(EndOfType, None);
      }
      return IndexResult(index, None);
    }

    /** One element, or one key or value of a map; the index moves on by
        one (wrapping like a C# `int`) only when the read succeeds. */
    method ReadScalar(kind: ReadKind) returns (r: Result<Item>)
      requires deserializer.Valid()
      modifies deserializer.reader`offset, this`index
      ensures deserializer.Follows(r, ScalarAt(deserializer.Input(), old(deserializer.Pos()), kind))
      ensures index == if r.Ok? then WrapInt32(old(index) + 1) else old(index)
      ensures r.Ok? && old(index) < length ==> index == old(index) + 1
    {
      r := deserializer.ReadScalar(kind);
      if r.Ok? {
        index := WrapInt32(index + 1);
      }
    }

    method SkipValue() returns (r: Result<()>)
      ensures r == Err(NotImplemented)
    {
      r := Err(NotImplemented);
    }
  }

  /** The collection cursor of the IDeserializeCollection generation: each
      TryReadValue either reports the end or reads one more value. */
  class LegacyDeserializeCollection {
    const deserializer: MsgPackReader
    const isDict: bool
    const length: i32
    var index: i32

    constructor (d: MsgPackReader, seed: CollectionSeed)
      ensures deserializer == d && isDict == seed.isDict && length == seed.length && index == 0
    {
      deserializer := d;
      isDict := seed.isDict;
      length := seed.length;
      index := 0;
    }

    function SizeOpt(): int
    {
      Decoding.SizeOpt(CollectionSeed(isDict, length))
    }

    /** None, reading nothing, once `length` values have been read;
        otherwise the next value, and the index moves on by one. */
    method TryReadValue(kind: ReadKind) returns (r: Result<Option<Item>>)
      requires deserializer.Valid()
      modifies deserializer.reader`offset, this`index
      ensures deserializer.Valid()
      ensures old(index) >= length ==> r == Ok(None) && deserializer.Pos() == old(deserializer.Pos()) && index == old(index)
      ensures old(index) < length ==>
        match ScalarAt(deserializer.Input(), old(deserializer.Pos()), kind)
        case Ok(d) => r == Ok(Some(d.value)) && deserializer.Pos() == d.next && index == old(index) + 1
        case Err(e) => r == Err(e) && index == old(index)
    {
      if index >= length {
        return Ok(None);
      }
      var v := deserializer.ReadScalar(kind);
      if v.Err? {
        return Err(v.error);
      }
      index := WrapInt32(index + 1);
      return Ok(Some(v.value));
    }
  }
}
