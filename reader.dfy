/** The MessagePack reader: each read consumes bytes from an ArrayBufReader
    and is proved to follow the matching declarative read of the Decoding
    module, so that the round-trip lemmas proved there about the writers'
    encodings hold of the reader's methods as well. */
module Reader {
  import opened Bytes
  import opened Results
  import opened Formats
  import opened TypeInfos
  import opened Decoding
  import opened BufReaders

  /** What a TryRead* method reports: the integer it read, or the marker it
      consumed but does not accept, handed on to the next, wider read. */
  datatype Attempt = Got(value: int) | Refused(marker: byte)

  class MsgPackReader {
    const reader: ArrayBufReader

    ghost predicate Valid()
      reads reader
    {
      reader.Valid()
    }

    /** The whole input and the position of the next unread byte. */
    ghost function Input(): seq<byte>
      reads reader.buffer
    {
      reader.buffer[..]
    }

    function Pos(): nat
      reads reader
    {
      reader.offset
    }

    /** The read returned r and stands where spec says the next read starts,
        or it failed with spec's error. */
    ghost predicate Follows<T>(r: Result<T>, spec: Result<Decoded<T>>)
      reads reader
    {
      && Valid()
      && match spec
         case Ok(d) => r == Ok(d.value) && Pos() == d.next
         case Err(e) => r == Err(e)
    }

    /** A TryRead* over the formats in `accepts`, whose marker is at mpos:
        Got is what IntAt reads there; Refused hands back the consumed
        marker, which `accepts` does not contain; an error means the input
        ended. */
    ghost predicate Tried(r: Result<Attempt>, accepts: set<IntFormat>, mpos: nat)
      reads reader, reader.buffer
    {
      && Valid()
      && match r
         case Ok(Got(v)) => IntAt(Input(), mpos, accepts) == Ok(Decoded(v, Pos()))
         case Ok(Refused(m)) =>
           mpos < |Input()| && m == Input()[mpos] && !Accepts(accepts, m) && Pos() == mpos + 1
         case Err(e) => e == EndOfStream && IntAt(Input(), mpos, accepts) == Err(EndOfStream)
    }

    /** The reader starts by asking for one byte; the answer is not used. */
    constructor (r: ArrayBufReader)
      requires r.Valid()
      ensures reader == r && Valid()
    {
      reader := r;
      new;
      var _ := reader.FillBuffer(1);
    }

    /** The rest of the input, provided it holds at least fillCount bytes. */
    method RefillNoEof(fillCount: int) returns (r: Result<seq<byte>>)
      requires Valid()
      ensures r.Ok? <==> Pos() + fillCount <= |Input()|
      ensures r.Ok? ==> r.value == Input()[Pos()..]
      ensures r.Err? ==> r.error == EndOfStream
    {
      var ok := reader.FillBuffer(fillCount);
      if !ok {
        return Err(EndOfStream);
      }
      return Ok(reader.Span());
    }

    /** The next byte, left unconsumed. */
    method PeekByteOrThrow() returns (r: Result<byte>)
      requires Valid()
      ensures r.Ok? <==> Pos() < |Input()|
      ensures r.Ok? ==> r.value == Input()[Pos()]
      ensures r.Err? ==> r.error == EndOfStream
    {
      var span := reader.Span();
      if |span| == 0 {
        var refill := RefillNoEof(1);
        match refill {
          case Err(e) => return Err(e);
          case Ok(rest) => span := rest;
        }
      }
      return Ok(span[0]);
    }

    method EatByteOrThrow() returns (r: Result<byte>)
      requires Valid()
      modifies reader`offset
      ensures Follows(r, ByteAt(Input(), old(Pos())))
    {
      r := PeekByteOrThrow();
      if r.Ok? {
        reader.Advance(1);
      }
    }

    method ReadBool() returns (r: Result<bool>)
      requires Valid()
      modifies reader`offset
      ensures Follows(r, BoolAt(Input(), old(Pos())))
    {
      var b := EatByteOrThrow();
      if b.Err? {
        return Err(b.error);
      }
      if b.value == FalseMarker {
        return Ok(false);
      }
      if b.value == TrueMarker {
        return Ok(true);
      }
      return Err(UnexpectedMarker(b.value));
    }

    /** An n-byte big-endian field (ReadBigEndianU16/U32/U64 for n = 2, 4, 8). */
    method ReadBigEndian(n: nat) returns (r: Result<nat>)
      requires Valid()
      modifies reader`offset
      ensures Follows(r, BigEndianAt(Input(), old(Pos()), n))
    {
      var span := reader.Span();
      if |span| < n {
        var refill := RefillNoEof(n);
        match refill {
          case Err(e) => return Err(e);
          case Ok(rest) => span := rest;
        }
      }
      assert span[..n] == Input()[Pos()..Pos() + n];
      var result := FromBigEndian(span[..n]);
      reader.Advance(n);
      return Ok(result);
    }

    // ---------------------------------------------------- unsigned chain

    /** TryReadByte given the marker the caller has already consumed. */
    method TryReadByteAfter(b: byte) returns (r: Result<Attempt>)
      requires Valid() && 1 <= Pos() <= |Input()| && Input()[Pos() - 1] == b
      modifies reader`offset
      ensures Tried(r, ByteFormats, old(Pos()) - 1)
    {
      if b <= 0x7f {
        return Ok(Got(b));
      }
      if b == 0xcc {
        var e := EatByteOrThrow();
        if e.Err? {
          return Err(e.error);
        }
        return Ok(Got(e.value));
      }
      return Ok(Refused(b));
    }

    method TryReadByte() returns (r: Result<Attempt>)
      requires Valid()
      modifies reader`offset
      ensures Tried(r, ByteFormats, old(Pos()))
    {
      var b := EatByteOrThrow();
      if b.Err? {
        return Err(b.error);
      }
      r := TryReadByteAfter(b.value);
    }

    method TryReadU16() returns (r: Result<Attempt>)
      requires Valid()
      modifies reader`offset
      ensures Tried(r, U16Formats, old(Pos()))
    {
      r := TryReadByte();
      if r.Err? || r.value.Got? {
        IntAtWiden(Input(), old(Pos()), ByteFormats, U16Formats);
        return;
      }
      var m := r.value.marker;
      if m == 0xcd {
        var x := ReadBigEndian(2);
        if x.Err? {
          return Err(x.error);
        }
        return Ok(Got(x.value));
      }
    }

    method TryReadU32() returns (r: Result<Attempt>)
      requires Valid()
      modifies reader`offset
      ensures Tried(r, U32Formats, old(Pos()))
    {
      r := TryReadU16();
      if r.Err? || r.value.Got? {
        IntAtWiden(Input(), old(Pos()), U16Formats, U32Formats);
        return;
      }
      var m := r.value.marker;
      if m == 0xce {
        var x := ReadBigEndian(4);
        if x.Err? {
          return Err(x.error);
        }
        return Ok(Got(x.value));
      }
    }

    method TryReadU64() returns (r: Result<Attempt>)
      requires Valid()
      modifies reader`offset
      ensures Tried(r, U64Formats, old(Pos()))
    {
      r := TryReadU32();
      if r.Err? || r.value.Got? {
        IntAtWiden(Input(), old(Pos()), U32Formats, U64Formats);
        return;
      }
      var m := r.value.marker;
      if m == 0xcf {
        var x := ReadBigEndian(8);
        if x.Err? {
          return Err(x.error);
        }
        return Ok(Got(x.value));
      }
    }

    // ------------------------------------------------------ signed chain

    /** The marker read as `(sbyte)`; a refused marker is handed on through
        that cast and cast back with `(byte)`, which gives it back unchanged. */
    method TryReadSbyte() returns (r: Result<Attempt>)
      requires Valid()
      modifies reader`offset
      ensures Tried(r, SByteFormats, old(Pos()))
    {
      var first := EatByteOrThrow();
      if first.Err? {
        return Err(first.error);
      }
      var f := first.value;
      Pow256Values();
      if f <= 0x7f || f >= 0xe0 {
        return Ok(Got(ToSigned(f, 1)));
      }
      if f == 0xd0 {
        var b := EatByteOrThrow();
        if b.Err? {
          return Err(b.error);
        }
        return Ok(Got(ToSigned(b.value, 1)));
      }
      return Ok(Refused(f));
    }

    method TryReadI16() returns (r: Result<Attempt>)
      requires Valid()
      modifies reader`offset
      ensures Tried(r, I16Formats, old(Pos()))
    {
      r := TryReadSbyte();
      if r.Err? || r.value.Got? {
        IntAtWiden(Input(), old(Pos()), SByteFormats, I16Formats);
        return;
      }
      var m := r.value.marker;
      r := TryReadByteAfter(m);
      if r.Err? || r.value.Got? {
        IntAtWiden(Input(), old(Pos()), ByteFormats, I16Formats);
        return;
      }
      if m == 0xd1 {
        var x := ReadBigEndian(2);
        if x.Err? {
          return Err(x.error);
        }
        Pow256Values();
        return Ok(Got(ToSigned(x.value, 2)));
      }
    }

    method TryReadI32() returns (r: Result<Attempt>)
      requires Valid()
      modifies reader`offset
      ensures Tried(r, I32Formats, old(Pos()))
    {
      r := TryReadI16();
      if r.Err? || r.value.Got? {
        IntAtWiden(Input(), old(Pos()), I16Formats, I32Formats);
        return;
      }
      var m := r.value.marker;
      if m == 0xcd {
        var x := ReadBigEndian(2);
        if x.Err? {
          return Err(x.error);
        }
        return Ok(Got(x.value));
      }
      if m == 0xd2 {
        var x := ReadBigEndian(4);
        if x.Err? {
          return Err(x.error);
        }
        return Ok(Got(ToSigned(x.value, 4)));
      }
    }

    method TryReadI64() returns (r: Result<Attempt>)
      requires Valid()
      modifies reader`offset
      ensures Tried(r, I64Formats, old(Pos()))
    {
      r := TryReadI32();
      if r.Err? || r.value.Got? {
        IntAtWiden(Input(), old(Pos()), I32Formats, I64Formats);
        return;
      }
      var m := r.value.marker;
      if m == 0xce {
        var x := ReadBigEndian(4);
        if x.Err? {
          return Err(x.error);
        }
        return Ok(Got(x.value));
      }
      if m == 0xd3 {
        var x := ReadBigEndian(8);
        if x.Err? {
          return Err(x.error);
        }
        return Ok(Got(ToSigned(x.value, 8)));
      }
    }
  
    // ------------------------------------------------- IDeserializer reads

    /** The integer reads: each TryRead* chain, with a refused marker turned
        into an error naming it. ReadChar is `(char)ReadU16()`. */
    method ReadInt(kind: ReadKind) returns (r: Result<int>)
      requires Valid() && IsIntRead(kind)
      modifies reader`offset
      ensures Follows(r, IntAt(Input(), old(Pos()), FormatsOf(kind)))
    {
      var t: Result<Attempt>;
      if kind == ByteRead {
        t := TryReadByte();
      } else if kind == CharRead || kind == U16Read {
        t := TryReadU16();
      } else if kind == U32Read {
        t := TryReadU32();
      } else if kind == U64Read {
        t := TryReadU64();
      } else if kind == SByteRead {
        t := TryReadSbyte();
      } else if kind == I16Read {
        t := TryReadI16();
      } else if kind == I32Read {
        t := TryReadI32();
      } else {
        t := TryReadI64();
      }
      match t
      case Err(e) => r := Err(e);
      case Ok(Got(v)) => r := Ok(v);
      case Ok(Refused(m)) => r := Err(UnexpectedMarker(m));
    }

    /** The length prefix at the start of ReadUtf8Span. */
    method ReadStrLength() returns (r: Result<int>)
      requires Valid()
      modifies reader`offset
      ensures Follows(r, StrHeaderAt(Input(), old(Pos())))
    {
      var b := EatByteOrThrow();
      if b.Err? {
        return Err(b.error);
      }
      if b.value <= 0xbf {
        return Ok(b.value % 32);
      } else if b.value == 0xd9 {
        var l := EatByteOrThrow();
        if l.Err? {
          return Err(l.error);
        }
        return Ok(l.value);
      } else if b.value == 0xda {
        var l := ReadBigEndian(2);
        if l.Err? {
          return Err(l.error);
        }
        return Ok(l.value);
      } else if b.value == 0xdb {
        var l := ReadBigEndian(4);
        if l.Err? {
          return Err(l.error);
        }
        Pow256Values();
        return Ok(ToSigned(l.value, 4));
      }
      return Err(UnexpectedMarker(b.value));
    }

    /** A string's UTF-8 bytes: the header, then exactly that many bytes.
        A negative 32-bit length is refused before anything is skipped. */
    method ReadUtf8Span() returns (r: Result<seq<byte>>)
      requires Valid()
      modifies reader`offset
      ensures Follows(r, StrAt(Input(), old(Pos())))
    {
      var h := ReadStrLength();
      if h.Err? {
        return Err(h.error);
      }
      var length := h.value;
      if length < 0 {
        return Err(ArgumentOutOfRange);
      }
      var span := reader.Span();
      if |span| < length {
        var refill := RefillNoEof(length);
        match refill {
          case Err(e) => return Err(e);
          case Ok(rest) => span := rest;
        }
      }
      assert span[..length] == Input()[Pos()..Pos() + length];
      reader.Advance(length);
      return Ok(span[..length]);
    }

    /** The scalar reads of IDeserializer, by kind; decimal is not implemented. */
    method ReadScalar(kind: ReadKind) returns (r: Result<Item>)
      requires Valid()
      modifies reader`offset
      ensures Follows(r, ScalarAt(Input(), old(Pos()), kind))
    {
      if kind == BoolRead {
        var b := ReadBool();
        r := if b.Ok? then Ok(BoolItem(b.value)) else Err(b.error);
      } else if kind == StringRead {
        var s := ReadUtf8Span();
        r := if s.Ok? then Ok(StrItem(s.value)) else Err(s.error);
      } else if kind == DecimalRead {
        r := Err(NotImplemented);
      } else {
        var i := ReadInt(kind);
        r := if i.Ok? then Ok(IntItem(i.value)) else Err(i.error);
      }
    }

    /** Consumes a nil marker and reports null, or leaves any other byte for
        the value's own read. */
    method ReadNullableRef() returns (r: Result<bool>)
      requires Valid()
      modifies reader`offset
      ensures Follows(r, NilAt(Input(), old(Pos())))
    {
      var b := PeekByteOrThrow();
      if b.Err? {
        return Err(b.error);
      }
      if b.value == NilMarker {
        reader.Advance(1);
        return Ok(true);
      }
      return Ok(false);
    }

    /** The header of an array or a map, giving the seed of its cursor. The
        marker is consumed before the kind is looked at. */
    method ReadCollection(kind: InfoKind) returns (r: Result<CollectionSeed>)
      requires Valid()
      modifies reader`offset
      ensures Follows(r, CollectionAt(Input(), old(Pos()), kind))
    {
      var e := EatByteOrThrow();
      if e.Err? {
        return Err(e.error);
      }
      var b := e.value;
      Pow256Values();
      if kind == Enumerable {
        var length: int;
        if b <= 0x9f {
          length := b % 16;
        } else if b == 0xdc {
          var l := ReadBigEndian(2);
          if l.Err? {
            return Err(l.error);
          }
          length := l.value;
        } else if b == 0xdd {
          var l := ReadBigEndian(4);
          if l.Err? {
            return Err(l.error);
          }
          length := ToSigned(l.value, 4);
        } else {
          return Err(UnexpectedMarker(b));
        }
        return Ok(CollectionSeed(false, length));
      } else if kind == Dictionary {
        var length: int;
        if b <= 0x8f {
          length := b % 16;
        } else if b == 0xde {
          var l := ReadBigEndian(2);
          if l.Err? {
            return Err(l.error);
          }
          length := l.value;
        } else if b == 0xdf {
          var l := ReadBigEndian(4);
          if l.Err? {
            return Err(l.error);
          }
          length := ToSigned(l.value, 4);
        } else {
          return Err(UnexpectedMarker(b));
        }
        return Ok(CollectionSeed(true, WrapInt32(length * 2)));
      }
      return Err(UnexpectedKind);
    }

    /** The header of a custom type, which must announce FieldCount entries
        in the format chosen by FieldCount alone; an enum has no header. */
    method ReadType(info: TypeInfo) returns (r: Result<()>)
      requires Valid()
      modifies reader`offset
      ensures Follows(r, TypeAt(Input(), old(Pos()), info))
    {
      if info.kind == CustomType {
        var fieldCount := FieldCount(info);
        var e := EatByteOrThrow();
        if e.Err? {
          return Err(e.error);
        }
        var b := e.value;
        var length: int;
        if fieldCount <= 0xff {
          if b > 0x9f {
            return Err(UnexpectedMarker(b));
          }
          length := b % 16;
        } else if fieldCount <= 0xffff {
          if b != 0xdc {
            return Err(UnexpectedMarker(b));
          }
          var l := ReadBigEndian(2);
          if l.Err? {
            return Err(l.error);
          }
          length := l.value;
        } else {
          if b != 0xdd {
            return Err(UnexpectedMarker(b));
          }
          var l := ReadBigEndian(4);
          if l.Err? {
            return Err(l.error);
          }
          Pow256Values();
          length := ToSigned(l.value, 4);
        }
        if length != fieldCount {
          return Err(LengthMismatch(fieldCount, length));
        }
        return Ok(());
      } else if info.kind == Enum {
        return Ok(());
      }
      return Err(UnexpectedKind);
    }
}
}
