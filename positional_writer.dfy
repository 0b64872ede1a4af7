/** The older MessagePack writer (`Serialize*` API). Every write appends to the
    ScratchBuffer one byte at a time through `Add`; big-endian payloads are
    produced by shifting and truncating. Custom types are written as arrays of
    their field values in declaration order, after checking that no `Key`
    attribute names a different position. The writer is its own collection
    sink.

    Each write is proved to append exactly the bytes `Formats` and `Values`
    define for the positional layout. */
module PositionalWriter {
  import opened Bytes
  import opened Results
  import opened Formats
  import opened TypeInfos
  import opened Values
  import opened ScratchBuffers
  import opened Writes

  class MsgPackWriter {
    const out: ScratchBuffer

    constructor (outBuffer: ScratchBuffer)
      ensures out == outBuffer
    {
      out := outBuffer;
    }

    method SerializeBool(b: bool)
      requires out.Valid()
      modifies out, out.rented
      ensures Appended(out, BoolEncoding(b))
    {
      out.Add(if b then TrueMarker else FalseMarker);
    }

    method SerializeNull()
      requires out.Valid()
      modifies out, out.rented
      ensures Appended(out, [NilMarker])
    {
      out.Add(NilMarker);
    }

    /** The unsigned WriteBigEndian overloads (ushort, uint, ulong: width 2,
        4 and 8), whose unrolled bodies Add `(byte)(value >> 8k)` for k from
        width - 1 down to 0. */
    method WriteBigEndian(value: nat, width: nat)
      requires out.Valid() && value < Pow256(width)
      modifies out, out.rented
      ensures Appended(out, BigEndian(value, width))
    {
      ghost var s0 := out.Span();
      ghost var be := BigEndian(value, width);
      var k := width;
      while k > 0
        invariant 0 <= k <= width
        invariant out.Valid() && (out.rented == old(out.rented) || fresh(out.rented))
        invariant out.Span() == s0 + be[..width - k]
      {
        k := k - 1;
        var b := ShiftRightBytes(value, k) % 0x100;
        assert be[width - 1 - k] == b by { BigEndianByte(value, width, width - 1 - k); }
        out.Add(b);
        assert be[..width - k] == be[..width - k - 1] + [b];
      }
      assert be[..width] == be;
    }

    /** A format byte, then a one-byte payload, each through Add. */
    method WriteMarkedByte(marker: byte, b: byte)
      requires out.Valid()
      modifies out, out.rented
      ensures Appended(out, [marker, b])
    {
      out.Add(marker);
      out.Add(b);
    }

    /** A format byte through Add, then a width-byte big-endian payload. */
    method WriteMarkedBigEndian(marker: byte, value: nat, width: nat)
      requires out.Valid() && value < Pow256(width)
      modifies out, out.rented
      ensures Appended(out, [marker] + BigEndian(value, width))
    {
      out.Add(marker);
      WriteBigEndian(value, width);
    }

    /** The smallest unsigned format that holds v. */
    method SerializeU64(v: u64)
      requires out.Valid()
      modifies out, out.rented
      ensures Appended(out, UIntEncoding(v))
    {
      UIntEncodingTiers(v);
      if v <= 0x7f {
        out.Add(v);
      } else if v <= 0xff {
        WriteMarkedByte(0xcc, v);
      } else if v <= 0xffff {
        WriteMarkedBigEndian(0xcd, v, 2);
      } else if v <= 0xffff_ffff {
        WriteMarkedBigEndian(0xce, v, 4);
      } else {
        WriteMarkedBigEndian(0xcf, v, 8);
      }
    }

    /** Non-negative values go through SerializeU64; negative ones take the
        smallest signed format that holds them. The signed WriteBigEndian
        overloads cast to the unsigned type of the same width. */
    method SerializeI64(v: i64)
      requires out.Valid()
      modifies out, out.rented
      ensures Appended(out, IntEncoding(v))
    {
      if v >= 0 {
        SerializeU64(v);
        return;
      }
      IntEncodingTiers(v);
      Pow256Values();
      if v >= -32 {
        out.Add(0xe0 + (v + 32));
      } else if v >= -128 {
        WriteMarkedByte(0xd0, v + 0x100);  // (byte)v
      } else if v >= -32768 {
        WriteMarkedBigEndian(0xd1, ToUnsigned(v, 2), 2);
      } else if v >= -2147483648 {
        WriteMarkedBigEndian(0xd2, ToUnsigned(v, 4), 4);
      } else {
        WriteMarkedBigEndian(0xd3, ToUnsigned(v, 8), 8);
      }
    }

    /** The str header for the UTF-8 length, then the bytes one by one. */
    method SerializeString(s: Str)
      requires out.Valid()
      modifies out, out.rented
      ensures Appended(out, StrEncoding(s.utf8))
    {
      WriteStrHeader(|s.utf8|);
      AddEach(s.utf8);
    }

    /** Add every byte of `bytes` in turn, as the `foreach` over the encoded
        string does. */
    method AddEach(bytes: seq<byte>)
      requires out.Valid()
      modifies out, out.rented
      ensures Appended(out, bytes)
    {
      var i := 0;
      while i < |bytes|
        invariant 0 <= i <= |bytes|
        invariant out.Valid() && (out.rented == old(out.rented) || fresh(out.rented))
        invariant out.Span() == old(out.Span()) + bytes[..i]
      {
        out.Add(bytes[i]);
        assert bytes[..i + 1] == bytes[..i] + [bytes[i]];
        i := i + 1;
      }
      assert bytes[..i] == bytes;
    }

    /** The str header SerializeString writes for a UTF-8 length: fixstr up
        to 31, then str8, str16 or str32. */
    method WriteStrHeader(length: len32)
      requires out.Valid()
      modifies out, out.rented
      ensures Appended(out, Header(StrFamily, length))
    {
      Pow256Values();
      if length <= 31 {
        out.Add(0xa0 + length);
      } else if length <= 0xff {
        WriteMarkedByte(0xd9, length);
      } else if length <= 0xffff {
        WriteMarkedBigEndian(0xda, length, 2);
      } else {
        WriteMarkedBigEndian(0xdb, length, 4);
      }
    }

    /** The array header SerializeCollection and SerializeType write:
        fixarray up to 15, then array16 or array32. */
    method WriteArrayHeader(length: len32)
      requires out.Valid()
      modifies out, out.rented
      ensures Appended(out, Header(ArrayFamily, length))
    {
      Pow256Values();
      if length <= 15 {
        out.Add(0x90 + length);
      } else if length <= 0xffff {
        WriteMarkedBigEndian(0xdc, length, 2);
      } else {
        WriteMarkedBigEndian(0xdd, length, 4);
      }
    }

    /** The map header SerializeCollection writes for a dictionary: fixmap up
        to 15, then map16 or map32. */
    method WriteMapHeader(length: len32)
      requires out.Valid()
      modifies out, out.rented
      ensures Appended(out, Header(MapFamily, length))
    {
      Pow256Values();
      if length <= 15 {
        out.Add(0x80 + length);
      } else if length <= 0xffff {
        WriteMarkedBigEndian(0xde, length, 2);
      } else {
        WriteMarkedBigEndian(0xdf, length, 4);
      }
    }

    method SerializeDecimal() returns (r: Result<()>)
      requires out.Valid()
      ensures r == Err(NotImplemented) && Appended(out, [])
    {
      r := Err(NotImplemented);
    }

    /** Dispatch of the scalar writes; bytes, characters and the unsigned
        widths go through SerializeU64, the signed widths through SerializeI64. */
    method SerializeScalar(s: Scalar) returns (r: Result<()>)
      requires out.Valid()
      modifies out, out.rented
      ensures Emitted(out, r, ScalarEncoding(s))
    {
      r := Ok(());
      match s
      case SBool(b) => SerializeBool(b);
      case SChar(c) => SerializeU64(c);
      case SByte(b) => SerializeU64(b);
      case SU16(x) => SerializeU64(x);
      case SU32(x) => SerializeU64(x);
      case SU64(x) => SerializeU64(x);
      case SSByte(x) => SerializeI64(x);
      case SI16(x) => SerializeI64(x);
      case SI32(x) => SerializeI64(x);
      case SI64(x) => SerializeI64(x);
      case SString(t) => SerializeString(t);
      case SNull => SerializeNull();
      case SDecimal => r := SerializeDecimal();
    }

    /** Open a collection: an array header for a sequence, a map header for
        a dictionary. An unknown length or any other kind is refused before
        anything is written. The writer itself is the element sink. */
    method SerializeCollection(info: TypeInfo, length: Length) returns (r: Result<()>)
      requires out.Valid()
      modifies out, out.rented
      ensures Emitted(out, r, CollectionHeader(info, length))
      ensures r.Err? ==> Appended(out, [])
    {
      if length.None? {
        return Err(InvalidOperation);
      }
      if info.kind == Enumerable {
        WriteArrayHeader(length.value);
      } else if info.kind == Dictionary {
        WriteMapHeader(length.value);
      } else {
        return Err(InvalidOperation);
      }
      r := Ok(());
    }

    /** Open a custom type: refuse it when a field's Key attribute names
        another position, before writing anything; otherwise an array header
        of FieldCount entries. The writer itself is the field sink. */
    method SerializeType(info: TypeInfo) returns (r: Result<()>)
      requires out.Valid()
      modifies out, out.rented
      ensures r.Ok? <==> KeysInDeclarationOrder(info)
      ensures r.Ok? ==> Appended(out, Header(ArrayFamily, FieldCount(info)))
      ensures r.Err? ==> r.error == InvalidOperation && Appended(out, [])
    {
      var i := 0;
      while i < FieldCount(info)
        invariant 0 <= i <= FieldCount(info)
        invariant forall j, a :: 0 <= j < i && a in info.fields[j].attributes ==> !MisplacedKey(a, j)
      {
        var attrs := info.fields[i].attributes;
        var k := 0;
        while k < |attrs|
          invariant 0 <= k <= |attrs|
          invariant forall m :: 0 <= m < k ==> !MisplacedKey(attrs[m], i)
        {
          var attr := attrs[k];
          if attr.typeName == KeyAttributeName {
            if |attr.args| == 1 && attr.args[0].IntArg? && attr.args[0].value != i {
              assert MisplacedKey(attr, i);
              return Err(InvalidOperation);
            }
          }
          k := k + 1;
        }
        i := i + 1;
      }
      WriteArrayHeader(FieldCount(info));
      r := Ok(());
    }

    /** Nothing: collections are length-prefixed. */
    method End(info: TypeInfo)
      requires out.Valid()
      ensures Appended(out, [])
    {
    }

    /** An element of a collection, serialized into this same writer. */
    method SerializeElement(v: Value) returns (r: Result<()>)
      requires out.Valid() && HasNoBlob(v)
      modifies out, out.rented
      decreases v, 3
      ensures Emitted(out, r, Encoding(Positional, v))
    {
      r := SerializeValue(v);
    }

    /** An enum value: its underlying value, serialized into this writer. */
    method SerializeEnumValue(info: TypeInfo, index: int, v: Value) returns (r: Result<()>)
      requires out.Valid() && HasNoBlob(v)
      modifies out, out.rented
      decreases v, 3
      ensures Emitted(out, r, Encoding(Positional, v))
    {
      r := SerializeValue(v);
    }

    /** One member of a type: an enum's underlying value goes through
        SerializeEnumValue, a custom type's field is its bare value. */
    method SerializeMember(info: TypeInfo, m: Member) returns (r: Result<()>)
      requires out.Valid() && HasNoBlob(m.value)
      modifies out, out.rented
      decreases m.value, 4
      ensures Emitted(out, r, MemberEncoding(Positional, info, m))
    {
      if info.kind == Enum {
        r := SerializeEnumValue(info, m.index, m.value);
      } else {
        r := SerializeValue(m.value);
      }
    }

    /** A value written through its proxy: the calls the generated code makes
        on this writer, in order. */
    method SerializeValue(v: Value) returns (r: Result<()>)
      requires out.Valid() && HasNoBlob(v)
      modifies out, out.rented
      decreases v, 2
      ensures Emitted(out, r, Encoding(Positional, v))
    {
      match v
      case Prim(s) =>
        r := SerializeScalar(s);
      case Bin(_) =>
        assert false;
      case Collection(_, _, _) =>
        r := SerializeCollectionValue(v);
      case Typed(_, _) =>
        r := SerializeTypeValue(v);
    }

    /** A collection: SerializeCollection, then each element, stopping at the
        first element that fails, then End. */
    method SerializeCollectionValue(v: Value) returns (r: Result<()>)
      requires out.Valid() && HasNoBlob(v) && v.Collection?
      modifies out, out.rented
      decreases v, 1
      ensures Emitted(out, r, Encoding(Positional, v))
    {
      var Collection(info, length, es) := v;
      ghost var s0 := out.Span();
      var c := SerializeCollection(info, length);
      if c.Err? {
        return c;
      }
      ghost var acc := CollectionHeader(info, length).value;
      assert es[..0] == [] && acc + [] == acc;
      var i := 0;
      while i < |es|
        invariant 0 <= i <= |es|
        invariant out.Valid()
        invariant out.rented == old(out.rented) || fresh(out.rented)
        invariant Then(CollectionHeader(info, length), Elements(Positional, es[..i])) == Ok(acc)
        invariant out.Span() == s0 + acc
      {
        var e := SerializeElement(es[i]);
        acc := ElementWritten(Positional, es, i, CollectionHeader(info, length), acc, s0, out.Span(), e);
        if e.Err? {
          return e;
        }
        i := i + 1;
      }
      assert es[..i] == es;
      End(info);
      r := Ok(());
    }

    /** A custom type or an enum: a custom type opens with SerializeType and
        then writes its fields in order; an enum writes its underlying value
        through SerializeEnumValue, with no header. */
    method SerializeTypeValue(v: Value) returns (r: Result<()>)
      requires out.Valid() && HasNoBlob(v) && v.Typed?
      modifies out, out.rented
      decreases v, 1
      ensures Emitted(out, r, Encoding(Positional, v))
    {
      ghost var s0 := out.Span();
      if v.info.kind != Enum {
        var t := SerializeType(v.info);
        if t.Err? {
          return t;
        }
      }
      r := SerializeMembers(v, s0, TypeHeader(Positional, v.info));
    }

    /** The members of a custom type or an enum, in order, stopping at the
        first that fails. `s0` is what the buffer held before the header `head`. */
    method SerializeMembers(v: Value, ghost s0: seq<byte>, ghost head: Result<seq<byte>>)
      returns (r: Result<()>)
      requires out.Valid() && HasNoBlob(v) && v.Typed?
      requires head.Ok? && out.Span() == s0 + head.value
      modifies out, out.rented
      decreases v, 0
      ensures out.Valid()
      ensures out.rented == old(out.rented) || fresh(out.rented)
      ensures Wrote(s0, out.Span(), r, Then(head, Members(Positional, v.info, v.members)))
    {
      var Typed(info, ms) := v;
      ghost var acc := head.value;
      assert ms[..0] == [] && acc + [] == acc;
      var i := 0;
      while i < |ms|
        invariant 0 <= i <= |ms|
        invariant out.Valid()
        invariant out.rented == old(out.rented) || fresh(out.rented)
        invariant Then(head, Members(Positional, info, ms[..i])) == Ok(acc)
        invariant out.Span() == s0 + acc
      {
        assert ms[i].value < v;
        var e := SerializeMember(info, ms[i]);
        acc := MemberWritten(Positional, info, ms, i, head, acc, s0, out.Span(), e);
        if e.Err? {
          return e;
        }
        i := i + 1;
      }
      assert ms[..i] == ms;
      r := Ok(());
    }
  }
}
