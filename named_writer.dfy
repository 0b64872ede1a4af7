/** The newer MessagePack writer (`Write*` API). Every write appends to the
    ScratchBuffer it was built over, either byte by byte through `Add` or by
    reserving room with `GetAppendSpan`, storing into the rented array and
    advancing `Count`. Custom types are written as maps from field name to
    value; a collection's elements and an enum's underlying integer are
    written through two small sinks, `SerCollection` and `EnumSerializer`,
    that forward to the writer.

    Each write is proved to append exactly the bytes `Formats` and `Values`
    define, so that the reader's round-trip lemmas apply to what it emits. */
module Writer {
  import opened Bytes
  import opened Results
  import opened Formats
  import opened TypeInfos
  import opened Values
  import opened ScratchBuffers
  import opened Writes

  /** BinaryPrimitives.WriteUInt{16,32,64}BigEndian: store the width-byte
      big-endian form of value at span[at..], touching nothing else. */
  method StoreBigEndian(span: array<byte>, at: nat, value: nat, width: nat)
    requires value < Pow256(width) && at + width <= span.Length
    modifies span
    ensures span[..] == Splice(old(span[..]), at, BigEndian(value, width))
  {
    StoreBytes(span, at, BigEndian(value, width));
  }

  /** Store bytes at span[at..] (a span CopyTo), touching nothing else. */
  method StoreBytes(span: array<byte>, at: nat, bytes: seq<byte>)
    requires at + |bytes| <= span.Length
    modifies span
    ensures span[..] == Splice(old(span[..]), at, bytes)
  {
    forall i | 0 <= i < |bytes| {
      span[at + i] := bytes[i];
    }
    assert span[..] == Splice(old(span[..]), at, bytes) by {
      var r := Splice(old(span[..]), at, bytes);
      forall j | 0 <= j < span.Length
        ensures span[j] == r[j]
      {
        if j < at {
          assert r[j] == r[..at][j];
        } else if j < at + |bytes| {
          assert r[j] == r[at..at + |bytes|][j - at];
        } else {
          assert r[j] == r[at + |bytes|..][j - at - |bytes|];
        }
      }
    }
  }

  /** The room WriteString reserves for a string of the given UTF-16 length:
      the longest UTF-8 encoding it can have plus the longest str header. */
  function Reservation(utf16Length: nat): nat
  {
    MaxByteCount(utf16Length) + 5
  }

  /** The header size WriteString guesses from the UTF-16 length before the
      string is encoded: the str header it would need if every code unit took
      one byte. */
  function EstimatedOffset(utf16Length: nat): (r: nat)
    ensures utf16Length < 0x8000_0000 ==> r == |Header(StrFamily, utf16Length)|
  {
    if utf16Length <= 31 then 1
    else if utf16Length <= 255 then 2
    else if utf16Length <= 65535 then 3
    else 5
  }

  /** The estimate never exceeds the header the encoded string needs, since a
      string has at least as many UTF-8 bytes as UTF-16 code units. So
      WriteString's branch that moves the body towards the header is dead.
      And a larger header is only needed for a body longer than the gap. */
  lemma EstimateNeverExceeds(s: Str)
    ensures EstimatedOffset(s.utf16Length) <= |Header(StrFamily, |s.utf8|)|
    ensures |Header(StrFamily, |s.utf8|)| <= EstimatedOffset(s.utf16Length) + |s.utf8|
  {
  }

  /** The bytes WriteString, as written, appends for s when the `stale` bytes
      were lying in the reserved region: the body is encoded after the
      estimated header and the actual header is stored over the region's
      start, so header size plus body size bytes are committed: the header,
      the body without its first (actual - estimated) bytes, and as many
      stale bytes from behind the body. */
  function StringAsWritten(s: Str, stale: seq<byte>): (r: seq<byte>)
    requires |stale| == Reservation(s.utf16Length)
    ensures |r| == |StrEncoding(s.utf8)|
  {
    EstimateNeverExceeds(s);
    ShiftedBody(Header(StrFamily, |s.utf8|), EstimatedOffset(s.utf16Length), s.utf8, stale)
  }

  /** The two stores WriteString, as written, makes into a buffer `a` at
      `start` amount to storing StringAsWritten of what the reserved region
      held: nothing outside the committed bytes changes. */
  lemma StringAsWrittenInPlace(a: seq<byte>, start: nat, s: Str)
    requires start + Reservation(s.utf16Length) <= |a|
    ensures Splice(Splice(a, start + EstimatedOffset(s.utf16Length), s.utf8), start, Header(StrFamily, |s.utf8|))
         == Splice(a, start, StringAsWritten(s, a[start..start + Reservation(s.utf16Length)]))
  {
    EstimateNeverExceeds(s);
    SpliceShiftedBody(a, start, Reservation(s.utf16Length), EstimatedOffset(s.utf16Length), s.utf8, Header(StrFamily, |s.utf8|));
  }

  /** When the guessed and the actual header have the same size, WriteString
      appends exactly the str encoding, whatever was in the buffer. */
  lemma SameTierStringIsExact(s: Str, stale: seq<byte>)
    requires |stale| == Reservation(s.utf16Length)
    requires EstimatedOffset(s.utf16Length) == |Header(StrFamily, |s.utf8|)|
    ensures StringAsWritten(s, stale) == StrEncoding(s.utf8)
  {
    var n := |s.utf8|;
    var h := Header(StrFamily, n);
    assert s.utf8[|h| - |h|..] == s.utf8;
    assert stale[|h| + n..|h| + n] == [];
  }

  /** A 31-code-unit string whose first character takes two UTF-8 bytes is
      32 bytes long: the 2-byte str8 header overwrites the first body byte,
      so the output differs from the str encoding at index 2. */
  lemma TierCrossingStringCounterexample(stale: seq<byte>)
    requires |stale| == Reservation(31)
    ensures var s: Str := Text(31, [0xc3, 0xa9] + seq(30, _ => 0x41));
      StringAsWritten(s, stale)[2] == 0xa9 && StrEncoding(s.utf8)[2] == 0xc3
  {
    var s: Str := Text(31, [0xc3, 0xa9] + seq(30, _ => 0x41));
    assert |s.utf8| == 32;
    assert Header(StrFamily, 32) == [0xd9, 32];
    assert StringAsWritten(s, stale)[2] == s.utf8[1..][0];
  }

  /** How many bytes WriteBytes, as written, commits for an n-byte blob: the
      reserved prefix and payload, and then for a 16- or 32-bit length the
      length field again, appended after the payload. */
  function BinAsWrittenSize(n: len32): nat
  {
    if n <= 0xff then 2 + n
    else if n <= 0xffff then 3 + n + 2
    else 5 + n + 4
  }

  /** For a blob longer than 255 bytes WriteBytes commits more bytes than its
      bin encoding has: 256 bytes come out as 261 instead of 259. */
  lemma LongBlobIsOverlong(n: len32)
    requires n > 0xff
    ensures BinAsWrittenSize(n) > n + |Header(BinFamily, n)|
    ensures n == 256 ==> BinAsWrittenSize(n) == 261 && n + |Header(BinFamily, n)| == 259
  {
  }

  /** What WriteType hands back: the writer itself as the field sink of a
      custom type, or the enum sink. */
  datatype TypeSink = FieldSink | EnumSink(serializer: EnumSerializer)

  class MsgPackWriter {
    const out: ScratchBuffer
    var enumSerializer: EnumSerializer?

    ghost predicate Valid()
      reads this, out
    {
      out.Valid() && enumSerializer != null && enumSerializer.writer == this
    }

    constructor (scratch: ScratchBuffer)
      requires scratch.Valid()
      ensures out == scratch && Valid() && fresh(enumSerializer)
    {
      out := scratch;
      new;
      enumSerializer := new EnumSerializer(this);
    }

    method WriteBool(b: bool)
      requires out.Valid()
      modifies out, out.rented
      ensures Appended(out, BoolEncoding(b))
    {
      out.Add(if b then TrueMarker else FalseMarker);
    }

    method WriteNull()
      requires out.Valid()
      modifies out, out.rented
      ensures Appended(out, [NilMarker])
    {
      out.Add(NilMarker);
    }

    /** The integer WriteBigEndian overloads: reserve width bytes, store the
        value big-endian, commit them. */
    method WriteBigEndian(value: nat, width: nat)
      requires out.Valid() && value < Pow256(width)
      modifies out, out.rented
      ensures Appended(out, BigEndian(value, width))
    {
      var start := out.GetAppendSpan(width);
      if width > 0 {
        StoreBigEndian(out.rented, start, value, width);
        var ok := out.SetCount(out.count + width);
      }
    }

    /** A format byte followed by a one-byte payload, each through Add. */
    method WriteMarkedByte(marker: byte, b: byte)
      requires out.Valid()
      modifies out, out.rented
      ensures Appended(out, [marker, b])
    {
      out.Add(marker);
      out.Add(b);
    }

    /** A format byte through Add, then a width-byte big-endian payload. */
    method WriteMarkedBigEndian(marker: byte, value: nat, width: nat)
      requires out.Valid() && value < Pow256(width)
      modifies out, out.rented
      ensures Appended(out, [marker] + BigEndian(value, width))
    {
      out.Add(marker);
      WriteBigEndian(value, width);
    }

    /** The smallest unsigned format that holds v. */
    method WriteU64(v: u64)
      requires out.Valid()
      modifies out, out.rented
      ensures Appended(out, UIntEncoding(v))
    {
      UIntEncodingTiers(v);
      if v <= 0x7f {
        out.Add(v);
      } else if v <= 0xff {
        WriteMarkedByte(0xcc, v);
      } else if v <= 0xffff {
        WriteMarkedBigEndian(0xcd, v, 2);
      } else if v <= 0xffff_ffff {
        WriteMarkedBigEndian(0xce, v, 4);
      } else {
        WriteMarkedBigEndian(0xcf, v, 8);
      }
    }

    method WriteU8(b: byte)
      requires out.Valid()
      modifies out, out.rented
      ensures Appended(out, UIntEncoding(b))
    {
      WriteU64(b);
    }

    method WriteChar(c: u16)
      requires out.Valid()
      modifies out, out.rented
      ensures Appended(out, UIntEncoding(c))
    {
      WriteU64(c);
    }

    method WriteU16(v: u16)
      requires out.Valid()
      modifies out, out.rented
      ensures Appended(out, UIntEncoding(v))
    {
      WriteU64(v);
    }

    method WriteU32(v: u32)
      requires out.Valid()
      modifies out, out.rented
      ensures Appended(out, UIntEncoding(v))
    {
      WriteU64(v);
    }

    /** Non-negative values go through WriteU64; negative ones take the
        smallest signed format that holds them. */
    method WriteI64(v: i64)
      requires out.Valid()
      modifies out, out.rented
      ensures Appended(out, IntEncoding(v))
    {
      if v >= 0 {
        WriteU64(v);
        return;
      }
      IntEncodingTiers(v);
      if v >= -32 {
        out.Add(0xe0 + (v + 32));
      } else if v >= -128 {
        WriteMarkedByte(0xd0, v + 0x100);  // (byte)v
      } else if v >= -32768 {
        WriteMarkedBigEndian(0xd1, ToUnsigned(v, 2), 2);
      } else if v >= -2147483648 {
        WriteMarkedBigEndian(0xd2, ToUnsigned(v, 4), 4);
      } else {
        WriteMarkedBigEndian(0xd3, ToUnsigned(v, 8), 8);
      }
    }

    method WriteI8(v: i8)
      requires out.Valid()
      modifies out, out.rented
      ensures Appended(out, IntEncoding(v))
    {
      WriteI64(v);
    }

    method WriteI16(v: i16)
      requires out.Valid()
      modifies out, out.rented
      ensures Appended(out, IntEncoding(v))
    {
      WriteI64(v);
    }

    method WriteI32(v: i32)
      requires out.Valid()
      modifies out, out.rented
      ensures Appended(out, IntEncoding(v))
    {
      WriteI64(v);
    }

    method WriteDecimal() returns (r: Result<()>)
      requires out.Valid()
      ensures r == Err(NotImplemented) && Appended(out, [])
    {
      r := Err(NotImplemented);
    }

    /** A map header: fixmap, map16 or map32, whichever is smallest. */
    method WriteMapLength(length: len32)
      requires out.Valid()
      modifies out, out.rented
      ensures Appended(out, Header(MapFamily, length))
    {
      Pow256Values();
      if length <= 15 {
        out.Add(0x80 + length);
      } else if length <= 0xffff {
        WriteMarkedBigEndian(0xde, length, 2);
      } else {
        WriteMarkedBigEndian(0xdf, length, 4);
      }
    }

    /** Open a collection: an array header for a list, a map header for a
        dictionary, and the element sink. Nothing is written when the length
        is unknown or the kind is not a collection. */
    method WriteCollection(info: TypeInfo, length: Length) returns (r: Result<SerCollection>)
      requires out.Valid()
      modifies out, out.rented
      ensures r.Ok? <==> CollectionHeader(info, length).Ok?
      ensures r.Ok? ==> Appended(out, CollectionHeader(info, length).value)
      ensures r.Ok? ==> fresh(r.value) && r.value.writer == this
      ensures r.Err? ==> r.error == CollectionHeader(info, length).error && Appended(out, [])
    {
      if length.None? {
        return Err(InvalidOperation);
      }
      var n := length.value;
      if info.kind == Enumerable {
        Pow256Values();
        if n <= 15 {
          out.Add(0x90 + n);
        } else if n <= 0xffff {
          WriteMarkedBigEndian(0xdc, n, 2);
        } else {
          WriteMarkedBigEndian(0xdd, n, 4);
        }
      } else if info.kind == Dictionary {
        WriteMapLength(n);
      } else {
        return Err(InvalidOperation);
      }
      var sink := new SerCollection(this);
      r := Ok(sink);
    }

    /** Open a type: a custom type gets a map header of FieldCount entries and
        the writer itself as field sink; an enum gets the enum sink and no
        header; any other kind is refused. */
    method WriteType(info: TypeInfo) returns (r: Result<TypeSink>)
      requires Valid()
      modifies out, out.rented
      ensures Valid()
      ensures r.Ok? <==> TypeHeader(Named, info).Ok?
      ensures r.Ok? ==> Appended(out, TypeHeader(Named, info).value)
      ensures r.Ok? ==> (r.value.EnumSink? <==> info.kind == Enum)
      ensures r.Ok? && r.value.EnumSink? ==> r.value.serializer == enumSerializer
      ensures r.Err? ==> r.error == InvalidOperation && Appended(out, [])
    {
      if info.kind == CustomType {
        WriteMapLength(FieldCount(info));
        return Ok(FieldSink);
      } else if info.kind == Enum {
        return Ok(EnumSink(enumSerializer));
      }
      r := Err(InvalidOperation);
    }

    /** The str header for a length, written at span[at..]; returns its size. */
    static method WriteUtf8Header(length: len32, span: array<byte>, at: nat) returns (offset: nat)
      requires at + |Header(StrFamily, length)| <= span.Length
      modifies span
      ensures offset == |Header(StrFamily, length)|
      ensures span[..] == Splice(old(span[..]), at, Header(StrFamily, length))
    {
      Pow256Values();
      ghost var a0 := span[..];
      if length <= 31 {
        offset := 1;
        StoreBytes(span, at, [0xa0 + length]);
        assert Header(StrFamily, length) == [0xa0 + length];
      } else if length <= 0xff {
        offset := 2;
        StoreBytes(span, at, [0xd9, length]);
        assert Header(StrFamily, length) == [0xd9, length];
      } else if length <= 0xffff {
        offset := 3;
        StoreBytes(span, at, [0xda]);
        StoreBigEndian(span, at + 1, length, 2);
        SpliceAdjacent(a0, at, [0xda], BigEndian(length, 2));
        assert Header(StrFamily, length) == [0xda] + BigEndian(length, 2);
      } else {
        offset := 5;
        StoreBytes(span, at, [0xdb]);
        StoreBigEndian(span, at + 1, length, 4);
        SpliceAdjacent(a0, at, [0xdb], BigEndian(length, 4));
        assert Header(StrFamily, length) == [0xdb] + BigEndian(length, 4);
      }
    }

    /** An already-encoded string: header, then the bytes. */
    method WriteUtf8(str: Name)
      requires out.Valid()
      modifies out, out.rented
      ensures Appended(out, StrEncoding(str))
    {
      var start := out.GetAppendSpan(|str| + 5);
      ghost var a0 := out.rented[..];
      var offset := WriteUtf8Header(|str|, out.rented, start);
      StoreBytes(out.rented, start + offset, str);
      SpliceAdjacent(a0, start, Header(StrFamily, |str|), str);
      var ok := out.SetCount(out.count + offset + |str|);
    }

    /** The body stores of the corrected WriteString: the encoded body at
        `start + estimated`, then moved to `start + actual` when the header it
        needs has another size. */
    static method StoreMovedBody(span: array<byte>, start: nat, estimated: nat, actual: nat, body: seq<byte>)
      requires start + estimated + |body| <= span.Length && start + actual + |body| <= span.Length
      modifies span
      ensures span[..] == Splice(Splice(old(span[..]), start + estimated, body), start + actual, body)
    {
      ghost var a0 := span[..];
      StoreBytes(span, start + estimated, body);
      ghost var a1 := span[..];
      if actual != estimated {
        assert a1[start + estimated..start + estimated + |body|] == body;
        MoveBytes(span, start + estimated, start + actual, |body|);
      } else {
        SpliceOver(a0, start + estimated, body, body);
      }
    }

    /** `CopyTo` from span[from..from + n] to span[to..to + n]. */
    static method MoveBytes(span: array<byte>, from: nat, to: nat, n: nat)
      requires from + n <= span.Length && to + n <= span.Length
      modifies span
      ensures span[..] == Splice(old(span[..]), to, old(span[..])[from..from + n])
    {
      var body := span[from..from + n];
      assert body == span[..][from..from + n];
      StoreBytes(span, to, body);
    }

    /** WriteString's work inside the reserved region, corrected: encode the
        body after the estimated header, move it to follow the header it
        actually needs, then write that header. The region ends up holding
        exactly the str encoding. */
    static method PlaceString(span: array<byte>, start: nat, s: Str) returns (size: nat)
      requires start + Reservation(s.utf16Length) <= span.Length
      modifies span
      ensures size == |StrEncoding(s.utf8)|
      ensures span[..] == Splice(old(span[..]), start, StrEncoding(s.utf8))
    {
      ghost var a0 := span[..];
      var body := s.utf8;
      ghost var header := Header(StrFamily, |body|);
      var estimatedOffset := EstimatedOffset(s.utf16Length);
      var actualOffset := 1 + LenFieldSize(LenFormatFor(StrFamily, |body|));
      assert estimatedOffset <= actualOffset == |header| && start + actualOffset + |body| <= span.Length by {
        EstimateNeverExceeds(s);
      }
      StoreMovedBody(span, start, estimatedOffset, actualOffset, body);
      ghost var a2 := span[..];
      var offset := WriteUtf8Header(|body|, span, start);
      SpliceMovedBehind(a0, a2, start, estimatedOffset, header, body);
      size := offset + |body|;
    }

    /** WriteString with the header placement corrected: the body is moved to
        follow the header it actually needs before that header is written. */
    method WriteString(s: Str)
      requires out.Valid()
      modifies out, out.rented
      ensures Appended(out, StrEncoding(s.utf8))
    {
      var start := out.GetAppendSpan(Reservation(s.utf16Length));
      var size := PlaceString(out.rented, start, s);
      var ok := out.SetCount(out.count + size);
    }

    /** The two stores WriteString, as written, makes at `start`: the body
        after the header guessed from the UTF-16 length, then the header sized
        from the UTF-8 length over the region's start. The body is never moved
        forward. Returns the size of the header. */
    static method StoreStringAsWritten(span: array<byte>, start: nat, s: Str) returns (actualOffset: nat)
      requires start + Reservation(s.utf16Length) <= span.Length
      modifies span
      ensures actualOffset == |Header(StrFamily, |s.utf8|)|
      ensures span[..] == Splice(Splice(old(span[..]), start + EstimatedOffset(s.utf16Length), s.utf8),
                                 start, Header(StrFamily, |s.utf8|))
    {
      var estimatedOffset := EstimatedOffset(s.utf16Length);
      EstimateNeverExceeds(s);
      assert estimatedOffset <= |Header(StrFamily, |s.utf8|)| <= Reservation(s.utf16Length);
      StoreBytes(span, start + estimatedOffset, s.utf8);
      actualOffset := WriteUtf8Header(|s.utf8|, span, start);
      if actualOffset < estimatedOffset {
        // the body would be moved towards the header; never taken
        assert false;
      }
    }

    /** WriteString's work inside the reserved region as the source has it:
        the reserved region ends up holding StringAsWritten of what it held
        before. */
    static method PlaceStringAsWritten(span: array<byte>, start: nat, s: Str)
      returns (size: nat, ghost stale: seq<byte>)
      requires start + Reservation(s.utf16Length) <= span.Length
      modifies span
      ensures |stale| == Reservation(s.utf16Length)
      ensures size == |StringAsWritten(s, stale)| <= Reservation(s.utf16Length)
      ensures stale == old(span[start..start + Reservation(s.utf16Length)])
      ensures span[..] == Splice(old(span[..]), start, StringAsWritten(s, stale))
    {
      ghost var a0 := span[..];
      stale := a0[start..start + Reservation(s.utf16Length)];
      var actualOffset := StoreStringAsWritten(span, start, s);
      size := actualOffset + |s.utf8|;
      StringAsWrittenInPlace(a0, start, s);
    }

    /** WriteString as the source has it. `stale` is what the reserved region
        held beforehand. */
    method WriteStringAsWritten(s: Str) returns (ghost stale: seq<byte>)
      requires out.Valid()
      modifies out, out.rented
      ensures |stale| == Reservation(s.utf16Length)
      ensures Appended(out, StringAsWritten(s, stale))
    {
      var start := out.GetAppendSpan(Reservation(s.utf16Length));
      var size;
      size, stale := PlaceStringAsWritten(out.rented, start, s);
      var ok := out.SetCount(out.count + size);
    }

    /** The bin format byte and prefix length WriteBytes picks for n bytes. */
    static function BinCode(n: len32): (r: (byte, nat))
      ensures [r.0] == Header(BinFamily, n)[..1] && r.1 == |Header(BinFamily, n)|
    {
      Pow256Values();
      var code: byte := if n <= 0xff then 0xc4 else if n <= 0xffff then 0xc5 else 0xc6;
      var prefixLen := if code == 0xc4 then 2 else if code == 0xc5 then 3 else 5;
      (code, prefixLen)
    }

    /** WriteBytes's stores into the reserved region, with the length field
        stored in the prefix: the region ends up holding the bin encoding. */
    static method PlaceBin(span: array<byte>, start: nat, data: Blob)
      requires start + |BinEncoding(data)| <= span.Length
      modifies span
      ensures span[..] == Splice(old(span[..]), start, BinEncoding(data))
    {
      Pow256Values();
      ghost var a0 := span[..];
      var n := |data|;
      var (code, prefixLen) := BinCode(n);
      StoreBytes(span, start, [code]);
      ghost var field: seq<byte>;
      if prefixLen == 2 {
        field := [n as byte];
        StoreBytes(span, start + 1, [n as byte]);
      } else if prefixLen == 3 {
        field := BigEndian(n, 2);
        StoreBigEndian(span, start + 1, n, 2);
      } else {
        field := BigEndian(n, 4);
        StoreBigEndian(span, start + 1, n, 4);
      }
      SpliceAdjacent(a0, start, [code], field);
      assert [code] + field == Header(BinFamily, n);
      StoreBytes(span, start + prefixLen, data);
      SpliceAdjacent(a0, start, Header(BinFamily, n), data);
    }

    /** WriteBytes with the length field corrected: it is stored in the
        reserved prefix, right after the format byte. */
    method WriteBytes(data: Blob)
      requires out.Valid()
      modifies out, out.rented
      ensures Appended(out, BinEncoding(data))
    {
      var (code, prefixLen) := BinCode(|data|);
      var start := out.GetAppendSpan(prefixLen + |data|);
      var ok := out.SetCount(out.count + prefixLen + |data|);
      PlaceBin(out.rented, start, data);
    }

    /** Copy bytes into `span`, an array reserved earlier: when it is still
        the buffer's array the copy lands inside the committed bytes and
        leaves those around it alone; when a growth has replaced it the
        buffer does not see the copy at all. */
    method CopyToReserved(span: array<byte>, at: nat, bytes: seq<byte>)
      requires out.Valid() && at + |bytes| <= span.Length && at + |bytes| <= out.count
      modifies span
      ensures out.Valid() && |out.Span()| == |old(out.Span())|
      ensures out.Span()[..at] == old(out.Span())[..at]
      ensures out.Span()[at + |bytes|..] == old(out.Span())[at + |bytes|..]
    {
      ghost var g := span[..];
      StoreBytes(span, at, bytes);
      if span == out.rented {
        ghost var r := Splice(g, at, bytes);
        assert out.Span() == r[..out.count];
        assert old(out.Span()) == g[..out.count];
        assert r[..out.count][..at] == r[..at];
        assert g[..out.count][..at] == g[..at];
        assert r[..out.count][at + |bytes|..] == r[at + |bytes|..][..out.count - at - |bytes|];
        assert g[..out.count][at + |bytes|..] == g[at + |bytes|..][..out.count - at - |bytes|];
      }
    }

    /** The rest of WriteBytes, as the source has it, for a blob longer than
        0xff bytes, once the prefix and payload are committed: store the
        format byte, append the w-byte length with WriteBigEndian, and copy
        the payload into the array reserved before that append. */
    method FinishLongBinAsWritten(span: array<byte>, start: nat, code: byte, w: nat, data: Blob)
      requires out.Valid() && span == out.rented && |data| < Pow256(w)
      requires start + 1 + w + |data| == out.count
      modifies out, out.rented
      ensures out.Valid() && (out.rented == old(out.rented) || fresh(out.rented))
      ensures |out.Span()| == |old(out.Span())| + w
      ensures out.Span()[..start] == old(out.Span())[..start] && out.Span()[start] == code
      ensures out.Span()[|out.Span()| - w..] == BigEndian(|data|, w)
    {
      span[start] := code;
      ghost var mid := out.Span();
      assert mid[..start] == old(out.Span())[..start] && mid[start] == code;
      WriteBigEndian(|data|, w);
      ghost var grown := out.Span();
      assert grown[..start + 1] == mid[..start + 1];
      CopyToReserved(span, start + 1 + w, data);
      assert out.Span()[..start + 1] == grown[..start + 1];
    }

    /** WriteBytes as the source has it: for a 16- or 32-bit length the
        length is written with WriteBigEndian, which appends it after the
        committed prefix and payload instead of storing it in the prefix
        (and the payload is then copied into the array reserved before
        that append, which a growth may have replaced). */
    method WriteBytesAsWritten(data: Blob)
      requires out.Valid()
      modifies out, out.rented
      ensures |data| <= 0xff ==> Appended(out, BinEncoding(data))
      ensures Extended(out)
      ensures |out.Span()| == |old(out.Span())| + BinAsWrittenSize(|data|)
      ensures out.Span()[|old(out.Span())|] == BinEncoding(data)[0]
      ensures var w := |Header(BinFamily, |data|)| - 1;
        |data| > 0xff ==> out.Span()[|out.Span()| - w..] == BigEndian(|data|, w)
    {
      Pow256Values();
      var n := |data|;
      var (code, prefixLen) := BinCode(n);
      var start := out.GetAppendSpan(prefixLen + n);
      var ok := out.SetCount(out.count + prefixLen + n);
      var span := out.rented;
      if prefixLen == 2 {
        PlaceBin(span, start, data);
      } else {
        FinishLongBinAsWritten(span, start, code, prefixLen - 1, data);
      }
    }

    /** The field sink's name write: GetFieldName (which refuses an index out
        of range) written as a string. */
    method WritePropertyName(info: TypeInfo, fieldIndex: int) returns (r: Result<()>)
      requires out.Valid()
      modifies out, out.rented
      ensures Emitted(out, r, FieldName(info, fieldIndex))
    {
      if !(0 <= fieldIndex < FieldCount(info)) {
        return Err(ArgumentOutOfRange);
      }
      WriteUtf8(info.fields[fieldIndex].name);
      r := Ok(());
    }

    /** Dispatch of the scalar writes. */
    method WriteScalar(s: Scalar) returns (r: Result<()>)
      requires out.Valid()
      modifies out, out.rented
      ensures Emitted(out, r, ScalarEncoding(s))
    {
      r := Ok(());
      match s
      case SBool(b) => WriteBool(b);
      case SChar(c) => WriteChar(c);
      case SByte(b) => WriteU8(b);
      case SU16(x) => WriteU16(x);
      case SU32(x) => WriteU32(x);
      case SU64(x) => WriteU64(x);
      case SSByte(x) => WriteI8(x);
      case SI16(x) => WriteI16(x);
      case SI32(x) => WriteI32(x);
      case SI64(x) => WriteI64(x);
      case SString(t) => WriteString(t);
      case SNull => WriteNull();
      case SDecimal => r := WriteDecimal();
    }

    /** A field of a custom type (WriteField and the per-scalar field writes):
        the field's name, then its value, written inline into this writer. */
    method WriteMember(info: TypeInfo, index: int, v: Value) returns (r: Result<()>)
      requires Valid()
      modifies out, out.rented
      decreases v, 3
      ensures Valid()
      ensures Emitted(out, r, Then(FieldName(info, index), Encoding(Named, v)))
    {
      ghost var s0 := out.Span();
      r := WritePropertyName(info, index);
      if r.Err? {
        return;
      }
      ghost var s1 := out.Span();
      if v.Prim? {
        r := WriteScalar(v.scalar);
      } else {
        r := SerializeValue(v);
      }
      WroteBoth(s0, s1, out.Span(), FieldName(info, index).value, r, Encoding(Named, v));
    }

    /** End of a custom type: nothing, the map was length-prefixed. */
    method End(info: TypeInfo)
      requires out.Valid()
      ensures Appended(out, [])
    {
    }

    /** A value written through its proxy: the calls the generated code makes
        on this writer and on the sinks it opens, in order. */
    method SerializeValue(v: Value) returns (r: Result<()>)
      requires Valid()
      modifies out, out.rented
      decreases v, 2
      ensures Valid()
      ensures Emitted(out, r, Encoding(Named, v))
    {
      match v
      case Prim(s) =>
        r := WriteScalar(s);
      case Bin(data) =>
        WriteBytes(data);
        r := Ok(());
      case Collection(_, _, _) =>
        r := SerializeCollection(v);
      case Typed(_, _) =>
        r := SerializeType(v);
    }

    /** A collection: WriteCollection, then each element through the sink it
        returned, stopping at the first element that fails. */
    method SerializeCollection(v: Value) returns (r: Result<()>)
      requires Valid() && v.Collection?
      modifies out, out.rented
      decreases v, 1
      ensures Valid()
      ensures Emitted(out, r, Encoding(Named, v))
    {
      var Collection(info, length, es) := v;
      ghost var s0 := out.Span();
      var c := WriteCollection(info, length);
      if c.Err? {
        return Err(c.error);
      }
      var sink := c.value;
      ghost var acc := CollectionHeader(info, length).value;
      assert es[..0] == [] && acc + [] == acc;
      var i := 0;
      while i < |es|
        invariant 0 <= i <= |es|
        invariant Valid()
        invariant out.rented == old(out.rented) || fresh(out.rented)
        invariant Then(CollectionHeader(info, length), Elements(Named, es[..i])) == Ok(acc)
        invariant out.Span() == s0 + acc
      {
        var e := sink.WriteElement(info, i, es[i]);
        acc := ElementWritten(Named, es, i, CollectionHeader(info, length), acc, s0, out.Span(), e);
        if e.Err? {
          return e;
        }
        i := i + 1;
      }
      assert es[..i] == es;
      sink.End(info);
      r := Ok(());
    }

    /** One member, written through the sink WriteType handed out. */
    method WriteThroughSink(sink: TypeSink, info: TypeInfo, m: Member) returns (r: Result<()>)
      requires Valid() && (sink.EnumSink? <==> info.kind == Enum)
      requires sink.EnumSink? ==> sink.serializer == enumSerializer
      modifies out, out.rented
      decreases m.value, 4
      ensures Valid()
      ensures Emitted(out, r, MemberEncoding(Named, info, m))
    {
      if sink.FieldSink? {
        r := WriteMember(info, m.index, m.value);
      } else {
        r := sink.serializer.WriteMember(info, m.index, m.value);
      }
    }

    /** A custom type or an enum: WriteType, then its members through the
        sink it returned. */
    method SerializeType(v: Value) returns (r: Result<()>)
      requires Valid() && v.Typed?
      modifies out, out.rented
      decreases v, 1
      ensures Valid()
      ensures Emitted(out, r, Encoding(Named, v))
    {
      ghost var s0 := out.Span();
      var t := WriteType(v.info);
      if t.Err? {
        return Err(t.error);
      }
      r := WriteMembers(v, t.value, s0, TypeHeader(Named, v.info));
    }

    /** The members of a custom type or an enum, each through the sink
        WriteType handed out, stopping at the first member that fails. `s0`
        is what the buffer held before the type's header `head`. */
    method WriteMembers(v: Value, sink: TypeSink, ghost s0: seq<byte>, ghost head: Result<seq<byte>>)
      returns (r: Result<()>)
      requires Valid() && v.Typed? && head.Ok? && out.Span() == s0 + head.value
      requires (sink.EnumSink? <==> v.info.kind == Enum)
      requires sink.EnumSink? ==> sink.serializer == enumSerializer
      modifies out, out.rented
      decreases v, 0
      ensures Valid()
      ensures out.rented == old(out.rented) || fresh(out.rented)
      ensures Wrote(s0, out.Span(), r, Then(head, Members(Named, v.info, v.members)))
    {
      var Typed(info, ms) := v;
      ghost var acc := head.value;
      assert ms[..0] == [] && acc + [] == acc;
      var i := 0;
      while i < |ms|
        invariant 0 <= i <= |ms|
        invariant Valid()
        invariant out.rented == old(out.rented) || fresh(out.rented)
        invariant Then(head, Members(Named, info, ms[..i])) == Ok(acc)
        invariant out.Span() == s0 + acc
      {
        assert ms[i].value < v;
        var e := WriteThroughSink(sink, info, ms[i]);
        acc := MemberWritten(Named, info, ms, i, head, acc, s0, out.Span(), e);
        if e.Err? {
          return e;
        }
        i := i + 1;
      }
      assert ms[..i] == ms;
      r := Ok(());
    }
  }

  /** The element sink of a collection: each element write forwards to the
      writer, with no key, index or separator. */
  class SerCollection {
    const writer: MsgPackWriter

    constructor (writer: MsgPackWriter)
      ensures this.writer == writer
    {
      this.writer := writer;
    }

    /** The scalar element writes forward to the writer's scalar writes,
        WriteBytes to its WriteBytes, and WriteValue serializes the value
        into the same writer. The type info and index play no part. */
    method WriteElement(info: TypeInfo, index: int, v: Value) returns (r: Result<()>)
      requires writer.Valid()
      modifies writer.out, writer.out.rented
      decreases v, 3
      ensures writer.Valid()
      ensures Emitted(writer.out, r, Encoding(Named, v))
    {
      match v
      case Prim(s) =>
        r := writer.WriteScalar(s);
      case Bin(data) =>
        writer.WriteBytes(data);
        r := Ok(());
      case _ =>
        r := writer.SerializeValue(v);
    }

    /** Nothing: collections are length-prefixed. */
    method End(info: TypeInfo)
      requires writer.out.Valid()
      ensures Appended(writer.out, [])
    {
    }
  }

  /** The sink WriteType hands out for an enum: integer writes forward to the
      writer, every other write is an InvalidOperation. */
  class EnumSerializer {
    const writer: MsgPackWriter

    constructor (writer: MsgPackWriter)
      ensures this.writer == writer
    {
      this.writer := writer;
    }

    method WriteMember(info: TypeInfo, index: int, v: Value) returns (r: Result<()>)
      requires writer.out.Valid()
      modifies writer.out, writer.out.rented
      ensures Emitted(writer.out, r, EnumMemberEncoding(v))
    {
      if v.Prim? && IsInteger(v.scalar) {
        r := writer.WriteScalar(v.scalar);
      } else {
        r := Err(InvalidOperation);
      }
    }

    /** Nothing: an enum is a single value. */
    method End(info: TypeInfo)
      requires writer.out.Valid()
      ensures Appended(writer.out, [])
    {
    }
  }
}
