/** What the reader accepts, stated declaratively over the input bytes: each
    function says, for the input s and a read starting at pos, which value a
    read yields and where the next read starts, or which error it raises.
    The reader's methods are proved to follow these functions, and the lemmas
    here relate them to the writer's encodings (round trips, and the encodings
    a read refuses). */
module Decoding {
  import opened Bytes
  import opened Results
  import opened Formats
  import opened TypeInfos

  /** A decoded value and the position just past it. */
  datatype Decoded<T> = Decoded(value: T, next: nat)

  function ByteAt(s: seq<byte>, pos: nat): (r: Result<Decoded<byte>>)
    ensures r.Ok? <==> pos < |s|
    ensures r.Ok? ==> r.value == Decoded(s[pos], pos + 1)
    ensures r.Err? ==> r.error == EndOfStream
  {
    if pos < |s| then Ok(Decoded(s[pos], pos + 1)) else Err(EndOfStream)
  }

  /** An n-byte big-endian unsigned field at pos. */
  function BigEndianAt(s: seq<byte>, pos: nat, n: nat): (r: Result<Decoded<nat>>)
    ensures r.Ok? <==> pos + n <= |s|
    ensures r.Ok? ==> r.value.next == pos + n && r.value.value < Pow256(n)
    ensures r.Ok? ==> BigEndian(r.value.value, n) == s[pos..pos + n]
    ensures r.Err? ==> r.error == EndOfStream
  {
    if pos + n <= |s| then
      BigEndianOfFromBigEndian(s[pos..pos + n]);
      Ok(Decoded(FromBigEndian(s[pos..pos + n]), pos + n))
    else Err(EndOfStream)
  }

  // ---------------------------------------------------------------- booleans

  function BoolAt(s: seq<byte>, pos: nat): (r: Result<Decoded<bool>>)
    ensures r.Ok? ==> pos < |s| && r.value.next == pos + 1
    ensures r.Ok? ==> BoolEncoding(r.value.value) == [s[pos]]
    ensures r.Err? ==> r.error == EndOfStream || (pos < |s| && r.error == UnexpectedMarker(s[pos]))
  {
    if pos >= |s| then Err(EndOfStream)
    else if s[pos] == FalseMarker then Ok(Decoded(false, pos + 1))
    else if s[pos] == TrueMarker then Ok(Decoded(true, pos + 1))
    else Err(UnexpectedMarker(s[pos]))
  }

  lemma BoolRoundTrip(s: seq<byte>, pos: nat, b: bool)
    requires pos < |s| && [s[pos]] == BoolEncoding(b)
    ensures BoolAt(s, pos) == Ok(Decoded(b, pos + 1))
  {
    assert s[pos] == BoolEncoding(b)[0];
  }

  // ---------------------------------------------------------------- integers

  /** The integer format a marker byte announces, if any. */
  function IntFormatOfMarker(m: byte): Option<IntFormat>
  {
    if m <= 0x7f then Some(PositiveFixInt)
    else if m >= 0xe0 then Some(NegativeFixInt)
    else if m == 0xcc then Some(UInt8)
    else if m == 0xcd then Some(UInt16)
    else if m == 0xce then Some(UInt32)
    else if m == 0xcf then Some(UInt64)
    else if m == 0xd0 then Some(Int8)
    else if m == 0xd1 then Some(Int16)
    else if m == 0xd2 then Some(Int32)
    else if m == 0xd3 then Some(Int64)
    else None
  }

  /** The marker of every encoded integer announces the format it was written in. */
  lemma MarkerIdentifiesFormat(f: IntFormat, v: int)
    requires Covers(f, v)
    ensures IntFormatOfMarker(Marker(f, v)) == Some(f)
  {
  }

  predicate Accepts(accepts: set<IntFormat>, m: byte)
  {
    IntFormatOfMarker(m).Some? && IntFormatOfMarker(m).value in accepts
  }

  /** The value of an integer given its format, marker and payload. */
  function DecodeInt(f: IntFormat, m: byte, payload: seq<byte>): (v: int)
    requires IntFormatOfMarker(m) == Some(f) && |payload| == PayloadSize(f)
    ensures Covers(f, v)
  {
    Pow256Values();
    match f
    case PositiveFixInt => m
    case NegativeFixInt => m - 0x100
    case UInt8 | UInt16 | UInt32 | UInt64 => FromBigEndian(payload)
    case Int8 | Int16 | Int32 | Int64 => ToSigned(FromBigEndian(payload), PayloadSize(f))
  }

  /** An integer read that accepts the formats in `accepts`: any other marker
      is an error naming that marker. */
  function IntAt(s: seq<byte>, pos: nat, accepts: set<IntFormat>): (r: Result<Decoded<int>>)
    ensures r.Ok? ==> pos < |s| && Accepts(accepts, s[pos])
    ensures r.Ok? ==> Covers(IntFormatOfMarker(s[pos]).value, r.value.value)
    ensures r.Ok? ==> r.value.next == pos + 1 + PayloadSize(IntFormatOfMarker(s[pos]).value)
    ensures r.Err? ==> r.error == EndOfStream || (pos < |s| && r.error == UnexpectedMarker(s[pos]) && !Accepts(accepts, s[pos]))
  {
    if pos >= |s| then Err(EndOfStream)
    else if !Accepts(accepts, s[pos]) then Err(UnexpectedMarker(s[pos]))
    else
      var f := IntFormatOfMarker(s[pos]).value;
      var n := PayloadSize(f);
      if pos + 1 + n > |s| then Err(EndOfStream)
      else Ok(Decoded(DecodeInt(f, s[pos], s[pos + 1..pos + 1 + n]), pos + 1 + n))
  }

  /** The formats each integer read accepts. The unsigned reads take the
      unsigned formats up to their width; each signed read takes the signed
      formats up to its width and the unsigned formats one step narrower. */
  const ByteFormats: set<IntFormat> := {PositiveFixInt, UInt8}
  const U16Formats: set<IntFormat> := ByteFormats + {UInt16}
  const U32Formats: set<IntFormat> := U16Formats + {UInt32}
  const U64Formats: set<IntFormat> := U32Formats + {UInt64}
  const SByteFormats: set<IntFormat> := {PositiveFixInt, NegativeFixInt, Int8}
  const I16Formats: set<IntFormat> := SByteFormats + {UInt8, Int16}
  const I32Formats: set<IntFormat> := I16Formats + {UInt16, Int32}
  const I64Formats: set<IntFormat> := I32Formats + {UInt32, Int64}

  /** An integer encoded in an accepted format reads back as itself. */
  lemma IntRoundTrip(s: seq<byte>, pos: nat, f: IntFormat, v: int, accepts: set<IntFormat>)
    requires Covers(f, v) && f in accepts
    requires pos + 1 + PayloadSize(f) <= |s| && s[pos..pos + 1 + PayloadSize(f)] == EncodeInt(f, v)
    ensures IntAt(s, pos, accepts) == Ok(Decoded(v, pos + 1 + PayloadSize(f)))
  {
    MarkerIdentifiesFormat(f, v);
    var n := PayloadSize(f);
    var e := EncodeInt(f, v);
    assert s[pos] == e[0] == Marker(f, v);
    assert Accepts(accepts, s[pos]);
    assert s[pos + 1..pos + 1 + n] == e[1..] == Payload(f, v);
    PayloadRoundTrip(f, v);
    assert IntAt(s, pos, accepts) == Ok(Decoded(DecodeInt(f, s[pos], s[pos + 1..pos + 1 + n]), pos + 1 + n));
  }

  /** Decoding the payload of an encoded integer gives the integer back. */
  lemma PayloadRoundTrip(f: IntFormat, v: int)
    requires Covers(f, v)
    ensures DecodeInt(f, Marker(f, v), Payload(f, v)) == v
  {
    MarkerIdentifiesFormat(f, v);
    var n := PayloadSize(f);
    Pow256Values();
    match f
    case PositiveFixInt | NegativeFixInt =>
    case UInt8 | UInt16 | UInt32 | UInt64 =>
      FromBigEndianOfBigEndian(v, n);
    case Int8 | Int16 | Int32 | Int64 =>
      var u := ToUnsigned(v, n);
      assert Payload(f, v) == BigEndian(u, n);
      FromBigEndianOfBigEndian(u, n);
      SignedUnsignedInverse(v, n);
  }

  /** An integer encoded in a format the read does not accept is refused by its marker. */
  lemma IntRefused(s: seq<byte>, pos: nat, f: IntFormat, v: int, accepts: set<IntFormat>)
    requires Covers(f, v) && f !in accepts
    requires pos < |s| && s[pos] == Marker(f, v)
    ensures IntAt(s, pos, accepts) == Err(UnexpectedMarker(Marker(f, v)))
  {
    MarkerIdentifiesFormat(f, v);
  }

  /** A read that accepts more formats gives the same answer wherever a
      narrower read did not refuse the marker: this is what lets each read
      of a chain hand a refused marker on to the next, wider one. */
  lemma IntAtWiden(s: seq<byte>, pos: nat, narrow: set<IntFormat>, wide: set<IntFormat>)
    requires narrow <= wide
    requires IntAt(s, pos, narrow).Ok? || IntAt(s, pos, narrow).error == EndOfStream
    ensures IntAt(s, pos, wide) == IntAt(s, pos, narrow)
  {
  }

  /** Which writes of an unsigned value each unsigned read takes back. */
  lemma UnsignedReadsAccept(v: u64)
    ensures UIntFormatFor(v) in ByteFormats <==> v <= 0xff
    ensures UIntFormatFor(v) in U16Formats <==> v <= 0xffff
    ensures UIntFormatFor(v) in U32Formats <==> v <= 0xffff_ffff
    ensures UIntFormatFor(v) in U64Formats
  {
  }

  /** Which writes of a signed value each signed read takes back. Because a
      signed read accepts unsigned formats only one step narrower than its
      width, a non-negative value in the upper part of its range is refused:
      ReadI16 refuses 256..32767, ReadI32 refuses 65536..2^31-1 and ReadI64
      refuses everything above 2^32-1, although each was written from a
      value of that very type. */
  lemma SignedReadsAccept(v: i64)
    ensures IntFormatFor(v) in SByteFormats <==> -0x80 <= v < 0x80
    ensures IntFormatFor(v) in I16Formats <==> -0x8000 <= v <= 0xff
    ensures IntFormatFor(v) in I32Formats <==> -0x8000_0000 <= v <= 0xffff
    ensures IntFormatFor(v) in I64Formats <==> v <= 0xffff_ffff
  {
  }

  /** Reading back what WriteI64 wrote: the value itself when the read accepts
      the chosen format, otherwise an error naming the marker. */
  lemma IntEncodingReadBack(s: seq<byte>, pos: nat, v: i64, accepts: set<IntFormat>)
    requires pos + |IntEncoding(v)| <= |s| && s[pos..pos + |IntEncoding(v)|] == IntEncoding(v)
    ensures IntFormatFor(v) in accepts ==> IntAt(s, pos, accepts) == Ok(Decoded(v, pos + |IntEncoding(v)|))
    ensures IntFormatFor(v) !in accepts ==> IntAt(s, pos, accepts) == Err(UnexpectedMarker(IntEncoding(v)[0]))
  {
    var f := IntFormatFor(v);
    assert Covers(f, v);
    if f in accepts {
      IntRoundTrip(s, pos, f, v, accepts);
    } else {
      assert s[pos] == IntEncoding(v)[0];
      IntRefused(s, pos, f, v, accepts);
    }
  }

  /** WriteI16(256) emits 0xcd 0x01 0x00, which ReadI16 refuses. */
  lemma ReadI16RefusesWriteI16Of256()
    ensures IntEncoding(256) == [0xcd, 0x01, 0x00]
    ensures IntAt(IntEncoding(256), 0, I16Formats) == Err(UnexpectedMarker(0xcd))
  {
    Pow256Values();
    assert IntFormatFor(256) == UInt16;
    assert BigEndian(256, 2) == BigEndian(1, 1) + [0] == [1, 0];
  }

  /** The values each integer read can produce fit the C# type it returns. */
  lemma IntAtRange(s: seq<byte>, pos: nat, accepts: set<IntFormat>)
    requires IntAt(s, pos, accepts).Ok?
    ensures var v := IntAt(s, pos, accepts).value.value;
      && (accepts == ByteFormats ==> 0 <= v < 0x100)
      && (accepts == U16Formats ==> 0 <= v < 0x1_0000)
      && (accepts == U32Formats ==> 0 <= v < 0x1_0000_0000)
      && (accepts == U64Formats ==> 0 <= v < 0x1_0000_0000_0000_0000)
      && (accepts == SByteFormats ==> -0x80 <= v < 0x80)
      && (accepts == I16Formats ==> -0x8000 <= v < 0x8000)
      && (accepts == I32Formats ==> -0x8000_0000 <= v < 0x8000_0000)
      && (accepts == I64Formats ==> -0x8000_0000_0000_0000 <= v < 0x8000_0000_0000_0000)
  {
    var f := IntFormatOfMarker(s[pos]).value;
    assert f in accepts;
  }

  // ----------------------------------------------------------------- strings

  /** The length prefix of a string. Every marker up to 0xbf is taken as a
      fix string with the length in its low five bits, so positive fixints,
      fixmaps and fixarrays read as short strings too. A 32-bit length is
      reinterpreted as a signed `int`. */
  function StrHeaderAt(s: seq<byte>, pos: nat): (r: Result<Decoded<int>>)
    ensures r.Ok? ==> pos < |s| && pos < r.value.next <= pos + 5
    ensures r.Ok? ==> -0x8000_0000 <= r.value.value < 0x8000_0000
    ensures r.Err? ==> r.error == EndOfStream || (pos < |s| && r.error == UnexpectedMarker(s[pos]))
  {
    if pos >= |s| then Err(EndOfStream)
    else
      var m := s[pos];
      if m <= 0xbf then Ok(Decoded(m % 32, pos + 1))
      else if m == 0xd9 then
        (match ByteAt(s, pos + 1)
         case Ok(d) => Ok(Decoded(d.value as int, d.next))
         case Err(e) => Err(e))
      else if m == 0xda then
        (match BigEndianAt(s, pos + 1, 2)
         case Ok(d) => Ok(Decoded(d.value as int, d.next))
         case Err(e) => Err(e))
      else if m == 0xdb then
        (match BigEndianAt(s, pos + 1, 4)
         case Ok(d) => Ok(Decoded(ToSigned(d.value, 4), d.next))
         case Err(e) => Err(e))
      else Err(UnexpectedMarker(m))
  }

  /** A string's UTF-8 bytes. A negative length makes the final slice fail. */
  function StrAt(s: seq<byte>, pos: nat): (r: Result<Decoded<seq<byte>>>)
    ensures r.Ok? ==> StrHeaderAt(s, pos).Ok? && r.value.next == StrHeaderAt(s, pos).value.next + |r.value.value|
    ensures r.Ok? ==> r.value.next <= |s| && r.value.value == s[r.value.next - |r.value.value|..r.value.next]
  {
    match StrHeaderAt(s, pos)
    case Err(e) => Err(e)
    case Ok(h) =>
      if h.value < 0 then Err(ArgumentOutOfRange)
      else if h.next + h.value > |s| then Err(EndOfStream)
      else Ok(Decoded(s[h.next..h.next + h.value], h.next + h.value))
  }

  /** A string written with its header reads back as the same bytes. */
  lemma StrRoundTrip(s: seq<byte>, pos: nat, utf8: seq<byte>)
    requires |utf8| < 0x8000_0000
    requires pos + |StrEncoding(utf8)| <= |s| && s[pos..pos + |StrEncoding(utf8)|] == StrEncoding(utf8)
    ensures StrAt(s, pos) == Ok(Decoded(utf8, pos + |StrEncoding(utf8)|))
  {
    var h := Header(StrFamily, |utf8|);
    var n := |utf8|;
    var e := StrEncoding(utf8);
    Pow256Values();
    assert e == h + utf8;
    assert s[pos..pos + |h|] == e[..|h|] == h;
    assert s[pos] == h[0];
    match LenFormatFor(StrFamily, n)
    case Fix =>
    case Len8 =>
      assert s[pos + 1] == h[1];
    case Len16 =>
      assert s[pos + 1..pos + 3] == h[1..];
      FromBigEndianOfBigEndian(n, 2);
    case Len32 =>
      assert s[pos + 1..pos + 5] == h[1..];
      FromBigEndianOfBigEndian(n, 4);
    assert StrHeaderAt(s, pos) == Ok(Decoded(n, pos + |h|));
    assert s[pos + |h|..pos + |h| + n] == e[|h|..] == utf8;
  }

  // ------------------------------------------------------- arrays and maps

  /** An array header: any marker up to 0x9f is taken as a fixarray with the
      length in its low four bits. */
  function ArrayHeaderAt(s: seq<byte>, pos: nat): (r: Result<Decoded<int>>)
    ensures r.Ok? ==> pos < |s| && pos < r.value.next <= pos + 5
    ensures r.Ok? ==> -0x8000_0000 <= r.value.value < 0x8000_0000
    ensures r.Err? ==> r.error == EndOfStream || (pos < |s| && r.error == UnexpectedMarker(s[pos]))
  {
    if pos >= |s| then Err(EndOfStream)
    else
      var m := s[pos];
      if m <= 0x9f then Ok(Decoded(m % 16, pos + 1))
      else if m == 0xdc then
        (match BigEndianAt(s, pos + 1, 2)
         case Ok(d) => Ok(Decoded(d.value as int, d.next))
         case Err(e) => Err(e))
      else if m == 0xdd then
        (match BigEndianAt(s, pos + 1, 4)
         case Ok(d) => Ok(Decoded(ToSigned(d.value, 4), d.next))
         case Err(e) => Err(e))
      else Err(UnexpectedMarker(m))
  }

  /** A map header: any marker up to 0x8f is taken as a fixmap with the
      number of pairs in its low four bits. */
  function MapHeaderAt(s: seq<byte>, pos: nat): (r: Result<Decoded<int>>)
    ensures r.Ok? ==> pos < |s| && pos < r.value.next <= pos + 5
    ensures r.Ok? ==> -0x8000_0000 <= r.value.value < 0x8000_0000
    ensures r.Err? ==> r.error == EndOfStream || (pos < |s| && r.error == UnexpectedMarker(s[pos]))
  {
    if pos >= |s| then Err(EndOfStream)
    else
      var m := s[pos];
      if m <= 0x8f then Ok(Decoded(m % 16, pos + 1))
      else if m == 0xde then
        (match BigEndianAt(s, pos + 1, 2)
         case Ok(d) => Ok(Decoded(d.value as int, d.next))
         case Err(e) => Err(e))
      else if m == 0xdf then
        (match BigEndianAt(s, pos + 1, 4)
         case Ok(d) => Ok(Decoded(ToSigned(d.value, 4), d.next))
         case Err(e) => Err(e))
      else Err(UnexpectedMarker(m))
  }

  /** The count a header written for n elements reads back as. */
  lemma {:induction false} HeaderRoundTrip(s: seq<byte>, pos: nat, fam: Family, n: len32)
    requires fam == ArrayFamily || fam == MapFamily
    requires pos + |Header(fam, n)| <= |s| && s[pos..pos + |Header(fam, n)|] == Header(fam, n)
    ensures fam == ArrayFamily ==> ArrayHeaderAt(s, pos) == Ok(Decoded(n, pos + |Header(fam, n)|))
    ensures fam == MapFamily ==> MapHeaderAt(s, pos) == Ok(Decoded(n, pos + |Header(fam, n)|))
  {
    var h := Header(fam, n);
    Pow256Values();
    assert s[pos] == h[0];
    match LenFormatFor(fam, n)
    case Fix =>
    case Len8 =>
    case Len16 =>
      assert s[pos + 1..pos + 3] == h[1..];
      FromBigEndianOfBigEndian(n, 2);
    case Len32 =>
      assert s[pos + 1..pos + 5] == h[1..];
      FromBigEndianOfBigEndian(n, 4);
  }

  /** What ReadCollection produces: whether the collection is a dictionary and
      its seed length (the element count of an array, twice the pair count of
      a map, wrapping like C# `int` arithmetic). The marker byte is consumed
      before the kind is examined. */
  datatype CollectionSeed = CollectionSeed(isDict: bool, length: i32)

  function CollectionAt(s: seq<byte>, pos: nat, kind: InfoKind): (r: Result<Decoded<CollectionSeed>>)
    ensures r.Ok? ==> kind == Enumerable || kind == Dictionary
    ensures r.Ok? ==> (r.value.value.isDict <==> kind == Dictionary)
    ensures pos < |s| && kind != Enumerable && kind != Dictionary ==> r == Err(UnexpectedKind)
  {
    if pos >= |s| then Err(EndOfStream)
    else if kind == Enumerable then
      match ArrayHeaderAt(s, pos)
      case Ok(h) => Ok(Decoded(CollectionSeed(false, h.value), h.next))
      case Err(e) => Err(e)
    else if kind == Dictionary then
      match MapHeaderAt(s, pos)
      case Ok(h) => Ok(Decoded(CollectionSeed(true, WrapInt32(h.value * 2)), h.next))
      case Err(e) => Err(e)
    else Err(UnexpectedKind)
  }

  /** The size a cursor reports: a map cursor halves its seed, truncating toward zero. */
  function SizeOpt(seed: CollectionSeed): int
  {
    if seed.isDict then HalfTowardZero(seed.length) else seed.length
  }

  /** A cursor over a written collection yields one value per element of
      an array and a key and a value per pair of a map, and reports the
      count the writer wrote: for a map of n pairs the doubled seed is
      halved back to n. */
  lemma CollectionSizeRoundTrip(s: seq<byte>, pos: nat, kind: InfoKind, n: len32)
    requires kind == Enumerable || kind == Dictionary
    requires kind == Dictionary ==> n < 0x4000_0000
    requires var h := Header(if kind == Enumerable then ArrayFamily else MapFamily, n);
      pos + |h| <= |s| && s[pos..pos + |h|] == h
    ensures CollectionAt(s, pos, kind).Ok?
    ensures CollectionAt(s, pos, kind).value.value.length == if kind == Dictionary then 2 * n else n
    ensures CollectionAt(s, pos, kind).value.next
      == pos + |Header(if kind == Enumerable then ArrayFamily else MapFamily, n)|
    ensures SizeOpt(CollectionAt(s, pos, kind).value.value) == n
  {
    var fam := if kind == Enumerable then ArrayFamily else MapFamily;
    HeaderRoundTrip(s, pos, fam, n);
  }

  /** A map of 2^30 pairs or more is seeded with a wrapped, negative length:
      its cursor reports a wrong size and yields no elements. */
  lemma HugeMapSeedWraps(n: len32)
    requires 0x4000_0000 <= n
    ensures WrapInt32(n * 2) < 0
  {
  }

  // ---------------------------------------------------------------- types

  /** ReadType's header check for a custom type with fieldCount fields.
      Up to 255 fields only a marker up to 0x9f is taken, as a fixarray with
      the length in its low four bits; up to 65535 only array16; beyond that
      only array32. The length read must equal fieldCount. */
  function TypeHeaderAt(s: seq<byte>, pos: nat, fieldCount: len32): (r: Result<Decoded<int>>)
    ensures r.Ok? ==> r.value.value == fieldCount && pos < r.value.next <= pos + 5 && pos < |s|
  {
    if pos >= |s| then Err(EndOfStream)
    else
      var m := s[pos];
      var length :=
        if fieldCount <= 0xff then
          (if m > 0x9f then Err(UnexpectedMarker(m)) else Ok(Decoded(m % 16, pos + 1)))
        else if fieldCount <= 0xffff then
          (if m != 0xdc then Err(UnexpectedMarker(m))
           else match BigEndianAt(s, pos + 1, 2)
             case Ok(d) => Ok(Decoded(d.value as int, d.next))
             case Err(e) => Err(e))
        else
          (if m != 0xdd then Err(UnexpectedMarker(m))
           else match BigEndianAt(s, pos + 1, 4)
             case Ok(d) => Ok(Decoded(ToSigned(d.value, 4), d.next))
             case Err(e) => Err(e));
      match length
      case Err(e) => Err(e)
      case Ok(d) => if d.value != fieldCount then Err(LengthMismatch(fieldCount, d.value)) else Ok(d)
  }

  /** A type with at most 15 fields reads back from either header the two
      writers emit: the positional writer's fixarray and the named writer's fixmap. */
  lemma SmallTypeHeaderRoundTrip(s: seq<byte>, pos: nat, fam: Family, fieldCount: len32)
    requires fieldCount <= 15 && (fam == ArrayFamily || fam == MapFamily)
    requires pos < |s| && s[pos] == Header(fam, fieldCount)[0]
    ensures TypeHeaderAt(s, pos, fieldCount) == Ok(Decoded(fieldCount, pos + 1))
  {
  }

  /** A type with 16 to 255 fields never passes ReadType, whatever the input:
      the only markers taken are read as fixarrays, whose length is below 16. */
  lemma MidSizeTypeHeaderAlwaysFails(s: seq<byte>, pos: nat, fieldCount: len32)
    requires 16 <= fieldCount <= 0xff
    ensures TypeHeaderAt(s, pos, fieldCount).Err?
  {
  }

  /** From 256 fields on, the positional writer's array header reads back and
      the named writer's map header is refused. */
  lemma LargeTypeHeaderRoundTrip(s: seq<byte>, pos: nat, fam: Family, fieldCount: len32)
    requires 0x100 <= fieldCount && (fam == ArrayFamily || fam == MapFamily)
    requires pos + |Header(fam, fieldCount)| <= |s| && s[pos..pos + |Header(fam, fieldCount)|] == Header(fam, fieldCount)
    ensures fam == ArrayFamily ==> TypeHeaderAt(s, pos, fieldCount) == Ok(Decoded(fieldCount, pos + |Header(fam, fieldCount)|))
    ensures fam == MapFamily ==> TypeHeaderAt(s, pos, fieldCount) == Err(UnexpectedMarker(s[pos]))
  {
    var h := Header(fam, fieldCount);
    Pow256Values();
    assert s[pos] == h[0];
    if fam == ArrayFamily {
      if fieldCount <= 0xffff {
        assert s[pos + 1..pos + 3] == h[1..];
        FromBigEndianOfBigEndian(fieldCount, 2);
      } else {
        assert s[pos + 1..pos + 5] == h[1..];
        FromBigEndianOfBigEndian(fieldCount, 4);
      }
    }
  }

  /** ReadType: a custom type's header must announce FieldCount entries
      (TypeHeaderAt); an enum has no header and nothing is read; any other
      kind is refused without reading. */
  function TypeAt(s: seq<byte>, pos: nat, info: TypeInfo): (r: Result<Decoded<()>>)
    ensures info.kind == CustomType ==> (r.Ok? <==> TypeHeaderAt(s, pos, FieldCount(info)).Ok?)
    ensures info.kind == CustomType && r.Ok? ==> r.value.next == TypeHeaderAt(s, pos, FieldCount(info)).value.next
    ensures info.kind == Enum ==> r == Ok(Decoded((), pos))
    ensures info.kind != CustomType && info.kind != Enum ==> r == Err(UnexpectedKind)
  {
    if info.kind == CustomType then
      match TypeHeaderAt(s, pos, FieldCount(info))
      case Ok(h) => Ok(Decoded((), h.next))
      case Err(e) => Err(e)
    else if info.kind == Enum then Ok(Decoded((), pos))
    else Err(UnexpectedKind)
  }

  // ---------------------------------------------------------------- nil

  /** ReadNullableRef's test: a nil marker is consumed and means null; any
      other byte is left for the value's own read. */
  function NilAt(s: seq<byte>, pos: nat): (r: Result<Decoded<bool>>)
    ensures r.Ok? <==> pos < |s|
    ensures r.Ok? ==> (r.value.value <==> s[pos] == NilMarker)
    ensures r.Ok? ==> r.value.next == if r.value.value then pos + 1 else pos
    ensures r.Err? ==> r.error == EndOfStream
  {
    if pos >= |s| then Err(EndOfStream)
    else if s[pos] == NilMarker then Ok(Decoded(true, pos + 1))
    else Ok(Decoded(false, pos))
  }

  /** What WriteNull wrote reads back as null, and what the integer, bool
      and string writes wrote does not. */
  lemma NilRoundTrip(s: seq<byte>, pos: nat)
    requires pos < |s| && s[pos] == NilMarker
    ensures NilAt(s, pos) == Ok(Decoded(true, pos + 1))
    ensures IntAt(s, pos, I64Formats).Err? && IntAt(s, pos, U64Formats).Err?
    ensures BoolAt(s, pos).Err? && StrHeaderAt(s, pos).Err?
  {
  }

  // ----------------------------------------------------------- scalar reads

  /** The scalar reads a cursor forwards to the reader. */
  datatype ReadKind =
    | BoolRead | ByteRead | CharRead | U16Read | U32Read | U64Read
    | SByteRead | I16Read | I32Read | I64Read | StringRead | DecimalRead

  /** What a scalar read returns: a bool, an integer of the read's type, or
      a string's UTF-8 bytes. */
  datatype Item = BoolItem(b: bool) | IntItem(i: int) | StrItem(bytes: seq<byte>)

  /** The formats an integer read accepts; a character is read as a u16. */
  function FormatsOf(kind: ReadKind): set<IntFormat>
  {
    match kind
    case ByteRead => ByteFormats
    case CharRead | U16Read => U16Formats
    case U32Read => U32Formats
    case U64Read => U64Formats
    case SByteRead => SByteFormats
    case I16Read => I16Formats
    case I32Read => I32Formats
    case I64Read => I64Formats
    case _ => {}
  }

  predicate IsIntRead(kind: ReadKind)
  {
    !(kind.BoolRead? || kind.StringRead? || kind.DecimalRead?)
  }

  /** One scalar read at pos. Decimal is not implemented and reads nothing. */
  function ScalarAt(s: seq<byte>, pos: nat, kind: ReadKind): (r: Result<Decoded<Item>>)
    ensures kind.DecimalRead? ==> r == Err(NotImplemented)
    ensures r.Ok? ==> pos < r.value.next <= |s|
    ensures r.Ok? && IsIntRead(kind) ==> r.value.value.IntItem?
    ensures r.Ok? && kind == StringRead ==> r.value.value.StrItem?
  {
    match kind
    case BoolRead =>
      (match BoolAt(s, pos)
       case Ok(d) => Ok(Decoded(BoolItem(d.value), d.next))
       case Err(e) => Err(e))
    case StringRead =>
      (match StrAt(s, pos)
       case Ok(d) => Ok(Decoded(StrItem(d.value), d.next))
       case Err(e) => Err(e))
    case DecimalRead => Err(NotImplemented)
    case _ =>
      (match IntAt(s, pos, FormatsOf(kind))
       case Ok(d) => Ok(Decoded(IntItem(d.value), d.next))
       case Err(e) => Err(e))
  }

  // ---------------------------------------------------- field-index protocol

  /** The name TryReadIndex reports with IndexNotFound: for an unknown key it
      is the text of `ReadOnlySpan<byte>.ToString()`, which describes the span
      (its element type and length), not the key's bytes; for a kind that is
      neither a custom type nor an enum it is a message naming the kind. */
  datatype ErrorName = SpanDescription(length: nat) | KindMismatch(kind: InfoKind)

  datatype IndexResult = IndexResult(index: int, errorName: Option<ErrorName>)

  /** The number of keys a type cursor has consumed after one more TryReadIndex. */
  function NextCount(info: TypeInfo, count: int): int
  {
    if info.kind == CustomType && count < FieldCount(info) then count + 1 else count
  }

  /** TryReadIndex of a type cursor that has consumed `count` keys. A custom
      type's cursor answers EndOfType once FieldCount keys have been read;
      otherwise it reads a string key and looks it up. An enum cursor reads
      the member index as a 32-bit integer. Any other kind reports
      IndexNotFound with a message and reads nothing. */
  function TypeIndexAt(info: TypeInfo, count: int, s: seq<byte>, pos: nat): (r: Result<Decoded<IndexResult>>)
    ensures info.kind == CustomType && r.Ok? ==>
      var i := r.value.value.index;
      (i == EndOfType <==> count >= FieldCount(info))
      && (i == EndOfType || i == IndexNotFound || 0 <= i < FieldCount(info))
      && (r.value.value.errorName.Some? <==> i == IndexNotFound)
    ensures info.kind == CustomType && count >= FieldCount(info) ==> r == Ok(Decoded(IndexResult(EndOfType, None), pos))
    ensures info.kind != CustomType && info.kind != Enum ==> r == Ok(Decoded(IndexResult(IndexNotFound, Some(KindMismatch(info.kind))), pos))
  {
    if info.kind == CustomType then
      if count >= FieldCount(info) then Ok(Decoded(IndexResult(EndOfType, None), pos))
      else
        match StrAt(s, pos)
        case Err(e) => Err(e)
        case Ok(key) =>
          var index := TryGetIndex(info, key.value);
          Ok(Decoded(IndexResult(index, if index == IndexNotFound then Some(SpanDescription(|key.value|)) else None), key.next))
    else if info.kind == Enum then
      match IntAt(s, pos, I32Formats)
      case Err(e) => Err(e)
      case Ok(d) => Ok(Decoded(IndexResult(d.value, None), d.next))
    else Ok(Decoded(IndexResult(IndexNotFound, Some(KindMismatch(info.kind))), pos))
  }

  /** A key the named writer wrote for field i is found again: at a field
      with the same name, and at i itself when no earlier field has that
      name (the lookup takes the first field that matches). */
  lemma KeyRoundTrip(info: TypeInfo, count: int, s: seq<byte>, pos: nat, i: nat)
    requires info.kind == CustomType && count < FieldCount(info) && i < FieldCount(info)
    requires pos + |StrEncoding(info.fields[i].name)| <= |s|
    requires s[pos..pos + |StrEncoding(info.fields[i].name)|] == StrEncoding(info.fields[i].name)
    ensures TypeIndexAt(info, count, s, pos).Ok?
    ensures var j := TypeIndexAt(info, count, s, pos).value.value.index;
      0 <= j <= i && info.fields[j].name == info.fields[i].name
    ensures (forall a :: 0 <= a < i ==> info.fields[a].name != info.fields[i].name)
      ==> TypeIndexAt(info, count, s, pos) == Ok(Decoded(IndexResult(i, None), pos + |StrEncoding(info.fields[i].name)|))
    ensures TypeIndexAt(info, count, s, pos).value.next == pos + |StrEncoding(info.fields[i].name)|
  {
    StrRoundTrip(s, pos, info.fields[i].name);
  }

  /** Two unknown keys of equal length are reported with the same errorName,
      so the name cannot tell which key was unknown. */
  lemma UnknownKeysOfEqualLengthLookAlike(info: TypeInfo, s1: seq<byte>, s2: seq<byte>)
    requires info.kind == CustomType && 0 < FieldCount(info)
    requires TypeIndexAt(info, 0, s1, 0).Ok? && TypeIndexAt(info, 0, s1, 0).value.value.index == IndexNotFound
    requires TypeIndexAt(info, 0, s2, 0).Ok? && TypeIndexAt(info, 0, s2, 0).value.value.index == IndexNotFound
    requires |StrAt(s1, 0).value.value| == |StrAt(s2, 0).value.value|
    ensures TypeIndexAt(info, 0, s1, 0).value.value == TypeIndexAt(info, 0, s2, 0).value.value
  {
  }
}
