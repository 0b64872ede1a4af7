/** The MessagePack wire formats the codec produces: the integer formats with
    their marker bytes and payload widths, the length-prefixed headers of
    strings, binaries, arrays and maps, and the single-byte nil and booleans.
    The writer's choice of format is a function of the value; the lemmas here
    show that choice is the smallest format able to hold the value. */
module Formats {
  import opened Bytes

  const NilMarker: byte := 0xc0
  const FalseMarker: byte := 0xc2
  const TrueMarker: byte := 0xc3

  function BoolEncoding(b: bool): (r: seq<byte>)
    ensures |r| == 1 && (r[0] == TrueMarker <==> b)
  {
    if b then [TrueMarker] else [FalseMarker]
  }

  // ---------------------------------------------------------------- integers

  datatype IntFormat =
    | PositiveFixInt | NegativeFixInt
    | UInt8 | UInt16 | UInt32 | UInt64
    | Int8 | Int16 | Int32 | Int64

  /** Bytes that follow the marker. */
  function PayloadSize(f: IntFormat): nat
  {
    match f
    case PositiveFixInt | NegativeFixInt => 0
    case UInt8 | Int8 => 1
    case UInt16 | Int16 => 2
    case UInt32 | Int32 => 4
    case UInt64 | Int64 => 8
  }

  predicate IsSigned(f: IntFormat)
  {
    f.Int8? || f.Int16? || f.Int32? || f.Int64?
  }

  /** The values format f can carry. */
  predicate Covers(f: IntFormat, v: int)
  {
    match f
    case PositiveFixInt => 0 <= v < 0x80
    case NegativeFixInt => -32 <= v < 0
    case UInt8 => 0 <= v < 0x100
    case UInt16 => 0 <= v < 0x1_0000
    case UInt32 => 0 <= v < 0x1_0000_0000
    case UInt64 => 0 <= v < 0x1_0000_0000_0000_0000
    case Int8 => -0x80 <= v < 0x80
    case Int16 => -0x8000 <= v < 0x8000
    case Int32 => -0x8000_0000 <= v < 0x8000_0000
    case Int64 => -0x8000_0000_0000_0000 <= v < 0x8000_0000_0000_0000
  }

  /** The first byte of v written in format f. A fixint stores the value in
      the marker itself: `0xe0 | (v + 32)` for a negative one, which is 256 + v. */
  function Marker(f: IntFormat, v: int): (m: byte)
    requires Covers(f, v)
  {
    match f
    case PositiveFixInt => v
    case NegativeFixInt => 0x100 + v
    case UInt8 => 0xcc
    case UInt16 => 0xcd
    case UInt32 => 0xce
    case UInt64 => 0xcf
    case Int8 => 0xd0
    case Int16 => 0xd1
    case Int32 => 0xd2
    case Int64 => 0xd3
  }

  /** The payload of v in format f: its two's-complement pattern, big-endian. */
  function Payload(f: IntFormat, v: int): (r: seq<byte>)
    requires Covers(f, v)
    ensures |r| == PayloadSize(f)
  {
    var n := PayloadSize(f);
    Pow256Values();
    if n == 0 then [] else BigEndian(if v >= 0 then v else v + Pow256(n), n)
  }

  function EncodeInt(f: IntFormat, v: int): (r: seq<byte>)
    requires Covers(f, v)
    ensures |r| == 1 + PayloadSize(f) && r[0] == Marker(f, v)
  {
    [Marker(f, v)] + Payload(f, v)
  }

  /** The format WriteU64 picks for an unsigned value. */
  function UIntFormatFor(v: u64): IntFormat
  {
    if v <= 0x7f then PositiveFixInt
    else if v <= 0xff then UInt8
    else if v <= 0xffff then UInt16
    else if v <= 0xffff_ffff then UInt32
    else UInt64
  }

  /** The format WriteI64 picks: non-negative values go through WriteU64. */
  function IntFormatFor(v: i64): IntFormat
  {
    if v >= 0 then UIntFormatFor(v)
    else if v >= -32 then NegativeFixInt
    else if v >= -128 then Int8
    else if v >= -32768 then Int16
    else if v >= -2147483648 then Int32
    else Int64
  }

  /** The bytes WriteU64 emits. */
  function UIntEncoding(v: u64): (r: seq<byte>)
    ensures 1 <= |r| <= 9
  {
    assert Covers(UIntFormatFor(v), v);
    EncodeInt(UIntFormatFor(v), v)
  }

  /** The bytes WriteI64 emits. */
  function IntEncoding(v: i64): (r: seq<byte>)
    ensures 1 <= |r| <= 9
    ensures v >= 0 ==> r == UIntEncoding(v)
  {
    assert Covers(IntFormatFor(v), v);
    EncodeInt(IntFormatFor(v), v)
  }

  /** The bytes of each unsigned tier, spelled out. */
  lemma UIntEncodingTiers(v: u64)
    ensures v <= 0x7f ==> UIntEncoding(v) == [v]
    ensures 0x7f < v <= 0xff ==> UIntEncoding(v) == [0xcc, v]
    ensures 0xff < v <= 0xffff ==> v < Pow256(2) && UIntEncoding(v) == [0xcd] + BigEndian(v, 2)
    ensures 0xffff < v <= 0xffff_ffff ==> v < Pow256(4) && UIntEncoding(v) == [0xce] + BigEndian(v, 4)
    ensures 0xffff_ffff < v ==> v < Pow256(8) && UIntEncoding(v) == [0xcf] + BigEndian(v, 8)
  {
    Pow256Values();
    if 0x7f < v <= 0xff {
      assert BigEndian(v, 1) == [v];
    }
  }

  /** The bytes of each signed tier for a negative value, spelled out. */
  lemma IntEncodingTiers(v: i64)
    requires v < 0
    ensures -32 <= v ==> IntEncoding(v) == [0x100 + v]
    ensures -128 <= v < -32 ==> IntEncoding(v) == [0xd0, v + 0x100]
    ensures -0x8000 <= v < -128 ==> (-(Pow256(2) as int) / 2 <= v
      && IntEncoding(v) == [0xd1] + BigEndian(ToUnsigned(v, 2), 2))
    ensures -0x8000_0000 <= v < -0x8000 ==> (-(Pow256(4) as int) / 2 <= v
      && IntEncoding(v) == [0xd2] + BigEndian(ToUnsigned(v, 4), 4))
    ensures v < -0x8000_0000 ==> (-(Pow256(8) as int) / 2 <= v
      && IntEncoding(v) == [0xd3] + BigEndian(ToUnsigned(v, 8), 8))
  {
    Pow256Values();
    if -128 <= v < -32 {
      assert BigEndian(v + 0x100, 1) == [v + 0x100];
    }
  }

  /** WriteU64 picks a format that holds the value, and no format that holds
      it is shorter: the encoding is the most compact one MessagePack allows. */
  lemma UIntFormatIsMinimal(v: u64, f: IntFormat)
    requires Covers(f, v)
    ensures Covers(UIntFormatFor(v), v)
    ensures PayloadSize(UIntFormatFor(v)) <= PayloadSize(f)
  {
  }

  /** WriteI64 picks a format that holds the value, and no format that holds
      it is shorter. */
  lemma IntFormatIsMinimal(v: i64, f: IntFormat)
    requires Covers(f, v)
    ensures Covers(IntFormatFor(v), v)
    ensures PayloadSize(IntFormatFor(v)) <= PayloadSize(f)
  {
  }

  /** A non-negative value is always written in an unsigned format and a
      negative one in a signed format (or a negative fixint). */
  lemma IntFormatSignedness(v: i64)
    ensures v >= 0 ==> !IsSigned(IntFormatFor(v)) && !IntFormatFor(v).NegativeFixInt?
    ensures v < 0 ==> IsSigned(IntFormatFor(v)) || IntFormatFor(v).NegativeFixInt?
  {
  }

  // ----------------------------------------------------------------- headers

  /** The four length-prefixed families. */
  datatype Family = StrFamily | BinFamily | ArrayFamily | MapFamily

  /** Width of the length field: none (fix form, length in the marker), 1, 2 or 4 bytes. */
  datatype LenFormat = Fix | Len8 | Len16 | Len32

  function LenFieldSize(f: LenFormat): nat
  {
    match f
    case Fix => 0
    case Len8 => 1
    case Len16 => 2
    case Len32 => 4
  }

  /** The formats each family has: strings have all four, binaries no fix form,
      arrays and maps no 8-bit form. */
  predicate HasFormat(fam: Family, f: LenFormat)
  {
    match fam
    case StrFamily => true
    case BinFamily => !f.Fix?
    case ArrayFamily | MapFamily => !f.Len8?
  }

  /** The largest length the fix form holds: 31 for strings, 15 for arrays and maps. */
  function FixLimit(fam: Family): int
  {
    match fam
    case StrFamily => 31
    case BinFamily => -1
    case ArrayFamily | MapFamily => 15
  }

  predicate LenFits(fam: Family, f: LenFormat, n: nat)
  {
    match f
    case Fix => n <= FixLimit(fam)
    case Len8 => n < 0x100
    case Len16 => n < 0x1_0000
    case Len32 => n < 0x1_0000_0000
  }

  /** The marker byte of a family's format (for the fix form, its base, to which the length is added). */
  function LenMarker(fam: Family, f: LenFormat): byte
  {
    match fam
    case StrFamily => (match f case Fix => 0xa0 case Len8 => 0xd9 case Len16 => 0xda case Len32 => 0xdb)
    case BinFamily => (match f case Fix => 0xc4 case Len8 => 0xc4 case Len16 => 0xc5 case Len32 => 0xc6)
    case ArrayFamily => (match f case Fix => 0x90 case Len8 => 0xdc case Len16 => 0xdc case Len32 => 0xdd)
    case MapFamily => (match f case Fix => 0x80 case Len8 => 0xde case Len16 => 0xde case Len32 => 0xdf)
  }

  /** The format the writer picks for a length: the first of the family's
      formats, from the fix form up, that holds it. */
  function LenFormatFor(fam: Family, n: len32): (f: LenFormat)
    ensures HasFormat(fam, f) && LenFits(fam, f, n)
  {
    if n <= FixLimit(fam) then Fix
    else if n <= 0xff && fam != ArrayFamily && fam != MapFamily then Len8
    else if n <= 0xffff then Len16
    else Len32
  }

  /** The header the writer emits before n elements, entries or bytes.
      In the fix form `base | n` equals base + n because n fits the low bits. */
  function Header(fam: Family, n: len32): (r: seq<byte>)
    ensures |r| == 1 + LenFieldSize(LenFormatFor(fam, n)) <= 5
  {
    var f := LenFormatFor(fam, n);
    match f
    case Fix => [LenMarker(fam, f) + n]
    case Len8 => [LenMarker(fam, f), n]
    case Len16 => [LenMarker(fam, f)] + BigEndian(n, 2)
    case Len32 => [LenMarker(fam, f)] + BigEndian(n, 4)
  }

  /** The chosen header format is the shortest one the family offers for n. */
  lemma HeaderIsMinimal(fam: Family, n: len32, f: LenFormat)
    requires HasFormat(fam, f) && LenFits(fam, f, n)
    ensures LenFieldSize(LenFormatFor(fam, n)) <= LenFieldSize(f)
  {
  }

  /** A string: its header and its UTF-8 bytes. */
  function StrEncoding(utf8: seq<byte>): (r: seq<byte>)
    requires |utf8| < 0x8000_0000
    ensures |r| == |Header(StrFamily, |utf8|)| + |utf8|
  {
    Header(StrFamily, |utf8|) + utf8
  }

  /** A binary blob: its header and its bytes. */
  function BinEncoding(data: seq<byte>): (r: seq<byte>)
    requires |data| < 0x8000_0000
    ensures |r| == |Header(BinFamily, |data|)| + |data|
  {
    Header(BinFamily, |data|) + data
  }

  /** The distinct families never share a marker byte, so a reader can tell
      from the first byte which family follows. */
  lemma HeaderMarkersDistinct(fam1: Family, n1: len32, fam2: Family, n2: len32)
    requires fam1 != fam2
    ensures Header(fam1, n1)[0] != Header(fam2, n2)[0]
  {
  }
}
