# A verified model of the Serde.MsgPack codec

Serde.MsgPack turns values described by Serde's type descriptors
(`ISerdeInfo`) into MessagePack bytes and reads them back. This project
models its core in Dafny and proves what each part does:

- **The scratch buffer** (`ScratchBuffers`). It is a growable byte buffer over
  a rented array. The model has `Add`, `AddRange`, `GetAppendSpan`, the
  `Count` setter, growth by doubling from a default of 64 in 32-bit `int`
  arithmetic, `Clear` and `Dispose`. Every append is proved to extend the written span by exactly the
  appended bytes. Arrays given back to the pool are tracked in a ghost set.
- **The wire formats** (`Formats`). The integer tiers are the positive and
  negative fixint, `0xcc`–`0xcf` and `0xd0`–`0xd3`. The length tiers cover
  strings, blobs, arrays and maps. The writers always pick the smallest tier,
  and this is proved against any other tier that could hold the value.
- **Two generations of writer.** The current named writer (`Writer`,
  `src/writer/`) writes a custom type as a map from field names to values. It
  also writes enums as their underlying integer. The older positional writer
  (`PositionalWriter`, `src/MsgPackWriter*.cs`) writes a custom type as an
  array. It refuses types whose `[Key]` attributes are out of declaration
  order. Each write method is proved to append the bytes of a declarative
  encoding (`Values.Encoding`) to the buffer, or to fail with that encoding's
  error. Two methods of the named writer do not, as written: `WriteString`
  and `WriteBytes` (see "## Findings"). Each is modelled twice. The as-written
  twins (`WriteStringAsWritten`, `WriteBytesAsWritten`) append what the source
  stores, which is not the encoding. The corrected `WriteString` and
  `WriteBytes` append the encoding. The composite writes (`WriteScalar`,
  `WriteMember`, `WriteMembers`, `SerializeValue`, `SerializeCollection`,
  `SerializeType`, `SerCollection.WriteElement`) and `Serializer.Serialize`
  call the corrected pair, so their contracts hold for the corrected writer.
  The two generations are proved to write the same bytes for every value
  that holds no custom type and no blob, whenever the named writer succeeds.
- **The reader** (`Reader`) over an in-memory buffer (`BufReaders`), and the
  cursors that generated deserializers drive (`Cursors`). Every read method is
  proved to follow a decoding function (`Decoding`). That function states
  which bytes it accepts, what it returns, where it leaves the read position,
  and which error it raises otherwise. Round-trip lemmas connect each decoding
  function back to the writers' encodings.
- **The serializer entry point** (`Serializer.Serialize`). It creates an empty
  scratch buffer, writes one value with the corrected named writer, copies the
  bytes out and disposes the buffer.
- **The hand-written `Location` deserializer** of the benchmark types
  (`SampleTypes`). It reads nine fields in any order, tracks them in a 16-bit
  mask and requires all nine.

A value to be written is modelled as data (`Values.Value`): a scalar, a
collection or a custom type with its members. It stands in for the generated
`ISerialize` proxies, which call the writer in the same order.

Exceptions become `Result` errors. `Results.Error` names the exception kinds
that the code distinguishes. The reader's plain `Exception` is modelled two
ways. For a marker outside the expected family it is `UnexpectedMarker`, and
for a descriptor kind the read cannot handle it is `UnexpectedKind`.

## Model

| member | source | states |
|---|---|---|
| ScratchBuffers.GetNewCapacity | src/ScratchBuffer.cs:107-119 | below 2^30 bytes: the new capacity covers the request, is at least 64 when growing from empty and at least double the current size otherwise, and is the request itself or that default/doubled size; from 2^30 bytes on the `int` doubling wraps and the result is negative |
| ScratchBuffers.GrowthWrapsAtOneGiB | src/ScratchBuffer.cs:107-119 | growing a 2^30-byte buffer by one byte asks for `int.MinValue` |
| ScratchBuffers.Rent | src/ScratchBuffer.cs:121-130 | a rented array is fresh and at least as long as requested |
| ScratchBuffers.ScratchBuffer.Capacity | src/ScratchBuffer.cs:37 | the length of the rented array, or 0 when none is held |
| ScratchBuffers.ScratchBuffer.Span | src/ScratchBuffer.cs:47 | the written bytes are exactly the first Count bytes of the rented array |
| ScratchBuffers.ScratchBuffer.constructor | src/ScratchBuffer.cs:9 | a new buffer holds no array and no bytes |
| ScratchBuffers.ScratchBuffer.WithCapacity | src/ScratchBuffer.cs:10-17 | the buffer starts empty with a fresh array of at least the requested capacity |
| ScratchBuffers.ScratchBuffer.SetCount | src/ScratchBuffer.cs:21-35 | setting Count succeeds exactly when an array is held and the new count lies between the old count and the array length; otherwise the count is unchanged; on success the span grows by the array bytes now covered |
| ScratchBuffers.ScratchBuffer.Add | src/ScratchBuffer.cs:49-62 | the span becomes the old span plus the byte; capacity never shrinks; the array is the same or fresh; released arrays are kept |
| ScratchBuffers.ScratchBuffer.AddSlow | src/ScratchBuffer.cs:64-69 | same as Add, after growing the array |
| ScratchBuffers.ScratchBuffer.AddRange | src/ScratchBuffer.cs:71-76 | the span becomes the old span followed by all the given bytes |
| ScratchBuffers.ScratchBuffer.GetAppendSpan | src/ScratchBuffer.cs:78-88 | the written bytes are unchanged and at least `size` free bytes follow them in the array |
| ScratchBuffers.ScratchBuffer.EnsureCapacity | src/ScratchBuffer.cs:90-98 | the capacity reaches the request; the written bytes are unchanged; no reallocation happens when the capacity was already enough; below 2^30 bytes a growth reaches at least GetNewCapacity |
| ScratchBuffers.ScratchBuffer.Grow | src/ScratchBuffer.cs:121-130 | a fresh array of at least the new size holds a copy of the old array's contents; the old array is returned to the pool |
| ScratchBuffers.ScratchBuffer.Clear | src/ScratchBuffer.cs:100-103 | the written span becomes empty |
| ScratchBuffers.ScratchBuffer.Dispose | src/ScratchBuffer.cs:132-140 | the buffer releases its array (added to the released set) and holds nothing |
| ScratchBuffers.WroteBoth | src/writer/MsgPackWriter.ISerializeType.cs:19-23 | a successful write followed by a second write (successful or not) produces the concatenation of the two expected encodings, or the second one's error |
| BufReaders.ArrayBufReader.constructor | src/reader/ArrayBufReader.cs:4-7 | the reader wraps the given array at offset 0 |
| BufReaders.ArrayBufReader.Span | src/reader/ArrayBufReader.cs:9 | the span is the array from the current offset to its end, element by element |
| BufReaders.ArrayBufReader.Advance | src/reader/ArrayBufReader.cs:11-14 | the offset moves by exactly `count` |
| BufReaders.ArrayBufReader.FillBuffer | src/reader/ArrayBufReader.cs:16-19 | reports true exactly when `fillCount` bytes are available from the offset |
| Bytes.Pow256 | src/MsgPackWriter.cs:234-258 | powers of 256 are positive and at least 256 from exponent 1 on |
| Bytes.Pow256Values | src/MsgPackWriter.cs:234-258 | the bounds of 8-, 16-, 32- and 64-bit fields |
| Bytes.BigEndian | src/writer/MsgPackWriter.cs:302-329 | the big-endian form of a value has exactly the field width |
| Bytes.FromBigEndian | src/reader/MsgPackReader.cs:517-551 | a big-endian field of n bytes reads as a value below 256^n |
| Bytes.FromBigEndianOfBigEndian | src/reader/MsgPackReader.cs:517-551 | reading back a stored big-endian field gives the value that was stored |
| Bytes.BigEndianOfFromBigEndian | src/reader/MsgPackReader.cs:517-551 | every byte string is the big-endian form of the value it reads as |
| Bytes.BigEndianByte | src/MsgPackWriter.cs:234-258 | byte i of an n-byte big-endian field is the value shifted right by 8·(n−1−i) bits, truncated to a byte, as the old writer's shift loop computes it |
| Bytes.ToUnsigned | src/MsgPackWriter.cs:260-262 | the unsigned reinterpretation of a signed value fits the field and leaves non-negative values alone |
| Bytes.ToSigned | src/reader/MsgPackReader.cs:232-251 | the signed reinterpretation of a field fits the signed range and leaves values below the sign bit alone |
| Bytes.SignedUnsignedInverse | src/MsgPackWriter.cs:260-262 | casting a signed value to unsigned and back gives the value |
| Bytes.WrapInt32 | src/reader/MsgPackReader.cs:165 | C# `int` arithmetic: the result is congruent to the exact value modulo 2^32, and equals it when it fits |
| Bytes.HalfTowardZero | src/reader/MsgPackReader.Collections.cs:11-15 | C# integer division by 2 truncates toward zero |
| Formats.BoolEncoding | src/writer/MsgPackWriter.cs:20-23 | a bool is one byte, `0xc3` exactly when true |
| Formats.Payload | src/writer/MsgPackWriter.cs:274-300 | an integer's payload has the width of its format |
| Formats.EncodeInt | src/writer/MsgPackWriter.cs:274-300 | an encoded integer is its format's marker followed by a payload of the format's width |
| Formats.UIntEncoding | src/writer/MsgPackWriter.cs:274-300 | an unsigned integer takes 1 to 9 bytes |
| Formats.IntEncoding | src/writer/MsgPackWriter.cs:104-134 | a signed integer takes 1 to 9 bytes; a non-negative one is written exactly as the unsigned writer writes it |
| Formats.UIntEncodingTiers | src/writer/MsgPackWriter.cs:274-300 | the exact bytes of each unsigned tier: fixint up to 0x7f, then 0xcc/0xcd/0xce/0xcf with a 1/2/4/8-byte big-endian payload |
| Formats.IntEncodingTiers | src/writer/MsgPackWriter.cs:104-134 | the exact bytes of each negative tier: negative fixint from −32, then 0xd0/0xd1/0xd2/0xd3 with a two's-complement payload |
| Formats.UIntFormatIsMinimal | src/writer/MsgPackWriter.cs:274-300 | the chosen unsigned format holds the value, and no format that holds it is shorter |
| Formats.IntFormatIsMinimal | src/writer/MsgPackWriter.cs:104-134 | the chosen signed format holds the value, and no format that holds it is shorter |
| Formats.IntFormatSignedness | src/writer/MsgPackWriter.cs:104-134 | non-negative values always get an unsigned format and negative values always a signed one |
| Formats.LenFormatFor | src/writer/MsgPackWriter.cs:225-252 | the chosen length tier exists for the family and holds the length |
| Formats.Header | src/writer/MsgPackWriter.cs:225-252 | a length header is the marker plus the tier's length field, at most 5 bytes |
| Formats.HeaderIsMinimal | src/writer/MsgPackWriter.cs:63-79 | no length tier that could hold the length has a shorter length field than the chosen one |
| Formats.StrEncoding | src/writer/MsgPackWriter.cs:213-219 | a string is its header followed by its UTF-8 bytes |
| Formats.BinEncoding | src/writer/MsgPackWriter.cs:150-180 | a blob is its header followed by its bytes |
| Formats.HeaderMarkersDistinct | src/reader/MsgPackReader.cs:122-171 | headers of different families (string, blob, array, map) never start with the same byte |
| TypeInfos.GetFieldName | src/writer/MsgPackWriter.ISerializeType.cs:8-12 | a field name exists exactly for indices below FieldCount; other indices fail with ArgumentOutOfRange |
| TypeInfos.TryGetIndex | src/reader/MsgPackReader.ITypeDeserializer.cs:57 | the result is IndexNotFound exactly when no field has the name; otherwise it is the first field with that name |
| TypeInfos.FindFrom | src/reader/MsgPackReader.ITypeDeserializer.cs:57 | the first field from a start position with the name, or IndexNotFound exactly when there is none |
| Values.ScalarEncoding | src/writer/MsgPackWriter.ISerializeType.cs:25-113 | every scalar has an encoding except decimal, which fails with NotImplemented; integers take 1 to 9 bytes |
| Values.Then | src/writer/MsgPackWriter.ISerializeType.cs:19-23 | two writes in sequence succeed exactly when both do and produce the concatenation; the first error wins |
| Values.ThenStep | src/writer/MsgPackWriter.ISerializeType.cs:19-23 | extending a successful prefix by one more write appends that write's bytes or yields its error |
| Values.CollectionHeader | src/writer/MsgPackWriter.cs:29-61 | a collection header exists exactly for a known length and a list or dictionary kind; otherwise the error is InvalidOperation |
| Values.TypeHeader | src/writer/MsgPackWriter.cs:254-266 | the named writer accepts exactly custom types and enums, and the positional writer exactly enums and types with keys in declaration order; an enum has an empty header; the error is InvalidOperation |
| Values.FieldName | src/writer/MsgPackWriter.ISerializeType.cs:8-12 | a property name is written exactly for valid field indices; other indices fail with ArgumentOutOfRange |
| Values.EnumMemberEncoding | src/writer/MsgPackWriter.EnumSerializer.cs:15-37 | an enum member writes only integers; every other write throws InvalidOperation |
| Values.ElementsFailFast | src/writer/MsgPackWriter.ISerializeCollection.cs:58-60 | once an element fails, the whole collection fails with that error |
| Values.MembersFailFast | src/writer/MsgPackWriter.ISerializeType.cs:19-23 | once a member fails, the whole type fails with that error |
| Values.ElementsStep | src/writer/MsgPackWriter.ISerializeCollection.cs:58-60 | writing element i after the first i elements appends element i's bytes, or yields the collection's error |
| Values.MembersStep | src/writer/MsgPackWriter.ISerializeType.cs:19-23 | writing member i after the first i members appends member i's bytes, or yields the type's error |
| Values.ThenAssociative | src/writer/MsgPackWriter.ISerializeType.cs:19-23 | sequencing writes is associative |
| Values.MembersCons | src/writer/MsgPackWriter.ISerializeType.cs:19-23 | a type's members are its first member followed by the rest |
| Values.ElementsConcatenate | src/MsgPackWriter.ISerializeCollection.cs:11-14 | in a successful collection, element k's bytes come right after those of the first k elements |
| Values.LayoutsAgreeWithoutCustomTypes | src/MsgPackWriter.cs:20-65 | on every value with no custom type and no blob, the named and the positional writer produce the same bytes when the named one succeeds |
| Values.ElementsAgree | src/MsgPackWriter.cs:20-65 | the same agreement for a sequence of elements |
| Values.MembersAgree | src/MsgPackWriter.cs:78-82 | the same agreement for an enum's members |
| Writes.ElementWritten | src/writer/MsgPackWriter.ISerializeCollection.cs:58-60 | after one more element write, the buffer holds the encoding of one more element, or the collection's error with nothing more after it |
| Writes.MemberWritten | src/writer/MsgPackWriter.ISerializeType.cs:19-23 | after one more member write, the buffer holds the encoding of one more member, or the type's error with nothing more after it |
| Writer.StoreBigEndian | src/writer/MsgPackWriter.cs:239-250 | storing a big-endian field changes exactly those bytes of the span |
| Writer.StoreBytes | src/writer/MsgPackWriter.cs:217 | copying bytes into a span changes exactly that window |
| Writer.EstimatedOffset | src/writer/MsgPackWriter.cs:196-201 | for any length the source can write, the estimated offset is the header size that the string's UTF-16 length would need |
| Writer.EstimateNeverExceeds | src/writer/MsgPackWriter.cs:196-209 | the estimated header is never larger than the real one, so the copy on line 208 is never needed; the real header is at most estimate + body |
| Writer.StringAsWritten | src/writer/MsgPackWriter.cs:186-211 | the bytes the current WriteString commits are as many as a correct string encoding |
| Writer.StringAsWrittenInPlace | src/writer/MsgPackWriter.cs:202-210 | writing the body at the estimated offset and the header at the start gives the committed bytes that StringAsWritten describes |
| Writer.SameTierStringIsExact | src/writer/MsgPackWriter.cs:186-211 | when the UTF-16 and UTF-8 lengths fall in the same header tier, WriteString writes the correct encoding |
| Writer.TierCrossingStringCounterexample | src/writer/MsgPackWriter.cs:186-211 | a 31-unit string whose UTF-8 form is 32 bytes is written wrongly: the header overwrites the first body byte |
| Writer.LongBlobIsOverlong | src/writer/MsgPackWriter.cs:164-178 | a blob longer than 255 bytes is written longer than its encoding (261 bytes instead of 259 for 256 bytes) |
| Writer.MsgPackWriter.constructor | src/writer/MsgPackWriter.cs:14-18 | the writer appends to the given buffer and owns a fresh enum serializer |
| Writer.MsgPackWriter.WriteBool | src/writer/MsgPackWriter.cs:20-23 | appends the bool's encoding |
| Writer.MsgPackWriter.WriteNull | src/writer/MsgPackWriter.cs:135-138 | appends `0xc0` |
| Writer.MsgPackWriter.WriteBigEndian | src/writer/MsgPackWriter.cs:302-329 | appends the value's big-endian field of the given width |
| Writer.MsgPackWriter.WriteMarkedByte | src/writer/MsgPackWriter.cs:280-284 | appends a marker and one byte |
| Writer.MsgPackWriter.WriteMarkedBigEndian | src/writer/MsgPackWriter.cs:285-299 | appends a marker and a big-endian field |
| Writer.MsgPackWriter.WriteU64 | src/writer/MsgPackWriter.cs:274-300 | appends the minimal unsigned encoding |
| Writer.MsgPackWriter.WriteU8 | src/writer/MsgPackWriter.cs:25 | a byte is written as an unsigned integer |
| Writer.MsgPackWriter.WriteChar | src/writer/MsgPackWriter.cs:27 | a char is written as its 16-bit code as an unsigned integer |
| Writer.MsgPackWriter.WriteU16 | src/writer/MsgPackWriter.cs:268 | appends the minimal unsigned encoding |
| Writer.MsgPackWriter.WriteU32 | src/writer/MsgPackWriter.cs:270 | appends the minimal unsigned encoding |
| Writer.MsgPackWriter.WriteI64 | src/writer/MsgPackWriter.cs:104-134 | appends the minimal signed encoding |
| Writer.MsgPackWriter.WriteI8 | src/writer/MsgPackWriter.cs:182 | appends the minimal signed encoding |
| Writer.MsgPackWriter.WriteI16 | src/writer/MsgPackWriter.cs:98 | appends the minimal signed encoding |
| Writer.MsgPackWriter.WriteI32 | src/writer/MsgPackWriter.cs:100 | appends the minimal signed encoding |
| Writer.MsgPackWriter.WriteDecimal | src/writer/MsgPackWriter.cs:81-84 | fails with NotImplemented and writes nothing |
| Writer.MsgPackWriter.WriteMapLength | src/writer/MsgPackWriter.cs:63-79 | appends the minimal map header |
| Writer.MsgPackWriter.WriteCollection | src/writer/MsgPackWriter.cs:29-61 | returns a collection sink exactly when the collection header exists, after appending it; otherwise it fails with that header's error and writes nothing |
| Writer.MsgPackWriter.WriteType | src/writer/MsgPackWriter.cs:254-266 | a custom type appends its map header and returns the writer itself; an enum appends nothing and returns the enum serializer; any other kind fails with InvalidOperation and writes nothing |
| Writer.MsgPackWriter.WriteUtf8Header | src/writer/MsgPackWriter.cs:225-252 | stores the minimal string header at the start of the span and returns its size |
| Writer.MsgPackWriter.WriteUtf8 | src/writer/MsgPackWriter.cs:213-219 | appends the string encoding of the given UTF-8 bytes |
| Writer.MsgPackWriter.StoreMovedBody | src/writer/MsgPackWriter.cs:202-208 | corrected: the body is stored after the estimated header and then sits after the actual header, whether or not the two sizes differ |
| Writer.MsgPackWriter.MoveBytes | src/writer/MsgPackWriter.cs:206-208 | the copy overwrites the target range with the source range's old contents and nothing else |
| Writer.MsgPackWriter.PlaceString | src/writer/MsgPackWriter.cs:195-210 | corrected: places exactly the string's encoding in the reserved span and returns its size |
| Writer.MsgPackWriter.WriteString | src/writer/MsgPackWriter.cs:186-211 | corrected: appends exactly the string's encoding |
| Writer.MsgPackWriter.StoreStringAsWritten | src/writer/MsgPackWriter.cs:196-205 | as written: the body is stored after the header guessed from the UTF-16 length, then the header for the UTF-8 length over the region's start; the header is never smaller than the guess, so the body is never moved |
| Writer.MsgPackWriter.PlaceStringAsWritten | src/writer/MsgPackWriter.cs:195-210 | as written: places StringAsWritten of the stale reserved bytes in the span |
| Writer.MsgPackWriter.WriteStringAsWritten | src/writer/MsgPackWriter.cs:186-211 | as written: appends StringAsWritten of the stale bytes that were in the reserved window |
| Writer.MsgPackWriter.BinCode | src/writer/MsgPackWriter.cs:152-163 | the marker and prefix length agree with the blob header |
| Writer.MsgPackWriter.PlaceBin | src/writer/MsgPackWriter.cs:164-179 | corrected: places exactly the blob's encoding in the reserved span |
| Writer.MsgPackWriter.WriteBytes | src/writer/MsgPackWriter.cs:150-180 | corrected: appends exactly the blob's encoding |
| Writer.MsgPackWriter.CopyToReserved | src/writer/MsgPackWriter.cs:179 | writing into reserved bytes keeps the span's length and every byte outside the window |
| Writer.MsgPackWriter.FinishLongBinAsWritten | src/writer/MsgPackWriter.cs:166-179 | as written, for long blobs: the marker is stored at the start and the length field is appended after the reserved region |
| Writer.MsgPackWriter.WriteBytesAsWritten | src/writer/MsgPackWriter.cs:150-180 | as written: blobs up to 255 bytes are encoded correctly; longer ones commit BinAsWrittenSize bytes with the marker first and the length field last |
| Writer.MsgPackWriter.WritePropertyName | src/writer/MsgPackWriter.ISerializeType.cs:8-12 | appends the field's name as a string, or fails with ArgumentOutOfRange and writes nothing |
| Writer.MsgPackWriter.WriteScalar | src/writer/MsgPackWriter.ISerializeType.cs:25-113 | appends the scalar's encoding, or fails as that encoding does (over the corrected string and blob writes) |
| Writer.MsgPackWriter.WriteMember | src/writer/MsgPackWriter.ISerializeType.cs:19-23 | appends the field name followed by the value's encoding, or fails with the first error (over the corrected string and blob writes) |
| Writer.MsgPackWriter.End | src/writer/MsgPackWriter.ISerializeType.cs:14-17 | writes nothing |
| Writer.MsgPackWriter.SerializeValue | src/writer/MsgPackWriter.ISerializeCollection.cs:58-60 | appends the value's named encoding, or stops at its error (over the corrected string and blob writes) |
| Writer.MsgPackWriter.SerializeCollection | src/writer/MsgPackWriter.cs:29-61 | appends the collection header followed by every element's encoding, or stops at the first error (over the corrected string and blob writes) |
| Writer.MsgPackWriter.WriteThroughSink | src/writer/MsgPackWriter.cs:254-266 | a member written through the sink WriteType returned produces the member's encoding |
| Writer.MsgPackWriter.SerializeType | src/writer/MsgPackWriter.cs:254-266 | appends the type header followed by every member's encoding, or stops at the first error (over the corrected string and blob writes) |
| Writer.MsgPackWriter.WriteMembers | src/writer/MsgPackWriter.ISerializeType.cs:19-23 | the members written in order produce the encoding of the member list after the header (over the corrected string and blob writes) |
| Writer.SerCollection.constructor | src/writer/MsgPackWriter.ISerializeCollection.cs:6 | the sink writes to the given writer |
| Writer.SerCollection.WriteElement | src/writer/MsgPackWriter.ISerializeCollection.cs:13-69 | appends the element's encoding, or stops at its error (over the corrected string and blob writes) |
| Writer.SerCollection.End | src/writer/MsgPackWriter.ISerializeCollection.cs:8-11 | writes nothing |
| Writer.EnumSerializer.constructor | src/writer/MsgPackWriter.EnumSerializer.cs:8 | the serializer writes to the given writer |
| Writer.EnumSerializer.WriteMember | src/writer/MsgPackWriter.EnumSerializer.cs:15-37 | an integer member is written as an integer; any other member fails with InvalidOperation and writes nothing |
| Writer.EnumSerializer.End | src/writer/MsgPackWriter.EnumSerializer.cs:10-13 | writes nothing |
| PositionalWriter.MsgPackWriter.constructor | src/MsgPackWriter.cs:7-9 | the writer appends to the given buffer |
| PositionalWriter.MsgPackWriter.SerializeBool | src/MsgPackWriter.cs:11-14 | appends the bool's encoding |
| PositionalWriter.MsgPackWriter.SerializeNull | src/MsgPackWriter.cs:128-131 | appends `0xc0` |
| PositionalWriter.MsgPackWriter.WriteBigEndian | src/MsgPackWriter.cs:234-262 | the shift loop appends the value's big-endian field |
| PositionalWriter.MsgPackWriter.WriteMarkedByte | src/MsgPackWriter.cs:204-230 | appends a marker and one byte |
| PositionalWriter.MsgPackWriter.WriteMarkedBigEndian | src/MsgPackWriter.cs:204-230 | appends a marker and a big-endian field |
| PositionalWriter.MsgPackWriter.SerializeU64 | src/MsgPackWriter.cs:204-230 | appends the minimal unsigned encoding |
| PositionalWriter.MsgPackWriter.SerializeI64 | src/MsgPackWriter.cs:96-126 | appends the minimal signed encoding, which is the same as the unsigned one for non-negative values |
| PositionalWriter.MsgPackWriter.SerializeString | src/MsgPackWriter.cs:135-161 | appends the string's header followed by its UTF-8 bytes, one byte at a time |
| PositionalWriter.MsgPackWriter.AddEach | src/MsgPackWriter.cs:157-160 | the span becomes the old span followed by every given byte, in order |
| PositionalWriter.MsgPackWriter.WriteStrHeader | src/MsgPackWriter.cs:138-156 | appends the minimal string header |
| PositionalWriter.MsgPackWriter.WriteArrayHeader | src/MsgPackWriter.cs:182-197 | appends the minimal array header |
| PositionalWriter.MsgPackWriter.WriteMapHeader | src/MsgPackWriter.cs:20-65 | appends the minimal map header |
| PositionalWriter.MsgPackWriter.SerializeDecimal | src/MsgPackWriter.cs:67-70 | fails with NotImplemented and writes nothing |
| PositionalWriter.MsgPackWriter.SerializeScalar | src/MsgPackWriter.cs:11-18 | appends the scalar's encoding, or fails as that encoding does |
| PositionalWriter.MsgPackWriter.SerializeCollection | src/MsgPackWriter.cs:20-65 | appends the collection header, or fails with InvalidOperation and writes nothing |
| PositionalWriter.MsgPackWriter.SerializeType | src/MsgPackWriter.cs:163-198 | succeeds exactly when no `[Key]` attribute is out of declaration order, appending an array header of FieldCount; otherwise fails with InvalidOperation and writes nothing |
| PositionalWriter.MsgPackWriter.End | src/MsgPackWriter.ISerializeCollection.cs:6-9 | writes nothing |
| PositionalWriter.MsgPackWriter.SerializeElement | src/MsgPackWriter.ISerializeCollection.cs:11-14 | appends the element's positional encoding, or stops at its error |
| PositionalWriter.MsgPackWriter.SerializeEnumValue | src/MsgPackWriter.cs:78-82 | an enum's underlying value is written as the value itself |
| PositionalWriter.MsgPackWriter.SerializeMember | src/MsgPackWriter.cs:78-82 | one member produces its positional member encoding |
| PositionalWriter.MsgPackWriter.SerializeValue | src/MsgPackWriter.ISerializeCollection.cs:11-14 | appends the value's positional encoding, or stops at its error |
| PositionalWriter.MsgPackWriter.SerializeCollectionValue | src/MsgPackWriter.cs:20-65 | appends the collection header followed by every element's encoding, or stops at the first error |
| PositionalWriter.MsgPackWriter.SerializeTypeValue | src/MsgPackWriter.cs:163-198 | appends the array header followed by every member's encoding, or stops at the first error |
| PositionalWriter.MsgPackWriter.SerializeMembers | src/MsgPackWriter.cs:163-198 | the members written in order produce the encoding of the member list after the header |
| Serializer.Serialize | src/MsgPackSerializer.cs:7-23 | returns exactly the named encoding of the value, or its error (over the corrected string and blob writes) |
| Decoding.ByteAt | src/reader/MsgPackReader.cs:74-79 | reads the byte at the position when there is one, otherwise EndOfStream |
| Decoding.BigEndianAt | src/reader/MsgPackReader.cs:517-551 | reads an n-byte big-endian field when n bytes remain, returning the value whose encoding they are; otherwise EndOfStream |
| Decoding.BoolAt | src/reader/MsgPackReader.cs:38-52 | a bool is read only from a byte that is a bool's encoding; otherwise EndOfStream or an unexpected-marker error |
| Decoding.BoolRoundTrip | src/reader/MsgPackReader.cs:38-52 | a written bool reads back |
| Decoding.MarkerIdentifiesFormat | src/reader/MsgPackReader.cs:89-103 | a marker determines the integer format that wrote it |
| Decoding.DecodeInt | src/reader/MsgPackReader.cs:294-313 | a decoded payload is a value of that format's range |
| Decoding.IntAt | src/reader/MsgPackReader.cs:294-313 | an integer read succeeds only on an accepted marker with its full payload, consuming exactly that; otherwise EndOfStream or an unexpected-marker error naming a refused marker |
| Decoding.IntRoundTrip | src/reader/MsgPackReader.cs:294-313 | an integer written in any accepted format reads back and consumes exactly its encoding |
| Decoding.PayloadRoundTrip | src/reader/MsgPackReader.cs:517-551 | decoding a format's marker and payload gives back the value |
| Decoding.IntRefused | src/reader/MsgPackReader.cs:315-324 | an integer in a format the read does not accept fails with an error naming its marker |
| Decoding.IntAtWiden | src/reader/MsgPackReader.cs:262-281 | a read accepting more formats agrees with a narrower one wherever the narrower one succeeds or runs out of input |
| Decoding.UnsignedReadsAccept | src/reader/MsgPackReader.cs:438-515 | ReadByte, ReadU16, ReadU32 and ReadU64 accept what the writer writes for a value exactly when the value fits the C# type |
| Decoding.SignedReadsAccept | src/reader/MsgPackReader.cs:215-324 | ReadSByte accepts the writer's output exactly for −128..127; ReadI16, ReadI32 and ReadI64 accept it exactly up to 0xff, 0xffff and 0xffffffff |
| Decoding.IntEncodingReadBack | src/reader/MsgPackReader.cs:294-313 | a written signed integer reads back when its format is accepted, and is otherwise refused with its marker |
| Decoding.ReadI16RefusesWriteI16Of256 | src/reader/MsgPackReader.cs:232-251 | WriteI16(256) writes `cd 01 00`, which ReadI16 refuses |
| Decoding.IntAtRange | src/reader/MsgPackReader.cs:215-313 | every integer read returns a value in the range of its C# type |
| Decoding.StrHeaderAt | src/reader/MsgPackReader.cs:357-383 | a string length prefix takes 1 to 5 bytes and yields a C# `int` |
| Decoding.StrAt | src/reader/MsgPackReader.cs:357-391 | a string read returns exactly the bytes that follow its header, up to the returned position |
| Decoding.StrRoundTrip | src/reader/MsgPackReader.cs:357-391 | a written string reads back as its UTF-8 bytes and consumes exactly its encoding |
| Decoding.ArrayHeaderAt | src/reader/MsgPackReader.cs:124-143 | an array header takes 1 to 5 bytes and yields a C# `int`, or fails with EndOfStream or the marker |
| Decoding.MapHeaderAt | src/reader/MsgPackReader.cs:146-164 | a map header takes 1 to 5 bytes and yields a C# `int`, or fails with EndOfStream or the marker |
| Decoding.HeaderRoundTrip | src/reader/MsgPackReader.cs:122-171 | a written array or map header reads back with its length |
| Decoding.CollectionAt | src/reader/MsgPackReader.cs:122-171 | a collection is read only for list and dictionary kinds, recording which; any other kind fails with UnexpectedKind (the source's plain `Exception`) |
| Decoding.CollectionSizeRoundTrip | src/reader/MsgPackReader.Collections.cs:11-15 | a written collection header reads back; a map's seed holds twice the length, and SizeOpt returns the written length |
| Decoding.HugeMapSeedWraps | src/reader/MsgPackReader.cs:165 | for maps of 2^30 entries or more, doubling the length overflows C# `int` to a negative number |
| Decoding.TypeHeaderAt | src/reader/MsgPackReader.cs:398-428 | a type header succeeds only with the exact field count |
| Decoding.SmallTypeHeaderRoundTrip | src/reader/MsgPackReader.cs:401-408 | a type with at most 15 fields reads back from a fixarray or fixmap header |
| Decoding.MidSizeTypeHeaderAlwaysFails | src/reader/MsgPackReader.cs:401-428 | a type with 16 to 255 fields never reads: no fix header holds its count |
| Decoding.LargeTypeHeaderRoundTrip | src/reader/MsgPackReader.cs:409-428 | a type with 256 or more fields reads back from an array header and is refused after a map header |
| Decoding.TypeAt | src/reader/MsgPackReader.cs:393-436 | a custom type reads its header; an enum reads nothing; any other kind fails with UnexpectedKind (the source's plain `Exception`) |
| Decoding.NilAt | src/reader/MsgPackReader.cs:326-336 | reports null exactly at `0xc0`, consuming it; any other byte is left unread |
| Decoding.NilRoundTrip | src/reader/MsgPackReader.cs:326-336 | a written null reads back as null and is refused by the integer, bool and string reads |
| Decoding.ScalarAt | src/reader/MsgPackReader.ITypeDeserializer.cs:12-40 | decimals fail with NotImplemented; a successful read consumes at least one byte and yields an item of the requested kind |
| Decoding.TypeIndexAt | src/reader/MsgPackReader.ITypeDeserializer.cs:45-73 | a custom type answers EndOfType exactly after FieldCount keys, and otherwise a field index or IndexNotFound with an error name; any other kind except enum reports IndexNotFound and reads nothing |
| Decoding.KeyRoundTrip | src/reader/MsgPackReader.ITypeDeserializer.cs:54-60 | a key the named writer wrote for field i is found again: at field i when no earlier field shares its name, otherwise at the earlier field of that name |
| Decoding.UnknownKeysOfEqualLengthLookAlike | src/reader/MsgPackReader.ITypeDeserializer.cs:58 | two unknown keys of equal length get the same error name, since the name describes only the span's length |
| Reader.MsgPackReader.constructor | src/reader/MsgPackReader.cs:17-22 | the reader reads from the given buffer |
| Reader.MsgPackReader.RefillNoEof | src/reader/MsgPackReader.cs:55-62 | succeeds with the rest of the input exactly when enough bytes remain; otherwise EndOfStream |
| Reader.MsgPackReader.PeekByteOrThrow | src/reader/MsgPackReader.cs:64-72 | returns the next byte without consuming it, or EndOfStream |
| Reader.MsgPackReader.EatByteOrThrow | src/reader/MsgPackReader.cs:74-79 | follows ByteAt |
| Reader.MsgPackReader.ReadBool | src/reader/MsgPackReader.cs:38-52 | follows BoolAt |
| Reader.MsgPackReader.ReadBigEndian | src/reader/MsgPackReader.cs:517-551 | follows BigEndianAt |
| Reader.MsgPackReader.TryReadByteAfter | src/reader/MsgPackReader.cs:89-103 | after a marker has been consumed, reads a positive fixint or `0xcc` integer, or reports the marker unread |
| Reader.MsgPackReader.TryReadByte | src/reader/MsgPackReader.cs:84-87 | reads a positive fixint or `0xcc` integer, or reports the marker for the next read in the chain |
| Reader.MsgPackReader.TryReadU16 | src/reader/MsgPackReader.cs:449-463 | additionally accepts `0xcd` |
| Reader.MsgPackReader.TryReadU32 | src/reader/MsgPackReader.cs:465-480 | additionally accepts `0xce` |
| Reader.MsgPackReader.TryReadU64 | src/reader/MsgPackReader.cs:482-497 | additionally accepts `0xcf` |
| Reader.MsgPackReader.TryReadSbyte | src/reader/MsgPackReader.cs:215-230 | reads a fixint or `0xd0` integer, or reports the marker |
| Reader.MsgPackReader.TryReadI16 | src/reader/MsgPackReader.cs:232-251 | additionally accepts `0xcc` and `0xd1` |
| Reader.MsgPackReader.TryReadI32 | src/reader/MsgPackReader.cs:262-281 | additionally accepts `0xcd` and `0xd2` |
| Reader.MsgPackReader.TryReadI64 | src/reader/MsgPackReader.cs:294-313 | additionally accepts `0xce` and `0xd3` |
| Reader.MsgPackReader.ReadInt | src/reader/MsgPackReader.cs:105-120 | each public integer read (ReadByte, ReadChar, ReadU16/U32/U64, ReadSByte, ReadI16/I32/I64) follows IntAt with its accepted formats |
| Reader.MsgPackReader.ReadStrLength | src/reader/MsgPackReader.cs:357-383 | follows StrHeaderAt |
| Reader.MsgPackReader.ReadUtf8Span | src/reader/MsgPackReader.cs:357-391 | follows StrAt |
| Reader.MsgPackReader.ReadScalar | src/reader/MsgPackReader.cs:347-355 | follows ScalarAt: ReadString, ReadDecimal, ReadBool or the integer read of the requested kind |
| Reader.MsgPackReader.ReadNullableRef | src/reader/MsgPackReader.cs:326-336 | follows NilAt |
| Reader.MsgPackReader.ReadCollection | src/reader/MsgPackReader.cs:122-171 | follows CollectionAt |
| Reader.MsgPackReader.ReadType | src/reader/MsgPackReader.cs:393-436 | follows TypeAt |
| Cursors.DeserializeType.constructor | src/reader/MsgPackReader.ITypeDeserializer.cs:6-10 | a type cursor starts with no keys read |
| Cursors.DeserializeType.TryReadIndex | src/reader/MsgPackReader.ITypeDeserializer.cs:45-73 | follows TypeIndexAt; the key count grows by one for each key read from a custom type |
| Cursors.DeserializeType.ReadScalar | src/reader/MsgPackReader.ITypeDeserializer.cs:12-40 | follows ScalarAt |
| Cursors.DeserializeType.SkipValue | src/reader/MsgPackReader.ITypeDeserializer.cs:42-43 | fails with NotImplemented |
| Cursors.DeserializeCollection.constructor | src/reader/MsgPackReader.Collections.cs:8-10 | the cursor starts at index 0 with the seed's length and kind |
| Cursors.DeserializeCollection.TryReadIndex | src/reader/MsgPackReader.Collections.cs:115-123 | returns the current index while it is below the length, then EndOfType; no error name |
| Cursors.DeserializeCollection.ReadScalar | src/reader/MsgPackReader.Collections.cs:17-113 | follows ScalarAt; after a successful read the index grows by one (as a C# `int`) |
| Cursors.DeserializeCollection.SkipValue | src/reader/MsgPackReader.Collections.cs:132-135 | fails with NotImplemented |
| Cursors.LegacyDeserializeCollection.constructor | src/reader/MsgPackReader.IDeserializeCollection.cs:6-8 | the cursor starts at index 0 with the seed's length and kind |
| Cursors.LegacyDeserializeCollection.TryReadValue | src/reader/MsgPackReader.IDeserializeCollection.cs:14-24 | past the end it returns no value and reads nothing; otherwise it reads one element and advances the index |
| SampleTypes.FieldOf | bench/SampleTypes.cs:21-54 | each Location field holds an item of that field's type |
| SampleTypes.Assign | bench/SampleTypes.cs:97-132 | assigning field k sets that field, keeps the other eight and sets bit k of the mask |
| SampleTypes.Deserialize | bench/SampleTypes.cs:77-159 | follows LocationAt: the header, then the key loop, then the mask check |
| SampleTypes.BitSet | bench/SampleTypes.cs:99-131 | setting bit k makes bit m set exactly when m is k or it was set; the mask stays within nine bits |
| SampleTypes.AssignLastWins | bench/SampleTypes.cs:97-132 | a field read twice keeps the second value; the mask does not change again |
| SampleTypes.MaskFull | bench/SampleTypes.cs:141-144 | the mask equals 0b1_1111_1111 exactly when every field has been seen |
| SampleTypes.FieldCase | bench/SampleTypes.cs:97-132 | a known key followed by a readable value assigns that field and continues the loop |
| SampleTypes.FieldRefused | bench/SampleTypes.cs:97-132 | a known key whose value cannot be read ends the loop with that error |
| SampleTypes.UnknownKey | bench/SampleTypes.cs:133-135 | an unknown key ends the loop: skipping values is not implemented |
| SampleTypes.FieldsEnd | bench/SampleTypes.cs:93-96 | after nine keys the loop stops without reading |
| SampleTypes.FieldsOutcome | bench/SampleTypes.cs:136-137 | the default branch is never taken, and the mask stays within nine bits |
| SampleTypes.LocationNamesDistinct | bench/SampleTypes.cs:62-75 | Location's descriptor is a custom type of nine fields whose serialized names are pairwise distinct |
| SampleTypes.LocationKeyFound | bench/SampleTypes.cs:62-75 | each written Location key is looked up as its own field |
| SampleTypes.LocationAccepted | bench/SampleTypes.cs:141-144 | Deserialize succeeds exactly when the header reads, the loop ends without error and all nine fields were seen |

## Left out

- Floating point: `WriteF32`/`WriteF64`, `SerializeDouble`/`SerializeFloat` and `ReadF32`/`ReadF64` are not modelled, because the model has no IEEE 754 arithmetic.
- UTF-16 to UTF-8 transcoding: a string is given as its UTF-8 bytes plus its UTF-16 length. Invalid surrogates, which the encoder rejects, are not modelled.
- `DateTime`/`DateTimeOffset` formatting and parsing are not modelled. They go through the framework's string formatting.
- The generated `ISerialize`/`IDeserialize` proxies are represented by data: a `Values.Value` is the sequence of calls a proxy makes. `ReadValue`/`WriteField` recursion into nested types on the reading side (`ReadAny`, `ReadValue<T>`) is not modelled; reads are of scalars, collections and type headers.
- `ArrayPool<byte>.Shared` is modelled as allocating fresh arrays. Arrays given back are recorded in a ghost set. Pool reuse and aliasing between renters are not modelled.
- `SkipValue` on every cursor is modelled only as the NotImplemented failure the source throws.
- The reader's `IDisposable` behaviour and the `IByteReader` variant are not part of this model.
- PositionalWriter: the older writer's `ISerializeType` half is not part of this model. A custom type's fields are written as bare values after the array header.
- PositionalWriter: blobs are excluded (`HasNoBlob`) because the older `ISerializer` has no bytes write.
- Reader.MsgPackReader.ReadUtf8Span: a negative 32-bit length (`0xdb` with the top bit set) fails with ArgumentOutOfRange, as the source's final slice does; the backward `Advance` the source performs before that slice throws is not modelled.
- Cursors.DeserializeType: its key counter is an unbounded integer, which is sound because it never exceeds FieldCount.
- ScratchBuffers.ScratchBuffer.WithCapacity: the capacity is a natural number, so the ArgumentOutOfRange the source throws for a negative capacity is not modelled.
- `SizeOpt` of the cursors and the decoding helpers `SizeOpt`, `NextCount`, `IntFormatOfMarker` and `FormatsOf` have no row; they are one-line definitions used by the contracts above.
- Helpers not shown in the source files (`WriteUtf8String`, `WriteByte`, `WriteSByte`, `ReadU8`, `ReadI8` and the like) are taken to mean the shown method of the same name and width.
- `ISerdeInfo` reflection is modelled as a `TypeInfos.TypeInfo` datatype: kind, field names and `[Key]` attributes.
- Serializer.Serialize: the two `Serialize` overloads are one method; the proxy argument is part of the value.
- Serializer.Serialize: its result is stated for the corrected `WriteString` and `WriteBytes` of "## Findings". Over the source's own string and blob writes, a value holding a string whose header tier differs from the estimate, or a blob over 255 bytes, serializes to other bytes. The contract does not say that the buffer goes back to the pool; the body disposes it on both paths.
- ScratchBuffers.ScratchBuffer.EnsureCapacity: once the buffer holds 2^30 bytes or more, the source's growth asks the pool for a negative size and throws; a request beyond `int.MaxValue` also throws. In both cases the model rents exactly the requested size instead of failing.
- ScratchBuffers.ScratchBuffer.GetAppendSpan: `count + size` is an unbounded integer. In the source it is an `int` that can wrap, after which the returned slice throws. The model does not capture that.
- Values.Str: only strings whose reservation `GetMaxByteCount(length) + 5` fits an `int` are modelled. For longer strings the source throws `ArgumentOutOfRangeException` or `OverflowException`, and the model has no value for them.
- Values.Length: a collection length is absent or a non-negative `int`. The source writes a negative length as `(byte)(0x90 | length)` or `(byte)(0x80 | length)`, for example `0xff` for -1, and so does the older writer. Negative lengths are not modelled.
- SampleTypes.LocationAccepted: a full write-then-read round trip of a `Location` is not stated. Only the per-key, per-field and per-step lemmas are proved, together with the acceptance condition.

## Findings

| source | as written | input that shows it | evidently intended | confidence | as-written member | corrected member |
|---|---|---|---|---|---|---|
| src/writer/MsgPackWriter.cs:186-211 | the header size is estimated from the UTF-16 length; when the UTF-8 length needs a larger header, the header overwrites the first body bytes and a trailing unwritten byte is committed | a string of 31 UTF-16 units whose UTF-8 form is `c3 a9` followed by 30 × `41` (32 bytes) | the header is chosen from the UTF-8 length and the body moved behind it | not executed | Writer.MsgPackWriter.WriteStringAsWritten, Writer.TierCrossingStringCounterexample | Writer.MsgPackWriter.WriteString |
| src/writer/MsgPackWriter.cs:150-180 | for more than 255 bytes the length field is written by `WriteBigEndian`, which appends after the reserved region instead of filling the prefix | a blob of 256 bytes is committed as 261 bytes instead of 259 | the length field is stored at offset 1 of the reserved span | not executed | Writer.MsgPackWriter.WriteBytesAsWritten, Writer.LongBlobIsOverlong | Writer.MsgPackWriter.WriteBytes |
