/** The values a serializer is handed, and the bytes each writer generation
    produces for them. In the codec a value reaches the writer through a
    generated per-type proxy that calls the writer's scalar writes, opens a
    collection or a type, and writes elements and members one call at a time;
    `Value` records that sequence of calls as data, so the writers' methods can
    be proved to emit `Encoding(layout, v)`.

    The newer writer (`Named` layout) writes a custom type as a map from field
    name to value; the older one (`Positional` layout) writes it as an array of
    bare values after checking that `[Key(i)]` annotations follow declaration
    order. Scalars, collections and enums are written the same way by both. */
module Values {
  import opened Bytes
  import opened Results
  import opened Formats
  import opened TypeInfos

  // ------------------------------------------------------------------ strings

  /** A .NET string as the writer sees it: its length in UTF-16 code units
      (what `string.Length` counts) and its UTF-8 encoding. */
  datatype Text = Text(utf16Length: nat, utf8: seq<byte>)

  /** `UTF8Encoding.GetMaxByteCount`: three bytes per code unit, plus one
      code unit's worth for a pending surrogate. */
  function MaxByteCount(utf16Length: nat): nat
  {
    3 * (utf16Length + 1)
  }

  /** Every UTF-16 code unit of a well-formed string takes one to three UTF-8
      bytes. Only strings whose reservation `MaxByteCount + 5` fits an `int`
      are modelled: for longer ones the source's `GetMaxByteCount` or its
      `checked` addition throws. */
  type Str = t: Text | t.utf16Length <= |t.utf8| <= 3 * t.utf16Length && MaxByteCount(t.utf16Length) + 5 < 0x8000_0000
    witness Text(0, [])

  // ------------------------------------------------------------------ scalars

  /** One call of a scalar write: the C# overload it selects and its argument. */
  datatype Scalar =
    | SBool(boolValue: bool)
    | SChar(charValue: u16)
    | SByte(byteValue: byte)
    | SU16(u16Value: u16)
    | SU32(u32Value: u32)
    | SU64(u64Value: u64)
    | SSByte(sbyteValue: i8)
    | SI16(i16Value: i16)
    | SI32(i32Value: i32)
    | SI64(i64Value: i64)
    | SString(text: Str)
    | SNull
    | SDecimal

  /** The integer writes, the only ones the enum sink forwards. */
  predicate IsInteger(s: Scalar)
  {
    s.SByte? || s.SU16? || s.SU32? || s.SU64? || s.SSByte? || s.SI16? || s.SI32? || s.SI64?
  }

  /** The bytes a scalar write appends (the same in both writers), or the
      exception it throws: decimal is not implemented. Characters and unsigned
      values go through WriteU64, signed values through WriteI64. */
  function ScalarEncoding(s: Scalar): (r: Result<seq<byte>>)
    ensures r.Err? <==> s.SDecimal?
    ensures r.Err? ==> r.error == NotImplemented
    ensures IsInteger(s) ==> r.Ok? && 1 <= |r.value| <= 9
  {
    match s
    case SBool(b) => Ok(BoolEncoding(b))
    case SChar(c) => Ok(UIntEncoding(c))
    case SByte(b) => Ok(UIntEncoding(b))
    case SU16(x) => Ok(UIntEncoding(x))
    case SU32(x) => Ok(UIntEncoding(x))
    case SU64(x) => Ok(UIntEncoding(x))
    case SSByte(x) => Ok(IntEncoding(x))
    case SI16(x) => Ok(IntEncoding(x))
    case SI32(x) => Ok(IntEncoding(x))
    case SI64(x) => Ok(IntEncoding(x))
    case SString(t) => Ok(StrEncoding(t.utf8))
    case SNull => Ok([NilMarker])
    case SDecimal => Err(NotImplemented)
  }

  // ------------------------------------------------------------------- values

  /** A collection length as the writers receive it (`int?`): absent, or a
      non-negative `int`. Negative lengths, which the source writes as
      `(byte)(0x90 | length)` or `(byte)(0x80 | length)`, are not modelled. */
  type Length = Option<len32>

  /** A binary blob whose length fits an `int`. */
  type Blob = s: seq<byte> | |s| < 0x8000_0000

  datatype Value =
    | Prim(scalar: Scalar)
      /** WriteBytes. */
    | Bin(data: Blob)
      /** WriteCollection(info, length), one element write per element, End. */
    | Collection(info: TypeInfo, length: Length, elements: seq<Value>)
      /** WriteType(info), one field or enum write per member, End. */
    | Typed(info: TypeInfo, members: seq<Member>)

  /** A member write: the field index it names and the value it writes. */
  datatype Member = Member(index: int, value: Value)

  /** The layout of a custom type on the wire. */
  datatype Layout = Named | Positional

  /** The older serializer interface has no blob write, so a value it is
      handed never contains one. */
  predicate HasNoBlob(v: Value)
  {
    match v
    case Prim(_) => true
    case Bin(_) => false
    case Collection(_, _, es) => forall i | 0 <= i < |es| :: HasNoBlob(es[i])
    case Typed(_, ms) => forall i | 0 <= i < |ms| :: HasNoBlob(ms[i].value)
  }

  /** The values a writer of the given layout can be handed. */
  predicate Writable(layout: Layout, v: Value)
  {
    layout.Named? || HasNoBlob(v)
  }

  // ------------------------------------------------------- composing results

  /** Two writes in sequence: the bytes of both, or the first failure. */
  function Then(first: Result<seq<byte>>, second: Result<seq<byte>>): (r: Result<seq<byte>>)
    ensures r.Ok? <==> first.Ok? && second.Ok?
    ensures r.Ok? ==> r.value == first.value + second.value
    ensures first.Err? ==> r == first
    ensures first.Ok? && second.Err? ==> r == second
  {
    match first
    case Err(e) => Err(e)
    case Ok(a) => match second
      case Err(e) => Err(e)
      case Ok(b) => Ok(a + b)
  }

  /** Sequencing is associative where it matters to a writer that keeps a
      running total: one more write after `head` then `init` either extends
      what those two wrote or fails with its own error. */
  lemma ThenStep(head: Result<seq<byte>>, init: Result<seq<byte>>, next: Result<seq<byte>>, acc: seq<byte>)
    requires Then(head, init) == Ok(acc)
    ensures next.Ok? ==> Then(head, Then(init, next)) == Ok(acc + next.value)
    ensures next.Err? ==> Then(head, Then(init, next)) == next
  {
    if next.Ok? {
      assert head.value + (init.value + next.value) == acc + next.value;
    }
  }

  // ---------------------------------------------------------------- encodings

  predicate IsCollectionKind(kind: InfoKind)
  {
    kind == Enumerable || kind == Dictionary
  }

  /** What WriteCollection (newer) and SerializeCollection (older) append:
      an array header for a list, a map header for a dictionary. An unknown
      length, or a kind that is not a collection, is an InvalidOperation
      raised before any byte is written. */
  function CollectionHeader(info: TypeInfo, length: Length): (r: Result<seq<byte>>)
    ensures r.Ok? <==> length.Some? && IsCollectionKind(info.kind)
    ensures r.Err? ==> r.error == InvalidOperation
  {
    if length.None? then Err(InvalidOperation)
    else if info.kind == Enumerable then Ok(Header(ArrayFamily, length.value))
    else if info.kind == Dictionary then Ok(Header(MapFamily, length.value))
    else Err(InvalidOperation)
  }

  /** What WriteType (newer) and SerializeType / SerializeEnumValue (older)
      append before the members. The newer writer opens a custom type with a
      map header of FieldCount entries, writes nothing for an enum and
      refuses every other kind. The older writer writes nothing before an
      enum's underlying value; for anything else it refuses a misplaced
      `[Key]` and otherwise opens an array of FieldCount elements. */
  function TypeHeader(layout: Layout, info: TypeInfo): (r: Result<seq<byte>>)
    ensures r.Err? ==> r.error == InvalidOperation
    ensures info.kind == Enum ==> r == Ok([])
    ensures layout.Named? ==> (r.Ok? <==> info.kind == CustomType || info.kind == Enum)
    ensures layout.Positional? ==> (r.Ok? <==> info.kind == Enum || KeysInDeclarationOrder(info))
  {
    match layout
    case Named =>
      if info.kind == CustomType then Ok(Header(MapFamily, FieldCount(info)))
      else if info.kind == Enum then Ok([])
      else Err(InvalidOperation)
    case Positional =>
      if info.kind == Enum then Ok([])
      else if !KeysInDeclarationOrder(info) then Err(InvalidOperation)
      else Ok(Header(ArrayFamily, FieldCount(info)))
  }

  /** The bytes a writer of the given layout appends for v, or the first
      exception it raises. */
  function Encoding(layout: Layout, v: Value): (r: Result<seq<byte>>)
    requires Writable(layout, v)
    decreases v, 1
  {
    match v
    case Prim(s) => ScalarEncoding(s)
    case Bin(data) => Ok(BinEncoding(data))
    case Collection(info, length, es) =>
      Then(CollectionHeader(info, length), Elements(layout, es))
    case Typed(info, ms) =>
      Then(TypeHeader(layout, info), Members(layout, info, ms))
  }

  /** The elements of a collection, written back to back with no separator;
      the element index plays no part. */
  function Elements(layout: Layout, es: seq<Value>): (r: Result<seq<byte>>)
    requires forall i | 0 <= i < |es| :: Writable(layout, es[i])
    decreases es, 0
  {
    if es == [] then Ok([])
    else Then(Elements(layout, es[..|es| - 1]), Encoding(layout, es[|es| - 1]))
  }

  /** The members of a type, in the order they are written. */
  function Members(layout: Layout, info: TypeInfo, ms: seq<Member>): (r: Result<seq<byte>>)
    requires forall i | 0 <= i < |ms| :: Writable(layout, ms[i].value)
    decreases ms, 0
  {
    if ms == [] then Ok([])
    else Then(Members(layout, info, ms[..|ms| - 1]), MemberEncoding(layout, info, ms[|ms| - 1]))
  }

  /** One member write. In the named layout a custom type's field is its
      name as a string followed by its value, and an enum's member is its
      underlying integer (any other write on the enum sink is an
      InvalidOperation). In the positional layout a member is its bare value. */
  function MemberEncoding(layout: Layout, info: TypeInfo, m: Member): (r: Result<seq<byte>>)
    requires Writable(layout, m.value)
    decreases m, 0
  {
    match layout
    case Named =>
      if info.kind == Enum then EnumMemberEncoding(m.value)
      else Then(FieldName(info, m.index), Encoding(layout, m.value))
    case Positional => Encoding(layout, m.value)
  }

  /** WritePropertyName: the field's serialized name, written as a string. */
  function FieldName(info: TypeInfo, index: int): (r: Result<seq<byte>>)
    ensures r.Ok? <==> 0 <= index < FieldCount(info)
    ensures r.Err? ==> r.error == ArgumentOutOfRange
  {
    if 0 <= index < FieldCount(info) then Ok(StrEncoding(info.fields[index].name))
    else Err(ArgumentOutOfRange)
  }

  /** A write on the enum sink: integers are forwarded to the writer, every
      other write is refused. */
  function EnumMemberEncoding(v: Value): (r: Result<seq<byte>>)
    ensures r.Ok? <==> v.Prim? && IsInteger(v.scalar)
    ensures r.Err? ==> r.error == InvalidOperation
  {
    if v.Prim? && IsInteger(v.scalar) then ScalarEncoding(v.scalar) else Err(InvalidOperation)
  }

  // ------------------------------------------------------------------ lemmas

  /** Once an element fails, the collection fails with that same error:
      the writer stops at the first exception. */
  lemma {:induction false} ElementsFailFast(layout: Layout, es: seq<Value>, i: nat)
    requires forall j | 0 <= j < |es| :: Writable(layout, es[j])
    requires i <= |es| && Elements(layout, es[..i]).Err?
    ensures Elements(layout, es) == Elements(layout, es[..i])
    decreases |es|
  {
    if i < |es| {
      var init := es[..|es| - 1];
      assert init[..i] == es[..i];
      ElementsFailFast(layout, init, i);
    } else {
      assert es[..i] == es;
    }
  }

  /** Once a member fails, the type fails with that same error. */
  lemma {:induction false} MembersFailFast(layout: Layout, info: TypeInfo, ms: seq<Member>, i: nat)
    requires forall j | 0 <= j < |ms| :: Writable(layout, ms[j].value)
    requires i <= |ms| && Members(layout, info, ms[..i]).Err?
    ensures Members(layout, info, ms) == Members(layout, info, ms[..i])
    decreases |ms|
  {
    if i < |ms| {
      var init := ms[..|ms| - 1];
      assert init[..i] == ms[..i];
      MembersFailFast(layout, info, init, i);
    } else {
      assert ms[..i] == ms;
    }
  }

  /** One more element after a prefix whose bytes, behind `head`, are `acc`:
      either its bytes extend `acc`, or its failure is the whole collection's. */
  lemma {:induction false} ElementsStep(layout: Layout, es: seq<Value>, i: nat,
                                        head: Result<seq<byte>>, acc: seq<byte>)
    requires forall j | 0 <= j < |es| :: Writable(layout, es[j])
    requires i < |es| && Then(head, Elements(layout, es[..i])) == Ok(acc)
    ensures Encoding(layout, es[i]).Ok? ==>
      Then(head, Elements(layout, es[..i + 1])) == Ok(acc + Encoding(layout, es[i]).value)
    ensures Encoding(layout, es[i]).Err? ==>
      Then(head, Elements(layout, es)) == Encoding(layout, es[i])
  {
    var next := Encoding(layout, es[i]);
    assert Elements(layout, es[..i + 1]) == Then(Elements(layout, es[..i]), next) by {
      assert es[..i + 1][..i] == es[..i];
    }
    ThenStep(head, Elements(layout, es[..i]), next, acc);
    if next.Err? {
      ElementsFailFast(layout, es, i + 1);
    }
  }

  /** The same for one more member of a type. */
  lemma {:induction false} MembersStep(layout: Layout, info: TypeInfo, ms: seq<Member>, i: nat,
                                       head: Result<seq<byte>>, acc: seq<byte>)
    requires forall j | 0 <= j < |ms| :: Writable(layout, ms[j].value)
    requires i < |ms| && Then(head, Members(layout, info, ms[..i])) == Ok(acc)
    ensures MemberEncoding(layout, info, ms[i]).Ok? ==>
      Then(head, Members(layout, info, ms[..i + 1])) == Ok(acc + MemberEncoding(layout, info, ms[i]).value)
    ensures MemberEncoding(layout, info, ms[i]).Err? ==>
      Then(head, Members(layout, info, ms)) == MemberEncoding(layout, info, ms[i])
  {
    var next := MemberEncoding(layout, info, ms[i]);
    assert Members(layout, info, ms[..i + 1]) == Then(Members(layout, info, ms[..i]), next) by {
      assert ms[..i + 1][..i] == ms[..i];
    }
    ThenStep(head, Members(layout, info, ms[..i]), next, acc);
    if next.Err? {
      MembersFailFast(layout, info, ms, i + 1);
    }
  }

  /** Sequencing is associative. */
  lemma ThenAssociative(a: Result<seq<byte>>, b: Result<seq<byte>>, c: Result<seq<byte>>)
    ensures Then(Then(a, b), c) == Then(a, Then(b, c))
  {
    if a.Ok? && b.Ok? && c.Ok? {
      assert (a.value + b.value) + c.value == a.value + (b.value + c.value);
    }
  }

  /** Read from the front, a type's members are its first member followed
      by the rest, as a reader consumes them. */
  lemma {:induction false} MembersCons(layout: Layout, info: TypeInfo, ms: seq<Member>)
    requires forall j | 0 <= j < |ms| :: Writable(layout, ms[j].value)
    requires ms != []
    ensures Members(layout, info, ms) == Then(MemberEncoding(layout, info, ms[0]), Members(layout, info, ms[1..]))
    decreases |ms|
  {
    var first := MemberEncoding(layout, info, ms[0]);
    var last := MemberEncoding(layout, info, ms[|ms| - 1]);
    var init := ms[..|ms| - 1];
    if |ms| == 1 {
      assert init == [] && ms[1..] == [];
      if first.Ok? {
        assert first.value + [] == first.value;
        assert [] + first.value == first.value;
      }
    } else {
      MembersCons(layout, info, init);
      assert init[1..] == ms[1..][..|ms[1..]| - 1];
      assert ms[1..][|ms[1..]| - 1] == ms[|ms| - 1];
      ThenAssociative(first, Members(layout, info, init[1..]), last);
    }
  }

  /** A collection's bytes are its header followed by each element's bytes
      in order: element k starts where the first k elements end. */
  lemma {:induction false} ElementsConcatenate(layout: Layout, es: seq<Value>, k: nat)
    requires forall j | 0 <= j < |es| :: Writable(layout, es[j])
    requires Elements(layout, es).Ok? && k < |es|
    ensures Elements(layout, es[..k]).Ok? && Encoding(layout, es[k]).Ok?
    ensures Elements(layout, es[..k]).value + Encoding(layout, es[k]).value
      <= Elements(layout, es).value
    decreases |es|
  {
    var init := es[..|es| - 1];
    if k < |es| - 1 {
      assert init[..k] == es[..k];
      assert init[k] == es[k];
      ElementsConcatenate(layout, init, k);
    } else {
      assert init == es[..k];
    }
  }

  /** The two writers agree on every value that has no custom type in it:
      only the layout of custom types differs. */
  predicate NoCustomType(v: Value)
  {
    match v
    case Prim(_) => true
    case Bin(_) => true
    case Collection(_, _, es) => forall i | 0 <= i < |es| :: NoCustomType(es[i])
    case Typed(info, ms) => info.kind == Enum && forall i | 0 <= i < |ms| :: NoCustomType(ms[i].value) && ms[i].value.Prim?
  }

  lemma {:induction false} LayoutsAgreeWithoutCustomTypes(v: Value)
    requires HasNoBlob(v) && NoCustomType(v)
    ensures Encoding(Named, v).Ok? ==> Encoding(Named, v) == Encoding(Positional, v)
    decreases v, 1
  {
    match v
    case Prim(_) =>
    case Bin(_) =>
    case Collection(info, length, es) =>
      ElementsAgree(es);
    case Typed(info, ms) =>
      MembersAgree(info, ms);
  }

  lemma {:induction false} ElementsAgree(es: seq<Value>)
    requires forall i | 0 <= i < |es| :: HasNoBlob(es[i]) && NoCustomType(es[i])
    ensures Elements(Named, es).Ok? ==> Elements(Named, es) == Elements(Positional, es)
    decreases es, 0
  {
    if es != [] {
      ElementsAgree(es[..|es| - 1]);
      LayoutsAgreeWithoutCustomTypes(es[|es| - 1]);
    }
  }

  lemma {:induction false} MembersAgree(info: TypeInfo, ms: seq<Member>)
    requires info.kind == Enum
    requires forall i | 0 <= i < |ms| :: HasNoBlob(ms[i].value) && ms[i].value.Prim?
    ensures Members(Named, info, ms).Ok? ==> Members(Named, info, ms) == Members(Positional, info, ms)
    decreases ms
  {
    if ms != [] {
      MembersAgree(info, ms[..|ms| - 1]);
      var last := ms[|ms| - 1].value;
      assert MemberEncoding(Positional, info, ms[|ms| - 1]) == ScalarEncoding(last.scalar);
    }
  }
}
