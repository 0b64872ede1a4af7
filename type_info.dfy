/** The immutable per-type descriptor the serializers and deserializers consult:
    what kind of type it is, and for a custom type its fields in declaration
    order, each with its serialized name and its attributes. */
module TypeInfos {
  import opened Bytes
  import opened Results

  /** The descriptor kinds the codec distinguishes. The newer writer calls the
      sequence kind `List`, the older code `Enumerable`; they are one kind here. */
  datatype InfoKind = Primitive | Nullable | Enumerable | Dictionary | CustomType | Enum

  /** A constructor argument of an attribute: an integer, or anything else. */
  datatype AttrArg = IntArg(value: int) | OtherArg

  datatype Attribute = Attribute(typeName: string, args: seq<AttrArg>)

  /** A serialized field name: UTF-8 bytes whose count fits a C# `int`. */
  type Name = s: seq<byte> | |s| < 0x8000_0000

  /** A field: its serialized name and its custom attributes. */
  datatype Field = Field(name: Name, attributes: seq<Attribute>)

  /** A field list whose count fits the C# `int` FieldCount. */
  type FieldList = s: seq<Field> | |s| < 0x8000_0000

  datatype TypeInfo = TypeInfo(kind: InfoKind, fields: FieldList)

  /** Sentinels TryReadIndex returns instead of a field index. */
  const EndOfType: int := -1
  const IndexNotFound: int := -2

  /** The attribute whose single integer argument fixes a field's position. */
  const KeyAttributeName: string := "MessagePack.KeyAttribute"

  function FieldCount(info: TypeInfo): len32
  {
    |info.fields|
  }

  /** GetFieldName: the serialized name of field i; out of range is an error. */
  function GetFieldName(info: TypeInfo, i: int): (r: Result<seq<byte>>)
    ensures r.Ok? <==> 0 <= i < FieldCount(info)
    ensures r.Ok? ==> r.value == info.fields[i].name
    ensures r.Err? ==> r.error == ArgumentOutOfRange
  {
    if 0 <= i < |info.fields| then Ok(info.fields[i].name) else Err(ArgumentOutOfRange)
  }

  /** TryGetIndex: the position of the first field with the given serialized
      name, or IndexNotFound when no field has it. */
  function TryGetIndex(info: TypeInfo, name: seq<byte>): (r: int)
    ensures r == IndexNotFound || 0 <= r < FieldCount(info)
    ensures r == IndexNotFound <==> forall j :: 0 <= j < FieldCount(info) ==> info.fields[j].name != name
    ensures 0 <= r ==> info.fields[r].name == name
    ensures 0 <= r ==> forall j :: 0 <= j < r ==> info.fields[j].name != name
  {
    FindFrom(info.fields, name, 0)
  }

  function FindFrom(fields: seq<Field>, name: seq<byte>, from: nat): (r: int)
    requires from <= |fields|
    decreases |fields| - from
    ensures r == IndexNotFound || from <= r < |fields|
    ensures r == IndexNotFound <==> forall j :: from <= j < |fields| ==> fields[j].name != name
    ensures 0 <= r ==> fields[r].name == name && forall j :: from <= j < r ==> fields[j].name != name
  {
    if from == |fields| then IndexNotFound
    else if fields[from].name == name then from
    else FindFrom(fields, name, from + 1)
  }

  /** An attribute that pins a field to a position other than i: a
      KeyAttribute whose arguments are exactly one integer different from i. */
  predicate MisplacedKey(a: Attribute, i: int)
  {
    a.typeName == KeyAttributeName && |a.args| == 1 && a.args[0].IntArg? && a.args[0].value != i
  }

  /** Every field that carries a KeyAttribute sits at the position that attribute names. */
  predicate KeysInDeclarationOrder(info: TypeInfo)
  {
    forall i, a :: 0 <= i < |info.fields| && a in info.fields[i].attributes ==> !MisplacedKey(a, i)
  }
}
