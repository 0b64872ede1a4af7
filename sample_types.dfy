/** The benchmark's Location record and the deserializer generated for it,
    the one complete consumer of the reader in the codebase: it reads the
    type header, then keys and values until the type cursor reports the end,
    and accepts the result only if each of the nine fields was assigned. */
module SampleTypes {
  import opened Bytes
  import opened Results
  import opened Formats
  import opened TypeInfos
  import opened Decoding
  import opened Reader
  import opened Cursors

  /** Location, with its strings as their UTF-8 bytes. */
  datatype Location = Location(
    id: int, address1: seq<byte>, address2: seq<byte>, city: seq<byte>, state: seq<byte>,
    postalCode: seq<byte>, name: seq<byte>, phoneNumber: seq<byte>, country: seq<byte>)

  const FieldTotal: nat := 9

  /** A `[Key(k)]` attribute. */
  function Key(k: int): Attribute
  {
    Attribute(KeyAttributeName, [IntArg(k)])
  }

  /** Location's descriptor: its nine serialized field names (as UTF-8
      bytes: "id", "address1", "address2", "city", "state", "postalCode",
      "name", "phoneNumber", "country"), each field keyed by its position. */
  const LocationInfo: TypeInfo := TypeInfo(CustomType, [
    Field([0x69, 0x64], [Key(0)]),
    Field([0x61, 0x64, 0x64, 0x72, 0x65, 0x73, 0x73, 0x31], [Key(1)]),
    Field([0x61, 0x64, 0x64, 0x72, 0x65, 0x73, 0x73, 0x32], [Key(2)]),
    Field([0x63, 0x69, 0x74, 0x79], [Key(3)]),
    Field([0x73, 0x74, 0x61, 0x74, 0x65], [Key(4)]),
    Field([0x70, 0x6f, 0x73, 0x74, 0x61, 0x6c, 0x43, 0x6f, 0x64, 0x65], [Key(5)]),
    Field([0x6e, 0x61, 0x6d, 0x65], [Key(6)]),
    Field([0x70, 0x68, 0x6f, 0x6e, 0x65, 0x4e, 0x75, 0x6d, 0x62, 0x65, 0x72], [Key(7)]),
    Field([0x63, 0x6f, 0x75, 0x6e, 0x74, 0x72, 0x79], [Key(8)])])

  /** The read each field takes: `ReadI32` for the id, `ReadString` for the rest. */
  function FieldRead(k: nat): ReadKind
  {
    if k == 0 then I32Read else StringRead
  }

  /** The items that fit field k. */
  predicate Fits(k: nat, item: Item)
  {
    if k == 0 then item.IntItem? else item.StrItem?
  }

  /** Field k of a Location, as the item a read of it returns. */
  function FieldOf(loc: Location, k: nat): (item: Item)
    requires k < FieldTotal
    ensures Fits(k, item)
  {
    match k
    case 0 => IntItem(loc.id)
    case 1 => StrItem(loc.address1)
    case 2 => StrItem(loc.address2)
    case 3 => StrItem(loc.city)
    case 4 => StrItem(loc.state)
    case 5 => StrItem(loc.postalCode)
    case 6 => StrItem(loc.name)
    case 7 => StrItem(loc.phoneNumber)
    case _ => StrItem(loc.country)
  }

  /** The deserializer's locals: the nine field values read so far and the
      `ushort` mask with bit k set once field k has been assigned. */
  datatype Progress = Progress(loc: Location, mask: bv16)

  /** All locals at their defaults, no bit set. */
  const Start: Progress := Progress(Location(0, [], [], [], [], [], [], [], []), 0)

  /** The mask bit of field k, `1 << k`. */
  function Bit(k: nat): bv16
    requires k < FieldTotal
  {
    match k
    case 0 => 0x1
    case 1 => 0x2
    case 2 => 0x4
    case 3 => 0x8
    case 4 => 0x10
    case 5 => 0x20
    case 6 => 0x40
    case 7 => 0x80
    case _ => 0x100
  }

  /** One case of the switch: field k takes the item and bit k is set;
      every other field and every other bit is left as it was. */
  function Assign(p: Progress, k: nat, item: Item): (q: Progress)
    requires k < FieldTotal && Fits(k, item)
    ensures FieldOf(q.loc, k) == item
    ensures forall j :: 0 <= j < FieldTotal && j != k ==> FieldOf(q.loc, j) == FieldOf(p.loc, j)
    ensures q.mask == p.mask | Bit(k)
  {
    var l := p.loc;
    var loc := match k
      case 0 => l.(id := item.i)
      case 1 => l.(address1 := item.bytes)
      case 2 => l.(address2 := item.bytes)
      case 3 => l.(city := item.bytes)
      case 4 => l.(state := item.bytes)
      case 5 => l.(postalCode := item.bytes)
      case 6 => l.(name := item.bytes)
      case 7 => l.(phoneNumber := item.bytes)
      case _ => l.(country := item.bytes);
    Progress(loc, p.mask | Bit(k))
  }

  /** A descriptor of Location's shape: a custom type with nine fields. */
  predicate Shaped(info: TypeInfo)
  {
    info.kind == CustomType && FieldCount(info) == FieldTotal
  }

  /** No two fields of the descriptor share a serialized name. */
  predicate DistinctNames(info: TypeInfo)
  {
    forall a, b | 0 <= a < b < FieldCount(info) :: info.fields[a].name != info.fields[b].name
  }

  /** The loop of the deserializer over the descriptor `info` (LocationInfo
      in the generated code), from a cursor that has read `count` keys: the
      locals when TryReadIndex reports the end, or the first error. An
      unknown key asks to skip its value, which is not implemented; an
      index outside the switch is an InvalidOperation. */
  function FieldsAt(info: TypeInfo, s: seq<byte>, pos: nat, count: nat, p: Progress): (r: Result<Decoded<Progress>>)
    requires Shaped(info) && count <= FieldTotal
    decreases FieldTotal - count
  {
    match TypeIndexAt(info, count, s, pos)
    case Err(e) => Err(e)
    case Ok(k) =>
      var index := k.value.index;
      if index == EndOfType then Ok(Decoded(p, k.next))
      else if 0 <= index < FieldTotal then
        match ScalarAt(s, k.next, FieldRead(index))
        case Err(e) => Err(e)
        case Ok(v) => FieldsAt(info, s, v.next, count + 1, Assign(p, index, v.value))
      else if index == IndexNotFound then Err(NotImplemented)
      else Err(InvalidOperation)
  }

  /** Deserialize: the type header, the loop, then the check that every
      field was assigned. */
  function LocationAt(s: seq<byte>, pos: nat): (r: Result<Decoded<Location>>)
  {
    match TypeAt(s, pos, LocationInfo)
    case Err(e) => Err(e)
    case Ok(h) =>
      assert Shaped(LocationInfo);
      match FieldsAt(LocationInfo, s, h.next, 0, Start)
      case Err(e) => Err(e)
      case Ok(f) =>
        if f.value.mask != 0x1ff then Err(UnassignedMember) else Ok(Decoded(f.value.loc, f.next))
  }

  /** LocationWrap's Deserialize. */
  method Deserialize(d: MsgPackReader) returns (r: Result<Location>)
    requires d.Valid()
    modifies d.reader`offset
    ensures d.Follows(r, LocationAt(d.Input(), old(d.Pos())))
  {
    var t := d.ReadType(LocationInfo);
    if t.Err? {
      return Err(t.error);
    }
    ghost var start := d.Pos();
    assert Shaped(LocationInfo);
    var cursor := new DeserializeType(d);
    var p := Start;
    while true
      invariant d.Valid() && cursor.deserializer == d && 0 <= cursor.count <= FieldTotal
      invariant FieldsAt(LocationInfo, d.Input(), d.Pos(), cursor.count, p) == FieldsAt(LocationInfo, d.Input(), start, 0, Start)
      decreases FieldTotal - cursor.count
    {
      var idx := cursor.TryReadIndex(LocationInfo);
      if idx.Err? {
        return Err(idx.error);
      }
      var index := idx.value.index;
      if index == EndOfType {
        break;
      }
      if 0 <= index < FieldTotal {
        var v := cursor.ReadScalar(FieldRead(index));
        if v.Err? {
          return Err(v.error);
        }
        p := Assign(p, index, v.value);
      } else if index == IndexNotFound {
        var skipped := cursor.SkipValue();
        return Err(skipped.error);
      } else {
        return Err(InvalidOperation);
      }
    }
    if p.mask != 0x1ff {
      return Err(UnassignedMember);
    }
    return Ok(p.loc);
  }

  // ------------------------------------------------------------ properties

  /** Field m has been assigned: bit m of the mask is set. */
  predicate Seen(p: Progress, m: nat)
    requires m < FieldTotal
  {
    p.mask & Bit(m) != 0
  }

  /** Only the nine field bits can be set. */
  predicate Bounded(p: Progress)
  {
    p.mask <= 0x1ff
  }

  /** Setting field k's bit, as each case of the switch does, marks field k
      as assigned and no other field, and stays within the nine field bits. */
  lemma BitSet(x: bv16, k: nat, m: nat)
    requires k < FieldTotal && m < FieldTotal
    ensures (x | Bit(k)) & Bit(m) != 0 <==> m == k || x & Bit(m) != 0
    ensures x <= 0x1ff ==> x | Bit(k) <= 0x1ff
  {
  }

  /** A repeated key overwrites: the later value wins, and the mask is the
      one the first assignment left. */
  lemma AssignLastWins(p: Progress, k: nat, a: Item, b: Item)
    requires k < FieldTotal && Fits(k, a) && Fits(k, b)
    ensures Assign(Assign(p, k, a), k, b) == Assign(p, k, b)
    ensures Assign(Assign(p, k, a), k, b).mask == Assign(p, k, a).mask
  {
  }

  /** The final check passes exactly when every field has been assigned. */
  lemma MaskFull(p: Progress)
    requires Bounded(p)
    ensures p.mask == 0x1ff <==> forall m | 0 <= m < FieldTotal :: Seen(p, m)
  {
    if forall m | 0 <= m < FieldTotal :: Seen(p, m) {
      assert Seen(p, 0) && Seen(p, 1) && Seen(p, 2) && Seen(p, 3) && Seen(p, 4);
      assert Seen(p, 5) && Seen(p, 6) && Seen(p, 7) && Seen(p, 8);
    }
  }

  /** A key naming field k, with a value the field's read accepts, is one
      turn of the loop: the loop goes on after the value with field k
      assigned. */
  lemma FieldCase(info: TypeInfo, s: seq<byte>, pos: nat, count: nat, p: Progress, k: nat, item: Item, mid: nat, next: nat)
    requires Shaped(info) && count < FieldTotal && k < FieldTotal && Fits(k, item)
    requires TypeIndexAt(info, count, s, pos) == Ok(Decoded(IndexResult(k, None), mid))
    requires ScalarAt(s, mid, FieldRead(k)) == Ok(Decoded(item, next))
    ensures FieldsAt(info, s, pos, count, p) == FieldsAt(info, s, next, count + 1, Assign(p, k, item))
  {
  }

  /** A key naming field k whose value the field's read refuses stops the
      loop with the read's error. */
  lemma FieldRefused(info: TypeInfo, s: seq<byte>, pos: nat, count: nat, p: Progress, k: nat, mid: nat, e: Error)
    requires Shaped(info) && count < FieldTotal && k < FieldTotal
    requires TypeIndexAt(info, count, s, pos) == Ok(Decoded(IndexResult(k, None), mid))
    requires ScalarAt(s, mid, FieldRead(k)) == Err(e)
    ensures FieldsAt(info, s, pos, count, p) == Err(e)
  {
  }

  /** A key that names no field asks to skip its value, which is not
      implemented, so the read fails. */
  lemma UnknownKey(info: TypeInfo, s: seq<byte>, pos: nat, count: nat, p: Progress)
    requires Shaped(info) && count < FieldTotal
    requires StrAt(s, pos).Ok? && TryGetIndex(info, StrAt(s, pos).value.value) == IndexNotFound
    ensures FieldsAt(info, s, pos, count, p) == Err(NotImplemented)
  {
  }

  /** Once nine keys have been read the cursor reports the end of the type
      without reading, and the loop ends with the locals as they are. */
  lemma FieldsEnd(info: TypeInfo, s: seq<byte>, pos: nat, p: Progress)
    requires Shaped(info)
    ensures FieldsAt(info, s, pos, FieldTotal, p) == Ok(Decoded(p, pos))
  {
  }

  /** The loop never takes the switch's default branch: the cursor only
      reports the end, an unknown key or an index below nine, and no read
      fails with InvalidOperation. It also keeps the mask within the nine
      field bits. */
  lemma {:induction false} FieldsOutcome(info: TypeInfo, s: seq<byte>, pos: nat, count: nat, p: Progress)
    requires Shaped(info) && count <= FieldTotal && Bounded(p)
    ensures FieldsAt(info, s, pos, count, p) != Err(InvalidOperation)
    ensures FieldsAt(info, s, pos, count, p).Ok? ==> Bounded(FieldsAt(info, s, pos, count, p).value.value)
    decreases FieldTotal - count
  {
    match TypeIndexAt(info, count, s, pos)
    case Err(e) =>
    case Ok(k) =>
      var index := k.value.index;
      if 0 <= index < FieldTotal {
        match ScalarAt(s, k.next, FieldRead(index))
        case Err(e) =>
        case Ok(v) =>
          BitSet(p.mask, index, 0);
          FieldsOutcome(info, s, v.next, count + 1, Assign(p, index, v.value));
      }
  }

  /** Location's nine serialized names are distinct. */
  lemma LocationNamesDistinct()
    ensures Shaped(LocationInfo) && DistinctNames(LocationInfo)
  {
  }

  /** Each of Location's keys, as the named writer writes it, is read as its
      own field by a cursor that has not yet read nine keys. */
  lemma LocationKeyFound(s: seq<byte>, pos: nat, count: nat, k: nat)
    requires count < FieldTotal && k < FieldTotal
    requires pos + |StrEncoding(LocationInfo.fields[k].name)| <= |s|
    requires s[pos..pos + |StrEncoding(LocationInfo.fields[k].name)|] == StrEncoding(LocationInfo.fields[k].name)
    ensures TypeIndexAt(LocationInfo, count, s, pos)
      == Ok(Decoded(IndexResult(k, None), pos + |StrEncoding(LocationInfo.fields[k].name)|))
  {
    LocationNamesDistinct();
    KeyRoundTrip(LocationInfo, count, s, pos, k);
  }

  /** Deserialize returns a Location exactly when the header is accepted,
      the loop ends without error and every field has been assigned. */
  lemma LocationAccepted(s: seq<byte>, pos: nat)
    ensures Shaped(LocationInfo)
    ensures LocationAt(s, pos).Ok? <==>
      TypeAt(s, pos, LocationInfo).Ok?
      && FieldsAt(LocationInfo, s, TypeAt(s, pos, LocationInfo).value.next, 0, Start).Ok?
      && forall m | 0 <= m < FieldTotal ::
           Seen(FieldsAt(LocationInfo, s, TypeAt(s, pos, LocationInfo).value.next, 0, Start).value.value, m)
  {
    assert Shaped(LocationInfo);
    if TypeAt(s, pos, LocationInfo).Ok? {
      var h := TypeAt(s, pos, LocationInfo).value;
      FieldsOutcome(LocationInfo, s, h.next, 0, Start);
      if FieldsAt(LocationInfo, s, h.next, 0, Start).Ok? {
        MaskFull(FieldsAt(LocationInfo, s, h.next, 0, Start).value.value);
      }
    }
  }
}
