/** The wire format: how providers lay fields out, packed one after the other. The walk undoes it, and
    the decoders return the content. */
module WireFormat {
  import opened Wrappers
  import opened Bytes
  import opened TdhTypes
  import opened Sizing
  import opened Walk
  import opened Decode
  import opened Scalars

  /** What a field holds whose size the schema declares or an earlier field carries. Wide text ends at its
      first NUL, whatever follows it; narrow text is padded with NULs; other types are raw bytes. */
  datatype Content =
    | WideText(units: seq<u16>, padding: seq<u16>)
    | NarrowText(leading: nat, text: seq<byte>, trailing: nat)
    | Raw(inType: TdhInType, bytes: seq<byte>)

  /** The fields whose size the walk finds without TDH. `schema` is the length the schema gives a field whose
      size does not follow from it, in either form. */
  datatype Field =
    | ScalarField(schema: PropertyLength, value: ScalarValue)
    | Address(inType: TdhInType, schema: PropertyLength, address: nat)
    | AnsiZ(text: seq<byte>)
    | WideZ(units: seq<u16>)
    | CountedWide(inType: TdhInType, schema: PropertyLength, units: seq<u16>)
    | CountedNarrow(inType: TdhInType, schema: PropertyLength, bytes: seq<byte>)
    | Hex(schema: PropertyLength, bytes: seq<byte>)
    | SecurityId(
        inType: TdhInType, schema: PropertyLength, revision: byte, authority: seq<byte>, subAuthorities: seq<u32>)
    | Ipv6(bytes: seq<byte>)
    | Declared(length: u16, content: Content)
    | SizedBy(carrier: nat, content: Content)
    | ArrayField(inType: TdhInType, elementLength: PropertyLength, count: PropertyCount, bytes: seq<byte>)
    | Custom(schema: PropertyLength, bytes: seq<byte>)
    | RestWide(schema: PropertyLength, units: seq<u16>)
    | RestNarrow(schema: PropertyLength, bytes: seq<byte>)

  /** A field and the name of its property; names may repeat. */
  datatype WireField = WireField(name: string, field: Field)

  function Low(x: u16): byte {
    x % 256
  }

  function High(x: u16): byte {
    x / 256
  }

  lemma LowAndHigh(x: u16)
    ensures U16FromLe(Low(x), High(x)) == U16FromBe(High(x), Low(x)) == x
    ensures Low(x) == 0 && High(x) == 0 ==> x == 0
  {
  }

  function UnitsToBytes(units: seq<u16>): (r: seq<byte>)
    ensures |r| == 2 * |units|
  {
    if units == [] then [] else [Low(units[0]), High(units[0])] + UnitsToBytes(units[1..])
  }

  function SubAuthorityBytes(subAuthorities: seq<u32>): (r: seq<byte>)
    ensures |r| == 4 * |subAuthorities|
  {
    if subAuthorities == [] then []
    else
      assert Radix(4) == 256 * Radix(3) && Radix(3) == 256 * Radix(2) && Radix(2) == 256 * Radix(1);
      ToLittleEndian(subAuthorities[0], 4) + SubAuthorityBytes(subAuthorities[1..])
  }

  function CountPrefix(count: u16, bigEndian: bool): (r: seq<byte>)
    ensures |r| == 2
  {
    if bigEndian then [High(count), Low(count)] else [Low(count), High(count)]
  }

  function Nuls(count: nat): (r: seq<byte>)
    ensures |r| == count
  {
    seq(count, _ => 0)
  }

  function ContentType(content: Content): TdhInType {
    match content
    case WideText(_, _) => UnicodeString
    case NarrowText(_, _, _) => AnsiString
    case Raw(t, _) => t
  }

  function ContentBytes(content: Content): seq<byte> {
    match content
    case WideText(text, padding) => UnitsToBytes(text + padding)
    case NarrowText(leading, text, trailing) => Nuls(leading) + text + Nuls(trailing)
    case Raw(_, bytes) => bytes
  }

  /** Lengths count characters in wide text, bytes in anything else. */
  function ContentUnits(content: Content): nat {
    match content
    case WideText(text, padding) => |text| + |padding|
    case NarrowText(leading, text, trailing) => leading + |text| + trailing
    case Raw(_, bytes) => |bytes|
  }

  predicate WellFormedContent(content: Content) {
    match content
    case WideText(text, padding) => 0 !in text && (padding == [] || padding[0] == 0)
    case NarrowText(_, text, _) => text == [] || (text[0] != 0 && text[|text| - 1] != 0)
    case Raw(t, _) => t.Binary? || t.Null? || ScalarWidth(t).Some?
  }

  /** What a field may hold, apart from its reference to an earlier one. */
  predicate WellFormed(field: Field, pointerSize: nat) {
    match field
    case ScalarField(schema, value) =>
      InRange(value) && (schema.Length? && schema.length > 0 ==> schema.length == |EncodeScalar(value)|)
    case Address(t, _, address) => (t.Pointer? || t.SizeT?) && address < Radix(pointerSize)
    case AnsiZ(text) => 0 !in text
    case WideZ(units) => 0 !in units
    case CountedWide(t, _, units) =>
      && (t.ManifestCountedString? || t.CountedString? || t.ReversedCountedString?)
      && 2 * |units| < 0x1_0000
    case CountedNarrow(t, _, bytes) =>
      && (t.ManifestCountedAnsiString? || t.CountedAnsiString? || t.ReversedCountedAnsiString?
          || t.ManifestCountedBinary?)
      && |bytes| < 0x1_0000
    case Hex(_, bytes) => |bytes| < Radix(4)
    case SecurityId(t, _, _, authority, subAuthorities) =>
      (t.Sid? || t.WbemSid?) && |authority| == 6 && |subAuthorities| < 256
    case Ipv6(bytes) => |bytes| == 16
    case Declared(length, content) =>
      && length > 0 && WellFormedContent(content)
      && ContentUnits(content) == length
    case SizedBy(_, content) => WellFormedContent(content) && ScalarWidth(ContentType(content)).None?
    case Custom(schema, bytes) => schema.Length? ==> |bytes| == schema.length > 0
    case ArrayField(_, _, _, bytes) => |bytes| < USIZE_LIMIT
    case RestWide(_, _) => true
    case RestNarrow(_, _) => true
  }

  function Encode(field: Field, pointerSize: nat): seq<byte>
    requires WellFormed(field, pointerSize)
  {
    match field
    case ScalarField(_, value) => EncodeScalar(value)
    case Address(_, _, address) => ToLittleEndian(address, pointerSize)
    case AnsiZ(text) => text + [0]
    case WideZ(units) => UnitsToBytes(units) + [0, 0]
    case CountedWide(t, _, units) => CountPrefix(2 * |units|, IsReversedCounted(t)) + UnitsToBytes(units)
    case CountedNarrow(t, _, bytes) => CountPrefix(|bytes|, IsReversedCounted(t)) + bytes
    case Hex(_, bytes) => ToLittleEndian(|bytes|, 4) + bytes
    case SecurityId(_, _, revision, authority, subAuthorities) =>
      [revision, |subAuthorities|] + authority + SubAuthorityBytes(subAuthorities)
    case Ipv6(bytes) => bytes
    case Declared(_, content) => ContentBytes(content)
    case SizedBy(_, content) => ContentBytes(content)
    case ArrayField(_, _, _, bytes) => bytes
    case Custom(_, bytes) => bytes
    case RestWide(_, units) => UnitsToBytes(units)
    case RestNarrow(_, bytes) => bytes
  }

  /** The schema entry of a field. */
  function InfoOf(field: Field): PropertyInfo {
    match field
    case ScalarField(schema, value) => Value(TypeOf(value), OutTypeNull, schema)
    case Address(t, schema, _) => Value(t, OutTypeNull, schema)
    case AnsiZ(_) => Value(AnsiString, OutTypeNull, Length(0))
    case WideZ(_) => Value(UnicodeString, OutTypeNull, Length(0))
    case CountedWide(t, schema, _) => Value(t, OutTypeNull, schema)
    case CountedNarrow(t, schema, _) => Value(t, OutTypeNull, schema)
    case Hex(schema, _) => Value(HexDump, OutTypeNull, schema)
    case SecurityId(t, schema, _, _, _) => Value(t, OutTypeNull, schema)
    case Ipv6(_) => Value(Binary, OutTypeIpv6, Length(0))
    case Declared(length, content) => Value(ContentType(content), OutTypeNull, Length(length))
    case SizedBy(carrier, content) => Value(ContentType(content), OutTypeNull, LengthIndex(AsIndex(carrier)))
    case ArrayField(t, length, count, _) => Array(t, OutTypeNull, length, count)
    case Custom(schema, _) => Unsupported(schema)
    case RestWide(schema, _) => Value(NonNullTerminatedString, OutTypeNull, schema)
    case RestNarrow(schema, _) => Value(NonNullTerminatedAnsiString, OutTypeNull, schema)
  }

  function AsIndex(carrier: nat): u16 {
    if carrier < 0x1_0000 then carrier else 0xFFFF
  }

  /** The integer an earlier field carries. */
  function Carried(parsed: seq<seq<byte>>, index: nat): Option<nat> {
    if index < |parsed| then IndexValueFromBytes(parsed[index]) else None
  }

  /** Bytes of one array element: a pointer's, the declared length, the type's, or a carried length. */
  function ElementBytes(t: TdhInType, length: PropertyLength, parsed: seq<seq<byte>>, pointerSize: nat): Option<nat> {
    var unit := if t.UnicodeString? then 2 else 1;
    if t.Pointer? || t.SizeT? then Some(pointerSize)
    else if length.Length? && length.length > 0 then Some(unit * length.length)
    else if ScalarWidth(t).Some? || length.Length? then ScalarWidth(t)
    else
      var units :- Carried(parsed, length.index);
      Some(unit * units)
  }

  function ElementCount(count: PropertyCount, parsed: seq<seq<byte>>): Option<nat> {
    match count
    case Count(c) => Some(c)
    case CountIndex(index) => Carried(parsed, index)
  }

  /** The size agrees with the integers earlier fields carry: a length in units, an element's length, an
      element count. */
  predicate CarrierFits(field: Field, parsed: seq<seq<byte>>, pointerSize: nat) {
    match field
    case SizedBy(carrier, content) =>
      && carrier < |parsed| && carrier < 0x1_0000
      && IndexValueFromBytes(parsed[carrier]).Some?
      && ContentUnits(content) == IndexValueFromBytes(parsed[carrier]).value
      && |ContentBytes(content)| < USIZE_LIMIT
    case Custom(LengthIndex(carrier), bytes) => Carried(parsed, carrier) == Some(|bytes|)
    case ArrayField(t, length, count, bytes) =>
      && ElementBytes(t, length, parsed, pointerSize).Some?
      && ElementCount(count, parsed).Some?
      && |bytes| == ElementBytes(t, length, parsed, pointerSize).value * ElementCount(count, parsed).value
    case _ => true
  }

  predicate SpansTheRest(field: Field) {
    field.RestWide? || field.RestNarrow?
  }

  function Encodings(fields: seq<WireField>, pointerSize: nat): (r: seq<seq<byte>>)
    requires forall k :: 0 <= k < |fields| ==> WellFormed(fields[k].field, pointerSize)
    ensures |r| == |fields|
  {
    seq(|fields|, k requires 0 <= k < |fields| => Encode(fields[k].field, pointerSize))
  }

  function Packed(encodings: seq<seq<byte>>): seq<byte> {
    if encodings == [] then [] else Packed(encodings[..|encodings| - 1]) + encodings[|encodings| - 1]
  }

  /** A record layout: carriers come before their users, and only the last field may span the rest. */
  predicate IsLayout(fields: seq<WireField>, tail: seq<byte>, pointerSize: nat) {
    && (forall k :: 0 <= k < |fields| ==> WellFormed(fields[k].field, pointerSize))
    && (forall k :: 0 <= k < |fields| ==>
          CarrierFits(fields[k].field, Encodings(fields, pointerSize)[..k], pointerSize))
    && (forall k :: 0 <= k < |fields| && SpansTheRest(fields[k].field) ==> k == |fields| - 1 && tail == [])
  }

  /** The event of a layout: its fields packed from the start of the buffer, then unrelated bytes. */
  predicate CarriesLayout(ev: Event, fields: seq<WireField>, tail: seq<byte>) {
    && IsLayout(fields, tail, ev.record.PointerSize())
    && ev.dataStart == Some(0)
    && ev.record.userBuffer == Packed(Encodings(fields, ev.record.PointerSize())) + tail
    && |ev.properties| == |fields|
    && forall k :: 0 <= k < |fields| ==> ev.properties[k] == Property(fields[k].name, InfoOf(fields[k].field))
  }

  lemma NulEndsText(text: seq<byte>, rest: seq<byte>)
    requires 0 !in text
    ensures FindNul(text + [0] + rest) == Some(|text|)
  {
    var bytes := text + [0] + rest;
    assert bytes[..|text|] == text;
    FirstNulIs(bytes, |text|);
  }

  lemma {:induction false} UnitAt(units: seq<u16>, k: nat)
    requires k < |units|
    ensures UnitsToBytes(units)[2 * k] == Low(units[k])
    ensures UnitsToBytes(units)[2 * k + 1] == High(units[k])
    decreases k
  {
    hide Low, High;
    if k > 0 {
      UnitAt(units[1..], k - 1);
    }
  }

  lemma NulEndsUnits(units: seq<u16>, rest: seq<byte>)
    requires 0 !in units
    ensures FindNulUnit(UnitsToBytes(units) + [0, 0] + rest) == Some(|units|)
  {
    var bytes := UnitsToBytes(units) + [0, 0] + rest;
    assert IsNulUnit(bytes, |units|);
    forall k: nat | k < |units| ensures !IsNulUnit(bytes, k) {
      UnitAt(units, k);
      LowAndHigh(units[k]);
      assert units[k] in units;
    }
  }

  /** A field whose schema alone sizes it. */
  predicate SizedBySchema(field: Field) {
    || field.ScalarField? || field.Address? || field.Ipv6? || field.Declared?
    || (field.Custom? && field.schema.Length?)
  }

  predicate SizedByReferenceField(field: Field) {
    field.SizedBy? || field.ArrayField? || (field.Custom? && field.schema.LengthIndex?)
  }

  lemma SchemaFieldSized(
    record: EventRecord, name: string, field: Field, parsed: seq<PropertySlice>, remaining: seq<byte>)
    requires WellFormed(field, record.PointerSize()) && SizedBySchema(field)
    ensures FindPropertySize(record, Property(name, InfoOf(field)), parsed, remaining)
            == Ok(|Encode(field, record.PointerSize())|)
  {
    hide UnitsToBytes, ToLittleEndian, LittleEndian, ContentBytes, Radix, FindNul, FindNulUnit, ReadCountPrefix;
    hide IndexValue, SchemaLengthBytes, CheckedMul, SidSize, CountPrefix, SubAuthorityBytes, EncodeScalar;
    match field
    case ScalarField(_, value) =>
      hide InTypeFixedSize;
      WrittenWidth(value);
      ScalarIsNotContentSized(TypeOf(value));
    case Declared(_, content) => SizeOfContent(content);
    case _ =>
  }

  lemma ScalarIsNotContentSized(t: TdhInType)
    requires ScalarWidth(t).Some?
    ensures !IsContentSized(t) && !IsPointerSized(t) && !t.UnicodeString? && !t.AnsiString? && !t.Binary?
  {
  }

  /** Two bytes per wide character, one per narrow one. */
  lemma SizeOfContent(content: Content)
    requires WellFormedContent(content)
    ensures |ContentBytes(content)| == UnitBytes(ContentType(content), ContentUnits(content))
    ensures !IsContentSized(ContentType(content)) && !IsPointerSized(ContentType(content))
    ensures ScalarWidth(ContentType(content)).None? ==> InTypeFixedSize(ContentType(content)).None?
  {
    hide UnitsToBytes, Nuls;
  }

  lemma ReferenceFieldSized(
    record: EventRecord, name: string, field: Field, parsed: seq<PropertySlice>, buffers: seq<seq<byte>>,
    remaining: seq<byte>)
    requires WellFormed(field, record.PointerSize()) && SizedByReferenceField(field)
    requires |parsed| == |buffers| && forall i :: 0 <= i < |parsed| ==> parsed[i].buffer == buffers[i]
    requires CarrierFits(field, buffers, record.PointerSize())
    ensures FindPropertySize(record, Property(name, InfoOf(field)), parsed, remaining)
            == Ok(|Encode(field, record.PointerSize())|)
  {
    hide UnitsToBytes, Nuls, LittleEndian, Radix, ContentBytes, InTypeFixedSize;
    if field.SizedBy? {
      SizeOfContent(field.content);
      assert IndexValue(parsed, field.carrier) == IndexValueFromBytes(buffers[field.carrier]);
    } else if field.Custom? {
      assert IndexValue(parsed, field.schema.index) == Carried(buffers, field.schema.index);
    } else {
      ArrayFieldSized(record, name, field, parsed, buffers, remaining);
    }
  }

  lemma WidthsAgree(t: TdhInType)
    ensures InTypeFixedSize(t) == ScalarWidth(t)
  {
  }

  lemma ArrayFieldSized(
    record: EventRecord, name: string, field: Field, parsed: seq<PropertySlice>, buffers: seq<seq<byte>>,
    remaining: seq<byte>)
    requires WellFormed(field, record.PointerSize()) && field.ArrayField?
    requires |parsed| == |buffers| && forall i :: 0 <= i < |parsed| ==> parsed[i].buffer == buffers[i]
    requires CarrierFits(field, buffers, record.PointerSize())
    ensures FindPropertySize(record, Property(name, InfoOf(field)), parsed, remaining) == Ok(|field.bytes|)
  {
    hide FindPropertySize, IndexValueFromBytes, InTypeFixedSize, ScalarWidth;
    WidthsAgree(field.inType);
    var property := Property(name, InfoOf(field));
    ArrayByReferenceSizeIsExact(record, property, parsed, remaining);
    assert field.elementLength.LengthIndex? ==>
        IndexValue(parsed, field.elementLength.index) == Carried(buffers, field.elementLength.index);
    assert field.count.CountIndex? ==> IndexValue(parsed, field.count.index) == Carried(buffers, field.count.index);
    assert ByReferenceSize(record, property, parsed) == Some(|field.bytes|);
  }

  lemma CountPrefixRead(count: u16, bigEndian: bool, content: seq<byte>)
    ensures ReadCountPrefix(CountPrefix(count, bigEndian) + content, bigEndian) == Ok(count)
  {
    hide Low, High, U16FromLe, U16FromBe;
    LowAndHigh(count);
  }

  lemma CountedFieldSized(record: EventRecord, name: string, field: Field, rest: seq<byte>)
    requires WellFormed(field, record.PointerSize()) && (field.CountedWide? || field.CountedNarrow?)
    ensures var encoding := Encode(field, record.PointerSize());
            ContentSize(record, Property(name, InfoOf(field)), encoding + rest) == Ok(|encoding|)
  {
    hide UnitsToBytes, ReadCountPrefix, CountPrefix;
    var content := if field.CountedWide? then UnitsToBytes(field.units) else field.bytes;
    var reversed := IsReversedCounted(field.inType);
    var prefix := CountPrefix(|content|, reversed);
    assert Encode(field, record.PointerSize()) == prefix + content;
    assert prefix + content + rest == prefix + (content + rest);
    CountPrefixRead(|content|, reversed, content + rest);
  }

  lemma NulFieldSized(record: EventRecord, name: string, field: Field, rest: seq<byte>)
    requires WellFormed(field, record.PointerSize()) && (field.AnsiZ? || field.WideZ?)
    ensures var encoding := Encode(field, record.PointerSize());
            ContentSize(record, Property(name, InfoOf(field)), encoding + rest) == Ok(|encoding|)
  {
    hide FindNul, FindNulUnit, UnitsToBytes;
    if field.AnsiZ? {
      NulEndsText(field.text, rest);
    } else {
      NulEndsUnits(field.units, rest);
    }
  }

  lemma HexFieldSized(record: EventRecord, name: string, field: Field, rest: seq<byte>)
    requires WellFormed(field, record.PointerSize()) && field.Hex?
    ensures var encoding := Encode(field, record.PointerSize());
            ContentSize(record, Property(name, InfoOf(field)), encoding + rest) == Ok(|encoding|)
  {
    hide ToLittleEndian, LittleEndian, Radix;
    assert (Encode(field, record.PointerSize()) + rest)[..4] == ToLittleEndian(|field.bytes|, 4);
  }

  lemma SecurityIdSized(record: EventRecord, name: string, field: Field, rest: seq<byte>)
    requires WellFormed(field, record.PointerSize()) && field.SecurityId?
    ensures var encoding := Encode(field, record.PointerSize());
            ContentSize(record, Property(name, InfoOf(field)), encoding + rest) == Ok(|encoding|)
  {
    hide SubAuthorityBytes;
    assert (Encode(field, record.PointerSize()) + rest)[1] == |field.subAuthorities|;
  }

  lemma ContentFieldSized(record: EventRecord, name: string, field: Field, rest: seq<byte>)
    requires WellFormed(field, record.PointerSize()) && !SizedBySchema(field) && !SizedByReferenceField(field)
    requires SpansTheRest(field) ==> rest == []
    ensures var encoding := Encode(field, record.PointerSize());
            ContentSize(record, Property(name, InfoOf(field)), encoding + rest) == Ok(|encoding|)
  {
    hide UnitsToBytes, ReadCountPrefix, CountPrefix, ToLittleEndian, LittleEndian, Radix, FindNul, FindNulUnit;
    match field
    case AnsiZ(_) => NulFieldSized(record, name, field, rest);
    case WideZ(_) => NulFieldSized(record, name, field, rest);
    case Hex(_, _) => HexFieldSized(record, name, field, rest);
    case CountedWide(_, _, _) => CountedFieldSized(record, name, field, rest);
    case CountedNarrow(_, _, _) => CountedFieldSized(record, name, field, rest);
    case SecurityId(_, _, _, _, _) => SecurityIdSized(record, name, field, rest);
    case RestWide(_, units) => assert UnitsToBytes(units) + [] == UnitsToBytes(units);
    case RestNarrow(_, _) =>
  }

  /** The walk sizes a field in front of any bytes as its encoding. */
  lemma FieldSized(
    record: EventRecord, name: string, field: Field, parsed: seq<PropertySlice>, buffers: seq<seq<byte>>,
    rest: seq<byte>)
    requires WellFormed(field, record.PointerSize())
    requires |parsed| == |buffers| && forall i :: 0 <= i < |parsed| ==> parsed[i].buffer == buffers[i]
    requires CarrierFits(field, buffers, record.PointerSize())
    requires SpansTheRest(field) ==> rest == []
    ensures var encoding := Encode(field, record.PointerSize());
            FindPropertySize(record, Property(name, InfoOf(field)), parsed, encoding + rest) == Ok(|encoding|)
  {
    if SizedBySchema(field) {
      SchemaFieldSized(record, name, field, parsed, Encode(field, record.PointerSize()) + rest);
    } else if SizedByReferenceField(field) {
      ReferenceFieldSized(record, name, field, parsed, buffers, Encode(field, record.PointerSize()) + rest);
    } else {
      hide ContentSize, Encode, CarrierFits;
      ContentFieldSized(record, name, field, rest);
    }
  }

  /** The walk undoes the layout: the first `n` slices are the encodings of the first `n` fields. */
  lemma {:induction false} WalkUndoesLayout(ev: Event, fields: seq<WireField>, tail: seq<byte>, n: nat)
    requires CarriesLayout(ev, fields, tail)
    requires n <= |fields|
    ensures WalkTo(ev, n).Ok?
    ensures var slices, encodings := WalkTo(ev, n).value, Encodings(fields, ev.record.PointerSize());
            && (forall i :: 0 <= i < n ==> slices[i].buffer == encodings[i])
            && TotalSize(slices) == |Packed(encodings[..n])|
  {
    hide NextSlice, WellFormed, CarrierFits, Encode, InfoOf, SpansTheRest, WalkTo, Packed, Encodings;
    if n == 0 {
      NothingWalked(ev, Encodings(fields, ev.record.PointerSize()));
    } else {
      WalkUndoesLayout(ev, fields, tail, n - 1);
      var parsed := WalkTo(ev, n - 1).value;
      NextIsField(ev, fields, tail, n - 1, parsed);
      OneMoreWalked(ev, Encodings(fields, ev.record.PointerSize()), n, parsed);
    }
  }

  lemma NothingWalked(ev: Event, encodings: seq<seq<byte>>)
    ensures WalkTo(ev, 0) == Ok([]) && TotalSize([]) == |Packed(encodings[..0])| == 0
  {
    assert encodings[..0] == [];
  }

  lemma OneMoreWalked(ev: Event, encodings: seq<seq<byte>>, n: nat, parsed: seq<PropertySlice>)
    requires 0 < n <= |encodings| && n <= |ev.properties|
    requires WalkTo(ev, n - 1) == Ok(parsed) && TotalSize(parsed) == |Packed(encodings[..n - 1])|
    requires NextSlice(ev, parsed, TotalSize(parsed)) == Ok(PropertySlice(ev.properties[n - 1], encodings[n - 1]))
    ensures WalkTo(ev, n) == Ok(parsed + [PropertySlice(ev.properties[n - 1], encodings[n - 1])])
    ensures TotalSize(WalkTo(ev, n).value) == |Packed(encodings[..n])|
  {
    hide NextSlice;
    assert encodings[..n][..n - 1] == encodings[..n - 1];
    assert WalkTo(ev, n).value[..n - 1] == parsed;
  }

  lemma NextIsField(ev: Event, fields: seq<WireField>, tail: seq<byte>, k: nat, parsed: seq<PropertySlice>)
    requires CarriesLayout(ev, fields, tail)
    requires k < |fields| && |parsed| == k
    requires forall i :: 0 <= i < k ==> parsed[i].buffer == Encodings(fields, ev.record.PointerSize())[i]
    ensures var encodings := Encodings(fields, ev.record.PointerSize());
            NextSlice(ev, parsed, |Packed(encodings[..k])|) == Ok(PropertySlice(ev.properties[k], encodings[k]))
  {
    hide WellFormed, Encode, InfoOf, CarrierFits, FindPropertySize;
    var encodings := Encodings(fields, ev.record.PointerSize());
    var rest := PackedAfter(encodings, k + 1) + tail;
    var offset := |Packed(encodings[..k])|;
    FieldInPlace(encodings, tail, k);
    if SpansTheRest(fields[k].field) {
      assert encodings[..k + 1] == encodings;
    }
    FieldSized(ev.record, fields[k].name, fields[k].field, parsed, encodings[..k], rest);
  }

  lemma FieldInPlace(encodings: seq<seq<byte>>, tail: seq<byte>, k: nat)
    requires k < |encodings|
    ensures var bytes, offset := Packed(encodings) + tail, |Packed(encodings[..k])|;
            var rest := PackedAfter(encodings, k + 1) + tail;
            && offset <= |bytes|
            && bytes[offset..] == encodings[k] + rest
            && (encodings[k] + rest)[..|encodings[k]|] == encodings[k]
  {
    PackedSplits(encodings, k + 1);
    assert encodings[..k + 1][..k] == encodings[..k];
    var before, rest := Packed(encodings[..k]), PackedAfter(encodings, k + 1) + tail;
    assert Packed(encodings) + tail == before + (encodings[k] + rest);
  }

  function PackedAfter(encodings: seq<seq<byte>>, n: nat): seq<byte>
    requires n <= |encodings|
    decreases |encodings|
  {
    if n == |encodings| then []
    else PackedAfter(encodings[..|encodings| - 1], n) + encodings[|encodings| - 1]
  }

  lemma {:induction false} PackedSplits(encodings: seq<seq<byte>>, n: nat)
    requires n <= |encodings|
    ensures Packed(encodings) == Packed(encodings[..n]) + PackedAfter(encodings, n)
    decreases |encodings|
  {
    if n == |encodings| {
      assert encodings[..n] == encodings;
    } else {
      var shorter := encodings[..|encodings| - 1];
      PackedSplits(shorter, n);
      assert shorter[..n] == encodings[..n];
    }
  }

  // ---------- decoding returns the content ----------

  /** Wide text is read up to its first NUL, whatever follows. */
  lemma {:induction false} UntilNulIs(text: seq<u16>, padding: seq<u16>)
    requires 0 !in text && (padding == [] || padding[0] == 0)
    ensures UntilNul(text + padding) == text
  {
    if text == [] {
      assert text + padding == padding;
    } else {
      assert text[0] in text;
      assert (text + padding)[1..] == text[1..] + padding;
      UntilNulIs(text[1..], padding);
    }
  }

  lemma UnitsAppend(units: seq<u16>, more: seq<byte>)
    ensures Units(UnitsToBytes(units) + more) == units + Units(more)
  {
    hide Low, High, U16FromLe, UnitsToBytes;
    var bytes := UnitsToBytes(units) + more;
    forall k | 0 <= k < |units| ensures Units(bytes)[k] == units[k] {
      UnitAt(units, k);
      LowAndHigh(units[k]);
    }
    forall k | 0 <= k < |Units(more)| ensures Units(bytes)[|units| + k] == Units(more)[k] {
      assert bytes[2 * (|units| + k)] == more[2 * k] && bytes[2 * (|units| + k) + 1] == more[2 * k + 1];
    }
  }

  lemma UnitsOfBytes(units: seq<u16>)
    ensures Units(UnitsToBytes(units)) == units
  {
    hide UnitsToBytes;
    UnitsAppend(units, []);
    assert UnitsToBytes(units) + [] == UnitsToBytes(units);
    assert Units([]) == [] && units + [] == units;
  }

  lemma WideZDecodes(units: seq<u16>)
    requires 0 !in units
    ensures UntilNul(Units(UnitsToBytes(units) + [0, 0])) == units
  {
    UnitsAppend(units, [0, 0]);
    assert Units([0, 0]) == [0];
    UntilNulIs(units, [0]);
  }

  /** Behind its own count, any content is handed to the text decoding whole. */
  lemma CountedDecodes(content: seq<byte>, bigEndian: bool, wide: bool, utf8: seq<byte> -> bool)
    requires |content| < 0x1_0000
    ensures DecodeCounted(CountPrefix(|content|, bigEndian) + content, bigEndian, wide, utf8)
            == DecodeText(content, wide, utf8)
  {
    hide CountPrefix, ReadCountPrefix, DecodeText;
    CountPrefixRead(|content|, bigEndian, content);
    PrefixAndRest(CountPrefix(|content|, bigEndian), content);
  }

  lemma CountedBinaryDecodes(content: seq<byte>)
    requires |content| < 0x1_0000
    ensures CountPrefixedBinary(CountPrefix(|content|, false) + content, 2) == Ok(content)
  {
    var bytes := CountPrefix(|content|, false) + content;
    assert bytes[..2] == CountPrefix(|content|, false);
    LittleEndian16(bytes[..2]);
    assert bytes[2..2 + |content|] == content;
  }

  lemma PrefixAndRest(prefix: seq<byte>, rest: seq<byte>)
    ensures (prefix + rest)[..|prefix|] == prefix
    ensures (prefix + rest)[|prefix|..|prefix| + |rest|] == rest
  {
  }

  lemma HexDecodes(content: seq<byte>)
    requires |content| < Radix(4)
    ensures CountPrefixedBinary(ToLittleEndian(|content|, 4) + content, 4) == Ok(content)
  {
    hide ToLittleEndian, LittleEndian, Radix;
    PrefixAndRest(ToLittleEndian(|content|, 4), content);
  }

  /** Narrow text is read without the NULs on either side of it. */
  lemma {:induction false} TrimNulsIs(leading: nat, text: seq<byte>, trailing: nat)
    requires text == [] || (text[0] != 0 && text[|text| - 1] != 0)
    ensures TrimNuls(Nuls(leading) + text + Nuls(trailing)) == text
    decreases leading + trailing
  {
    var bytes := Nuls(leading) + text + Nuls(trailing);
    if leading > 0 {
      assert bytes[1..] == Nuls(leading - 1) + text + Nuls(trailing);
      TrimNulsIs(leading - 1, text, trailing);
    } else if trailing > 0 && text == [] {
      assert bytes[1..] == Nuls(0) + text + Nuls(trailing - 1);
      TrimNulsIs(0, text, trailing - 1);
    } else if trailing > 0 {
      assert bytes[..|bytes| - 1] == Nuls(0) + text + Nuls(trailing - 1);
      TrimNulsIs(0, text, trailing - 1);
    } else {
      assert bytes == text;
    }
  }

  /** The decoder of the content's type returns the content: the text without its padding, or the bytes
      of a binary. No decoder is claimed for other raw types. */
  predicate ContentDecodes(content: Content, bytes: seq<byte>, utf8: seq<byte> -> bool) {
    match content
    case WideText(text, _) => DecodeString(UnicodeString, bytes, utf8) == Ok(Utf16(text))
    case NarrowText(_, text, _) => utf8(bytes) ==> DecodeString(AnsiString, bytes, utf8) == Ok(Utf8(text))
    case Raw(t, content) => t.Binary? ==> DecodeBinary(t, bytes) == Ok(content)
  }

  /** Decoding a field's bytes returns what was encoded: the integer or the character, the text, or the
      binary content. Narrow text must be valid UTF-8. Nothing is claimed for arrays, nor for custom
      schemas, which are located but never decoded. */
  predicate DecodesBack(field: Field, bytes: seq<byte>, pointerSize: nat, utf8: seq<byte> -> bool) {
    match field
    case ScalarField(_, value) => Reads(value, bytes, utf8)
    case Address(_, _, address) => DecodeUnsigned(bytes, pointerSize) == Ok(address)
    case AnsiZ(text) => utf8(text + [0]) ==> DecodeString(AnsiString, bytes, utf8) == Ok(Utf8(text))
    case WideZ(units) => DecodeString(UnicodeString, bytes, utf8) == Ok(Utf16(units))
    case CountedWide(t, _, units) => DecodeString(t, bytes, utf8) == Ok(Utf16(units))
    case CountedNarrow(t, _, content) =>
      if t.ManifestCountedBinary? then DecodeBinary(t, bytes) == Ok(content)
      else utf8(content) ==> DecodeString(t, bytes, utf8) == Ok(Utf8(content))
    case Hex(_, content) => DecodeBinary(HexDump, bytes) == Ok(content)
    case SecurityId(t, _, _, _, _) => DecodeString(t, bytes, utf8) == Ok(SidText(bytes))
    case RestWide(_, units) => DecodeString(NonNullTerminatedString, bytes, utf8) == Ok(Utf16(units))
    case RestNarrow(_, content) =>
      utf8(content) ==> DecodeString(NonNullTerminatedAnsiString, bytes, utf8) == Ok(Utf8(content))
    case Ipv6(content) => DecodeBinary(Binary, bytes) == Ok(content)
    case Declared(_, content) => ContentDecodes(content, bytes, utf8)
    case SizedBy(_, content) => ContentDecodes(content, bytes, utf8)
    case ArrayField(_, _, _, _) => true
    case Custom(_, _) => true
  }

  lemma TerminatedTextDecodes(text: seq<byte>)
    requires 0 !in text
    ensures TrimNuls(text + [0]) == text
  {
    if text != [] {
      assert text[0] in text && text[|text| - 1] in text;
    }
    assert Nuls(0) + text + Nuls(1) == text + [0];
    TrimNulsIs(0, text, 1);
  }

  /** Text of a declared length, or of a length an earlier field carries, decodes to the text alone. */
  lemma SizedContentIsDecoded(content: Content, utf8: seq<byte> -> bool)
    requires WellFormedContent(content)
    ensures ContentDecodes(content, ContentBytes(content), utf8)
  {
    hide UnitsToBytes, Units, UntilNul, TrimNuls;
    match content
    case WideText(text, padding) =>
      UnitsOfBytes(text + padding);
      UntilNulIs(text, padding);
    case NarrowText(leading, text, trailing) => TrimNulsIs(leading, text, trailing);
    case Raw(_, _) =>
  }

  /** Every string of whole units, and every string of bytes, is such a text: none is left out. */
  lemma AnyBytesAreText(bytes: seq<byte>)
    ensures exists c :: WellFormedContent(c) && c.NarrowText? && ContentBytes(c) == bytes
    ensures |bytes| % 2 == 0 ==> exists c :: WellFormedContent(c) && c.WideText? && ContentBytes(c) == bytes
  {
    hide UnitsToBytes, Units;
    var narrow := NarrowTextOf(bytes);
    assert WellFormedContent(narrow) && narrow.NarrowText? && ContentBytes(narrow) == bytes;
    if |bytes| % 2 == 0 {
      var units := Units(bytes);
      var text := UntilNul(units);
      UntilNulSplits(units);
      var wide := WideText(text, units[|text|..]);
      assert text + units[|text|..] == units;
      BytesOfUnits(bytes);
      assert WellFormedContent(wide) && wide.WideText? && ContentBytes(wide) == bytes;
    }
  }

  lemma {:induction false} UntilNulSplits(units: seq<u16>)
    ensures UntilNul(units) <= units && 0 !in UntilNul(units)
    ensures |UntilNul(units)| < |units| ==> units[|UntilNul(units)|] == 0
  {
    if units != [] && units[0] != 0 {
      UntilNulSplits(units[1..]);
    }
  }

  lemma BytesOfUnits(bytes: seq<byte>)
    requires |bytes| % 2 == 0
    ensures UnitsToBytes(Units(bytes)) == bytes
  {
    hide UnitsToBytes;
    var units := Units(bytes);
    forall i | 0 <= i < |bytes| ensures UnitsToBytes(units)[i] == bytes[i] {
      UnitAt(units, i / 2);
      assert i == 2 * (i / 2) || i == 2 * (i / 2) + 1;
    }
  }

  lemma {:induction false} NarrowTextOf(bytes: seq<byte>) returns (c: Content)
    ensures c.NarrowText? && WellFormedContent(c) && ContentBytes(c) == bytes
    decreases |bytes|
  {
    hide ContentBytes;
    if bytes != [] && bytes[0] == 0 {
      var inner := NarrowTextOf(bytes[1..]);
      PadNarrowText(inner);
      assert bytes == [0] + bytes[1..];
      c := inner.(leading := inner.leading + 1);
    } else if bytes != [] && bytes[|bytes| - 1] == 0 {
      var inner := NarrowTextOf(bytes[..|bytes| - 1]);
      PadNarrowText(inner);
      assert bytes == bytes[..|bytes| - 1] + [0];
      c := inner.(trailing := inner.trailing + 1);
    } else {
      c := NarrowText(0, bytes, 0);
      UnpaddedText(bytes);
    }
  }

  lemma UnpaddedText(text: seq<byte>)
    ensures ContentBytes(NarrowText(0, text, 0)) == text
  {
    assert Nuls(0) == [];
  }

  lemma NulsGrow(count: nat)
    ensures Nuls(count + 1) == [0] + Nuls(count) == Nuls(count) + [0]
  {
  }

  lemma PrependToThree(first: seq<byte>, a: seq<byte>, b: seq<byte>, c: seq<byte>)
    ensures first + (a + b + c) == (first + a) + b + c
  {
  }

  lemma PadNarrowText(c: Content)
    requires c.NarrowText?
    ensures ContentBytes(c.(leading := c.leading + 1)) == [0] + ContentBytes(c)
    ensures ContentBytes(c.(trailing := c.trailing + 1)) == ContentBytes(c) + [0]
  {
    hide UnitsToBytes, Nuls;
    NulsGrow(c.leading);
    NulsGrow(c.trailing);
    PrependToThree([0], Nuls(c.leading), c.text, Nuls(c.trailing));
  }

  lemma ScalarDecodes(field: Field, pointerSize: nat, utf8: seq<byte> -> bool)
    requires WellFormed(field, pointerSize) && (field.ScalarField? || field.Address?)
    ensures DecodesBack(field, Encode(field, pointerSize), pointerSize, utf8)
  {
    hide EncodeScalar, Reads;
    if field.ScalarField? {
      ScalarReadsBack(field.value, utf8);
    }
  }

  lemma TextDecodes(field: Field, pointerSize: nat, utf8: seq<byte> -> bool)
    requires WellFormed(field, pointerSize)
    requires field.AnsiZ? || field.WideZ? || field.CountedWide? || field.RestWide? || field.RestNarrow?
    ensures DecodesBack(field, Encode(field, pointerSize), pointerSize, utf8)
  {
    hide UnitsToBytes, CountPrefix, Units, UntilNul, TrimNuls, DecodeCounted, ContentDecodes;
    hide ContentBytes, SubAuthorityBytes, ToLittleEndian;
    match field
    case AnsiZ(text) => TerminatedTextDecodes(text);
    case WideZ(units) => WideZDecodes(units);
    case CountedWide(t, _, units) =>
      CountedDecodes(UnitsToBytes(units), IsReversedCounted(t), true, utf8);
      UnitsOfBytes(units);
    case RestWide(_, units) => UnitsOfBytes(units);
    case _ =>
  }

  lemma BytesDecode(field: Field, pointerSize: nat, utf8: seq<byte> -> bool)
    requires WellFormed(field, pointerSize)
    requires field.CountedNarrow? || field.Hex? || field.SecurityId?
    ensures DecodesBack(field, Encode(field, pointerSize), pointerSize, utf8)
  {
    hide CountPrefix, ToLittleEndian, DecodeCounted, CountPrefixedBinary, SubAuthorityBytes, Radix;
    match field
    case CountedNarrow(t, _, content) =>
      if t.ManifestCountedBinary? {
        CountedBinaryDecodes(content);
      } else {
        CountedDecodes(content, IsReversedCounted(t), false, utf8);
      }
    case Hex(_, content) => HexDecodes(content);
    case SecurityId(_, _, _, _, _) => SecurityIdDecodes(field, pointerSize, utf8);
  }

  lemma SecurityIdDecodes(field: Field, pointerSize: nat, utf8: seq<byte> -> bool)
    requires WellFormed(field, pointerSize) && field.SecurityId?
    ensures DecodesBack(field, Encode(field, pointerSize), pointerSize, utf8)
  {
    hide SubAuthorityBytes;
    var bytes := Encode(field, pointerSize);
    assert bytes[1] == |field.subAuthorities| && bytes[..|bytes|] == bytes;
  }

  /** Every field of a layout is located where it was packed, and decodes back to its content. */
  lemma LayoutDecodesBack(ev: Event, fields: seq<WireField>, tail: seq<byte>, k: nat, utf8: seq<byte> -> bool)
    requires CarriesLayout(ev, fields, tail)
    requires k < |fields|
    ensures SliceAt(ev, k).Ok?
    ensures SliceAt(ev, k).value == PropertySlice(ev.properties[k], Encode(fields[k].field, ev.record.PointerSize()))
    ensures DecodesBack(fields[k].field, SliceAt(ev, k).value.buffer, ev.record.PointerSize(), utf8)
  {
    hide NextSlice;
    var field := fields[k].field;
    WalkUndoesLayout(ev, fields, tail, k + 1);
    WalkFollowsSchema(ev, k + 1, k);
    if field.AnsiZ? || field.WideZ? || field.CountedWide? || field.RestWide? || field.RestNarrow? {
      TextDecodes(field, ev.record.PointerSize(), utf8);
    } else if field.CountedNarrow? || field.Hex? || field.SecurityId? {
      BytesDecode(field, ev.record.PointerSize(), utf8);
    } else if field.Declared? || field.SizedBy? {
      SizedContentIsDecoded(field.content, utf8);
    } else if field.ScalarField? || field.Address? {
      ScalarDecodes(field, ev.record.PointerSize(), utf8);
    }
  }
}
