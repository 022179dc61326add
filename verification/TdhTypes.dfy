/** Property schemas as TDH describes them, and the sizes that follow from the schema alone. */
module TdhTypes {
  import opened Wrappers
  import opened Bytes

  datatype TdhInType =
    | Null | UnicodeString | AnsiString
    | Int8 | UInt8 | Int16 | UInt16 | Int32 | UInt32 | Int64 | UInt64
    | Float | Double | Boolean | Binary | Guid | Pointer | FileTime | SystemTime
    | Sid | HexInt32 | HexInt64
    | ManifestCountedString | ManifestCountedAnsiString | ManifestCountedBinary
    | CountedString | CountedAnsiString
    | ReversedCountedString | ReversedCountedAnsiString
    | NonNullTerminatedString | NonNullTerminatedAnsiString
    | UnicodeChar | AnsiChar | SizeT | HexDump | WbemSid

  /** The out types sizing looks at; the others only select a display format. */
  datatype TdhOutType = OutTypeNull | OutTypeIpv6 | OutTypeOther(code: u16)

  datatype PropertyLength = Length(length: u16) | LengthIndex(index: u16)

  datatype PropertyCount = Count(count: u16) | CountIndex(index: u16)

  datatype PropertyInfo =
    | Value(inType: TdhInType, outType: TdhOutType, length: PropertyLength)
    | Array(inType: TdhInType, outType: TdhOutType, length: PropertyLength, count: PropertyCount)
    | Struct(members: seq<Property>)
    | StructArray(members: seq<Property>, count: PropertyCount)
    | Unsupported(length: PropertyLength)

  datatype Property = Property(name: string, info: PropertyInfo)

  /** Value of the property a count or length index points at, read by width. */
  function IndexValueFromBytes(bytes: seq<byte>): (r: Option<nat>)
    ensures r.Some? <==> |bytes| == 1 || |bytes| == 2 || |bytes| == 4 || |bytes| == 8
    ensures r.Some? ==> r.value == LittleEndian(bytes) < USIZE_LIMIT
  {
    if |bytes| == 1 || |bytes| == 2 || |bytes| == 4 || |bytes| == 8 then
      assert Radix(1) == 0x100;
      assert Radix(2) == 0x100 * Radix(1);
      assert Radix(3) == 0x100 * Radix(2);
      assert Radix(4) == 0x100 * Radix(3);
      assert Radix(5) == 0x100 * Radix(4);
      assert Radix(6) == 0x100 * Radix(5);
      assert Radix(7) == 0x100 * Radix(6);
      assert Radix(8) == 0x100 * Radix(7);
      Some(LittleEndian(bytes))
    else None
  }

  predicate IsPointerSized(t: TdhInType) {
    t.Pointer? || t.SizeT?
  }

  /** Bytes a schema length stands for: WCHARs for a Unicode string, bytes otherwise. */
  function UnitBytes(t: TdhInType, length: nat): nat {
    if t.UnicodeString? then 2 * length else length
  }

  /** The checked conversion of a schema length to bytes. */
  function SchemaLengthBytes(t: TdhInType, length: nat): (r: Option<nat>)
    requires length < USIZE_LIMIT
    ensures r == if UnitBytes(t, length) < USIZE_LIMIT then Some(UnitBytes(t, length)) else None
  {
    if t.UnicodeString? then CheckedMul(length, 2) else Some(length)
  }

  /** A 16-bit literal length never overflows the conversion. */
  function LiteralSchemaLengthBytes(t: TdhInType, length: u16): (n: nat)
    ensures n == UnitBytes(t, length)
  {
    SchemaLengthBytes(t, length).value
  }

  /** Whether the field's own bytes determine its size, its length property being ignored. */
  predicate IsContentSized(t: TdhInType) {
    || t.ManifestCountedString? || t.CountedString?
    || t.ManifestCountedAnsiString? || t.CountedAnsiString?
    || t.ReversedCountedString? || t.ReversedCountedAnsiString?
    || t.ManifestCountedBinary?
    || t.NonNullTerminatedString? || t.NonNullTerminatedAnsiString?
    || t.Sid? || t.WbemSid? || t.HexDump?
  }

  function InTypeFixedSize(t: TdhInType): Option<nat> {
    match t
    case Int8 | UInt8 | AnsiChar => Some(1)
    case Int16 | UInt16 | UnicodeChar => Some(2)
    case Int32 | UInt32 | Float | Boolean | HexInt32 => Some(4)
    case Int64 | UInt64 | Double | FileTime | HexInt64 => Some(8)
    case Guid | SystemTime => Some(16)
    case _ => None
  }

  /** Size of a property whose layout is fixed by the schema, `None` when it varies. */
  function FixedSize(property: Property, pointerSize: nat): (r: Option<nat>)
    requires pointerSize == 4 || pointerSize == 8
    ensures r.Some? ==> r.value < USIZE_LIMIT
    decreases property, 1
  {
    match property.info
    case Value(inType, _, length) =>
      if IsPointerSized(inType) then Some(pointerSize)
      else (
        match length
        case Length(l) =>
          if l > 0 && !IsContentSized(inType) then Some(LiteralSchemaLengthBytes(inType, l))
          else InTypeFixedSize(inType)
        case LengthIndex(_) => None)
    case Array(inType, _, length, count) =>
      var elem :- FixedElementSize(inType, length, pointerSize);
      (match count
       case Count(c) => CheckedMul(elem, c)
       case CountIndex(_) => None)
    case Struct(members) => SumFixedSizes(members, pointerSize)
    case StructArray(members, count) =>
      var elem :- SumFixedSizes(members, pointerSize);
      (match count
       case Count(c) => CheckedMul(elem, c)
       case CountIndex(_) => None)
    case Unsupported(length) =>
      if length.Length? && length.length > 0 then Some(length.length) else None
  }

  /** Size of one element of a plain array, when the schema fixes it. */
  function FixedElementSize(t: TdhInType, length: PropertyLength, pointerSize: nat): Option<nat> {
    if IsPointerSized(t) then Some(pointerSize)
    else
      match length
      case Length(l) => if l > 0 then Some(LiteralSchemaLengthBytes(t, l)) else InTypeFixedSize(t)
      case LengthIndex(_) => None
  }

  /** `members.iter().map(fixed_size).sum::<Option<usize>>()`: the sum is a plain `usize` addition,
      it wraps around when the declared sizes exceed the address space. */
  function SumFixedSizes(members: seq<Property>, pointerSize: nat): (r: Option<nat>)
    requires pointerSize == 4 || pointerSize == 8
    ensures r.Some? ==> r.value < USIZE_LIMIT
    decreases members, 0
  {
    if members == [] then Some(0)
    else
      var first :- FixedSize(members[0], pointerSize);
      var rest :- SumFixedSizes(members[1..], pointerSize);
      Some(WrappingAdd(first, rest))
  }
}
