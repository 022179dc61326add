/** How many bytes a property occupies: the parser's own computation, and the serializer's
    computation for structure members. */
module Sizing {
  import opened Wrappers
  import opened Bytes
  import opened TdhTypes

  datatype ParserError =
    | NotFound | InvalidType | LengthMismatch | Utf8Error | SliceError | TdhNativeError
    | PropertyError(message: string)

  /** The parts of an event record decoding looks at. `tdhSize` stands for `TdhGetPropertySize`:
      it sees the record and the property's name only, and may fail. */
  datatype EventRecord = EventRecord(
    userBuffer: seq<byte>, is32Bit: bool, tdhSize: string -> Option<u32>)
  {
    function PointerSize(): nat {
      if is32Bit then 4 else 8
    }
  }

  datatype PropertySlice = PropertySlice(property: Property, buffer: seq<byte>)

  function TdhPropertySize(record: EventRecord, property: Property): Result<nat, ParserError> {
    match record.tdhSize(property.name)
    case Some(size) => Ok(size)
    case None => Err(TdhNativeError)
  }

  /** Value of the already parsed top-level property an index points at. */
  function IndexValue(parsed: seq<PropertySlice>, index: nat): (r: Option<nat>)
    ensures r.Some? ==> r.value < USIZE_LIMIT
  {
    if index < |parsed| then IndexValueFromBytes(parsed[index].buffer) else None
  }

  /** The 16-bit byte count in front of a counted field. */
  function ReadCountPrefix(buffer: seq<byte>, bigEndian: bool): Result<u16, ParserError> {
    if |buffer| < 2 then Err(PropertyError("counted string does not have length"))
    else Ok(if bigEndian then U16FromBe(buffer[0], buffer[1]) else U16FromLe(buffer[0], buffer[1]))
  }

  /** Bytes of a SID: revision, sub-authority count, authority, then 4 bytes per sub-authority. */
  function SidSize(subAuthorityCount: byte): nat {
    8 + 4 * (subAuthorityCount)
  }

  predicate IsReversedCounted(t: TdhInType) {
    t.ReversedCountedString? || t.ReversedCountedAnsiString?
  }

  /** Size of a field no usable schema length covers: read from its content, or from its type. */
  function ContentSize(record: EventRecord, property: Property, remaining: seq<byte>): Result<nat, ParserError>
    requires property.info.Value?
  {
    var t := property.info.inType;
    match t
    case AnsiString =>
      var nul := FindNul(remaining);
      if nul.None? then Result<nat, ParserError>.Err(PropertyError("AnsiString property is not null-terminated"))
      else Ok(nul.value + 1)
    case UnicodeString =>
      var nul := FindNulUnit(remaining);
      if nul.None? then Result<nat, ParserError>.Err(PropertyError("UnicodeString property is not null-terminated"))
      else Ok((nul.value + 1) * 2)
    case ManifestCountedString | CountedString | ManifestCountedAnsiString | CountedAnsiString
       | ReversedCountedString | ReversedCountedAnsiString | ManifestCountedBinary =>
      var byteCount :- ReadCountPrefix(remaining, IsReversedCounted(t));
      Ok(2 + byteCount)
    case NonNullTerminatedString | NonNullTerminatedAnsiString => Ok(|remaining|)
    case Sid | WbemSid =>
      if |remaining| <= 1 then Err(PropertyError("SID property is truncated"))
      else Ok(SidSize(remaining[1]))
    case HexDump =>
      if |remaining| < 4 then Err(PropertyError("hexdump property is truncated"))
      else Ok(4 + LittleEndian(remaining[..4]))
    case Binary =>
      if property.info.outType.OutTypeIpv6? then Ok(16) else TdhPropertySize(record, property)
    case _ =>
      match InTypeFixedSize(t)
      case Some(size) => Ok(size)
      case None => TdhPropertySize(record, property)
  }

  /** Element size of a plain array. */
  function ElementSize(record: EventRecord, info: PropertyInfo, parsed: seq<PropertySlice>): (r: Option<nat>)
    requires info.Array?
  {
    if IsPointerSized(info.inType) then Some(record.PointerSize())
    else
      match info.length
      case Length(l) =>
        if l == 0 then InTypeFixedSize(info.inType) else Some(LiteralSchemaLengthBytes(info.inType, l))
      case LengthIndex(index) =>
        match InTypeFixedSize(info.inType)
        case Some(size) => Some(size)
        case None =>
          var len :- IndexValue(parsed, index);
          SchemaLengthBytes(info.inType, len)
  }

  /** `Parser::find_property_size`: the size of `property`, given the properties parsed before it
      and the bytes that remain. */
  function FindPropertySize(
    record: EventRecord, property: Property, parsed: seq<PropertySlice>, remaining: seq<byte>)
    : Result<nat, ParserError>
  {
    match property.info
    case Value(inType, _, length) =>
      if IsPointerSized(inType) then Ok(record.PointerSize())
      else if length.Length? && length.length > 0 && !IsContentSized(inType) then
        Ok(LiteralSchemaLengthBytes(inType, length.length))
      else if length.LengthIndex? && !IsContentSized(inType) then (
        match InTypeFixedSize(inType)
        case Some(size) => Ok(size)
        case None =>
          match IndexValue(parsed, length.index)
          case None => TdhPropertySize(record, property)
          case Some(len) =>
            match SchemaLengthBytes(inType, len)
            case Some(size) => Ok(size)
            case None => TdhPropertySize(record, property))
      else ContentSize(record, property, remaining)
    case Array(_, _, _, count) =>
      var elem := ElementSize(record, property.info, parsed);
      var elementCount := match count
                          case Count(c) => Some(c)
                          case CountIndex(index) => IndexValue(parsed, index);
      (match elementCount
       case None => TdhPropertySize(record, property)
       case Some(c) =>
         if elem.Some? && CheckedMul(elem.value, c).Some? then Ok(elem.value * c)
         else if c == 0 then Ok(0)
         else TdhPropertySize(record, property))
    case Struct(_) => (
      match FixedSize(property, record.PointerSize())
      case Some(size) => Ok(size)
      case None => TdhPropertySize(record, property))
    case StructArray(members, count) => (
      match FixedSize(property, record.PointerSize())
      case Some(size) => Ok(size)
      case None =>
        var elem := SumFixedSizes(members, record.PointerSize());
        var elementCount := if count.CountIndex? then IndexValue(parsed, count.index) else None;
        if elem.Some? && elementCount.Some? && CheckedMul(elem.value, elementCount.value).Some? then
          Ok(elem.value * elementCount.value)
        else TdhPropertySize(record, property))
    case Unsupported(length) =>
      match length
      case Length(l) => if l > 0 then Ok(l) else TdhPropertySize(record, property)
      case LengthIndex(index) =>
        match IndexValue(parsed, index)
        case Some(len) => Ok(len)
        case None => TdhPropertySize(record, property)
  }

  /** `variable_member_size`: the size of a structure member, from its leading bytes only. */
  function VariableMemberSize(member: Property, remaining: seq<byte>): Option<nat> {
    if !(member.info.Value? && member.info.length == Length(0)) then None
    else
      match member.info.inType
      case AnsiString =>
        var nul :- FindNul(remaining);
        Some(nul + 1)
      case UnicodeString =>
        var nul :- FindNulUnit(remaining);
        Some((nul + 1) * 2)
      case ManifestCountedString | CountedString | ManifestCountedAnsiString | CountedAnsiString
         | ManifestCountedBinary =>
        if |remaining| < 2 then None else Some(2 + U16FromLe(remaining[0], remaining[1]))
      case ReversedCountedString | ReversedCountedAnsiString =>
        if |remaining| < 2 then None else Some(2 + U16FromBe(remaining[0], remaining[1]))
      case HexDump =>
        if |remaining| < 4 then None else Some(4 + LittleEndian(remaining[..4]))
      case NonNullTerminatedString | NonNullTerminatedAnsiString => Some(|remaining|)
      case Sid | WbemSid =>
        if |remaining| <= 1 then None else Some(SidSize(remaining[1]))
      case _ => None
  }

  /** The size `member_buffer` slices a structure member with. */
  function MemberSize(member: Property, remaining: seq<byte>, pointerSize: nat): Option<nat>
    requires pointerSize == 4 || pointerSize == 8
  {
    match FixedSize(member, pointerSize)
    case Some(size) => Some(size)
    case None => VariableMemberSize(member, remaining)
  }

  // ---------- the implementations agree ----------

  /** A size the schema fixes is the size the walk uses, whatever was parsed before, whatever bytes
      follow, and whatever TDH would answer. */
  lemma FixedSizeIsWalkSize(
    record: EventRecord, property: Property, parsed: seq<PropertySlice>, remaining: seq<byte>)
    requires FixedSize(property, record.PointerSize()).Some?
    ensures FindPropertySize(record, property, parsed, remaining)
            == Ok(FixedSize(property, record.PointerSize()).value)
  {
    match property.info
    case Array(inType, _, length, count) =>
      assert ElementSize(record, property.info, parsed)
          == FixedElementSize(inType, length, record.PointerSize());
    case _ =>
  }

  /** The value members the walk sizes locally but the serializer cannot: a length held by another
      property, a declared length on a content-sized type, and a zero-length IPv6 address. */
  predicate OnlyWalkSizes(info: PropertyInfo, parsed: seq<PropertySlice>, remaining: seq<byte>)
    requires info.Value?
  {
    var t := info.inType;
    && !IsPointerSized(t)
    && match info.length
       case LengthIndex(index) =>
         if IsContentSized(t) then VariableMemberSize(Property("", Value(t, info.outType, Length(0))), remaining).Some?
         else InTypeFixedSize(t).Some?
              || (IndexValue(parsed, index).Some?
                  && SchemaLengthBytes(t, IndexValue(parsed, index).value).Some?)
       case Length(l) =>
         if l == 0 then t.Binary? && info.outType.OutTypeIpv6?
         else IsContentSized(t)
              && VariableMemberSize(Property("", Value(t, info.outType, Length(0))), remaining).Some?
  }

  /** Where the serializer sizes a member, the walk computes that very size on the same bytes. */
  lemma MemberSizeIsWalkSize(
    record: EventRecord, member: Property, parsed: seq<PropertySlice>, remaining: seq<byte>)
    requires MemberSize(member, remaining, record.PointerSize()).Some?
    ensures FindPropertySize(record, member, parsed, remaining)
            == Ok(MemberSize(member, remaining, record.PointerSize()).value)
  {
    if FixedSize(member, record.PointerSize()).Some? {
      FixedSizeIsWalkSize(record, member, parsed, remaining);
    }
  }

  /** The walk sizes a value without the help of TDH exactly where the serializer sizes it as a
      member, or `OnlyWalkSizes` holds. */
  lemma ValueSizedWithoutTdhIff(
    record: EventRecord, member: Property, parsed: seq<PropertySlice>, remaining: seq<byte>)
    requires member.info.Value?
    requires record.tdhSize(member.name).None?
    ensures FindPropertySize(record, member, parsed, remaining).Ok?
            <==> MemberSize(member, remaining, record.PointerSize()).Some?
                 || OnlyWalkSizes(member.info, parsed, remaining)
    ensures OnlyWalkSizes(member.info, parsed, remaining) ==>
              MemberSize(member, remaining, record.PointerSize()).None?
  {
    if member.info.length.LengthIndex? {
      CarriedValueSizedIff(record, member, parsed, remaining);
    } else {
      LiteralValueSizedIff(record, member, parsed, remaining);
    }
  }

  lemma CarriedValueSizedIff(
    record: EventRecord, member: Property, parsed: seq<PropertySlice>, remaining: seq<byte>)
    requires member.info.Value? && member.info.length.LengthIndex?
    requires record.tdhSize(member.name).None?
    ensures FindPropertySize(record, member, parsed, remaining).Ok?
            <==> MemberSize(member, remaining, record.PointerSize()).Some?
                 || OnlyWalkSizes(member.info, parsed, remaining)
    ensures OnlyWalkSizes(member.info, parsed, remaining) ==>
              MemberSize(member, remaining, record.PointerSize()).None?
  {
    hide LittleEndian, FindNul, FindNulUnit, IndexValue, U16FromLe, U16FromBe, SidSize, SchemaLengthBytes;
  }

  lemma LiteralValueSizedIff(
    record: EventRecord, member: Property, parsed: seq<PropertySlice>, remaining: seq<byte>)
    requires member.info.Value? && member.info.length.Length?
    requires record.tdhSize(member.name).None?
    ensures FindPropertySize(record, member, parsed, remaining).Ok?
            <==> MemberSize(member, remaining, record.PointerSize()).Some?
                 || OnlyWalkSizes(member.info, parsed, remaining)
    ensures OnlyWalkSizes(member.info, parsed, remaining) ==>
              MemberSize(member, remaining, record.PointerSize()).None?
  {
    hide LittleEndian, FindNul, FindNulUnit, IndexValue, U16FromLe, U16FromBe, SidSize, SchemaLengthBytes;
  }

  // ---------- sizes by reference never wrap ----------

  /** The exact, unbounded size of a property sized by reference: unit times carrier value.
      `None` when a carrier is not a parsed integer, or an element's size is not locally known. */
  function ByReferenceSize(record: EventRecord, property: Property, parsed: seq<PropertySlice>): Option<nat> {
    match property.info
    case Value(t, _, LengthIndex(index)) =>
      var len :- IndexValue(parsed, index);
      Some(UnitBytes(t, len))
    case Array(t, _, length, count) =>
      var elem :-
        if IsPointerSized(t) then Some(record.PointerSize())
        else if length.Length? && length.length > 0 then Some(UnitBytes(t, length.length))
        else if InTypeFixedSize(t).Some? then InTypeFixedSize(t)
        else if length.LengthIndex? then
          (var len :- IndexValue(parsed, length.index);
           Some(UnitBytes(t, len)))
        else None;
      var c :- if count.Count? then Some(count.count as nat) else IndexValue(parsed, count.index);
      Some(elem * c)
    case StructArray(members, CountIndex(index)) =>
      var elem :- SumFixedSizes(members, record.PointerSize());
      var c :- IndexValue(parsed, index);
      Some(elem * c)
    case Unsupported(LengthIndex(index)) => IndexValue(parsed, index)
    case _ => None
  }

  /** Whether the size of `property` depends on the value of another property. */
  predicate SizedByReference(property: Property) {
    match property.info
    case Value(t, _, LengthIndex(_)) =>
      !IsPointerSized(t) && !IsContentSized(t) && InTypeFixedSize(t).None?
    case Array(t, _, length, count) =>
      || count.CountIndex?
      || (length.LengthIndex? && !IsPointerSized(t) && InTypeFixedSize(t).None?)
    case StructArray(_, CountIndex(_)) => true
    case Unsupported(LengthIndex(_)) => true
    case _ => false
  }

  predicate IsEmptyArray(property: Property, parsed: seq<PropertySlice>) {
    property.info.Array?
    && match property.info.count
       case Count(c) => c == 0
       case CountIndex(index) => IndexValue(parsed, index) == Some(0)
  }

  /** What the walk answers for a property sized by reference. */
  function ExactOrDeferred(record: EventRecord, property: Property, parsed: seq<PropertySlice>)
    : Result<nat, ParserError>
  {
    match ByReferenceSize(record, property, parsed)
    case Some(size) => if size < USIZE_LIMIT then Ok(size) else TdhPropertySize(record, property)
    case None => if IsEmptyArray(property, parsed) then Ok(0) else TdhPropertySize(record, property)
  }

  /** For every carrier value, a size by reference is the exact product when it fits `usize`, and is
      deferred to TDH otherwise: never a wrapped value. */
  lemma ByReferenceSizeIsExact(
    record: EventRecord, property: Property, parsed: seq<PropertySlice>, remaining: seq<byte>)
    requires SizedByReference(property)
    ensures FindPropertySize(record, property, parsed, remaining) == ExactOrDeferred(record, property, parsed)
  {
    if property.info.Array? {
      ArrayByReferenceSizeIsExact(record, property, parsed, remaining);
    }
  }

  lemma ArrayByReferenceSizeIsExact(
    record: EventRecord, property: Property, parsed: seq<PropertySlice>, remaining: seq<byte>)
    requires property.info.Array?
    ensures FindPropertySize(record, property, parsed, remaining) == ExactOrDeferred(record, property, parsed)
  {
    hide IndexValue, InTypeFixedSize, UnitBytes, IsPointerSized, LiteralSchemaLengthBytes, SchemaLengthBytes;
    var info := property.info;
    var c := if info.count.Count? then Some(info.count.count as nat) else IndexValue(parsed, info.count.index);
    if c.Some? && ElementSize(record, info, parsed).None? && info.length.LengthIndex? {
      match IndexValue(parsed, info.length.index)
      case Some(len) =>
        if UnitBytes(info.inType, len) >= USIZE_LIMIT {
          ProductKeepsOverflow(UnitBytes(info.inType, len), c.value);
        }
      case None =>
    }
  }

  /** Multiplying an unrepresentable size by a count gives zero or another unrepresentable size. */
  lemma ProductKeepsOverflow(size: nat, count: nat)
    requires size >= USIZE_LIMIT
    ensures size * count >= USIZE_LIMIT || (count == 0 && size * count == 0)
  {
    if count > 0 {
      assert size * count == size + size * (count - 1);
      assert size * (count - 1) >= 0;
    }
  }

  /** When the schema alone fixes the size of an array: its count is literal, so is the length of its elements
      unless they are pointers, and the product fits. */
  lemma FixedArrayIff(property: Property, pointerSize: nat)
    requires pointerSize == 4 || pointerSize == 8
    requires property.info.Array?
    ensures var t, length, count := property.info.inType, property.info.length, property.info.count;
            FixedSize(property, pointerSize).Some?
            <==> && count.Count?
                 && (t.Pointer? || t.SizeT? || (length.Length? && (length.length > 0 || InTypeFixedSize(t).Some?)))
                 && FixedElementSize(t, length, pointerSize).value * count.count < USIZE_LIMIT
  {
    hide InTypeFixedSize, UnitBytes;
  }

  // ---------- when TDH is asked ----------

  /** Whether neither the schema, nor the bytes, nor an earlier property gives the size. */
  predicate AsksTdh(record: EventRecord, info: PropertyInfo, parsed: seq<PropertySlice>) {
    match info
    case Value(t, outType, Length(l)) => l == 0 && (t.Null? || (t.Binary? && !outType.OutTypeIpv6?))
    case Value(t, _, LengthIndex(index)) =>
      && (t.Null? || t.Binary? || t.UnicodeString? || t.AnsiString?)
      && (IndexValue(parsed, index).None?
          || (if t.UnicodeString? then 2 else 1) * IndexValue(parsed, index).value >= USIZE_LIMIT)
    case Array(_, _, _, _) =>
      var size := ByReferenceSize(record, Property("", info), parsed);
      if size.Some? then size.value >= USIZE_LIMIT else !IsEmptyArray(Property("", info), parsed)
    case Struct(members) => SumFixedSizes(members, record.PointerSize()).None?
    case StructArray(members, count) =>
      var value := if count.Count? then Some(count.count as nat) else IndexValue(parsed, count.index);
      SumFixedSizes(members, record.PointerSize()).None?
      || value.None?
      || SumFixedSizes(members, record.PointerSize()).value * value.value >= USIZE_LIMIT
    case Unsupported(Length(l)) => l == 0
    case Unsupported(LengthIndex(index)) => IndexValue(parsed, index).None?
  }

  /** TDH is asked exactly there, about the property by its name, and its answer is the size; anywhere else
      its answer makes no difference. */
  lemma TdhAskedIff(
    record: EventRecord, property: Property, parsed: seq<PropertySlice>, remaining: seq<byte>,
    other: string -> Option<u32>)
    ensures AsksTdh(record, property.info, parsed) ==>
              FindPropertySize(record, property, parsed, remaining)
              == match record.tdhSize(property.name) case Some(size) => Ok(size) case None => Err(TdhNativeError)
    ensures !AsksTdh(record, property.info, parsed) ==>
              FindPropertySize(record, property, parsed, remaining)
              == FindPropertySize(record.(tdhSize := other), property, parsed, remaining)
  {
    if property.info.Array? {
      ArrayAsksTdhIff(record, property, parsed, remaining, other);
    } else {
      OtherAsksTdhIff(record, property, parsed, remaining, other);
    }
  }

  lemma ArrayAsksTdhIff(
    record: EventRecord, property: Property, parsed: seq<PropertySlice>, remaining: seq<byte>,
    other: string -> Option<u32>)
    requires property.info.Array?
    ensures AsksTdh(record, property.info, parsed) ==>
              FindPropertySize(record, property, parsed, remaining) == TdhPropertySize(record, property)
    ensures !AsksTdh(record, property.info, parsed) ==>
              FindPropertySize(record, property, parsed, remaining)
              == FindPropertySize(record.(tdhSize := other), property, parsed, remaining)
  {
    hide FindPropertySize, IndexValue, InTypeFixedSize, UnitBytes, IsPointerSized;
    ArrayByReferenceSizeIsExact(record, property, parsed, remaining);
    ArrayByReferenceSizeIsExact(record.(tdhSize := other), property, parsed, remaining);
  }

  lemma OtherAsksTdhIff(
    record: EventRecord, property: Property, parsed: seq<PropertySlice>, remaining: seq<byte>,
    other: string -> Option<u32>)
    requires !property.info.Array?
    ensures AsksTdh(record, property.info, parsed) ==>
              FindPropertySize(record, property, parsed, remaining) == TdhPropertySize(record, property)
    ensures !AsksTdh(record, property.info, parsed) ==>
              FindPropertySize(record, property, parsed, remaining)
              == FindPropertySize(record.(tdhSize := other), property, parsed, remaining)
  {
    hide LittleEndian, FindNul, FindNulUnit, IndexValue, U16FromLe, U16FromBe, SidSize, SumFixedSizes;
  }
}
