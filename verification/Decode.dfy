/** The string and binary decoders, over an already located property. */
module Decode {
  import opened Wrappers
  import opened Bytes
  import opened TdhTypes
  import opened Sizing
  import opened Walk

  /** A decoded string before lossy conversion: UTF-16 units, or bytes that passed UTF-8 validation;
      a SID is the bytes handed to its text conversion. */
  datatype Text = Utf16(units: seq<u16>) | Utf8(bytes: seq<byte>) | SidText(bytes: seq<byte>)

  /** `chunks_exact(2)`, each pair a little-endian unit: a trailing odd byte is dropped. */
  function Units(bytes: seq<byte>): (r: seq<u16>)
    ensures |r| == |bytes| / 2
  {
    seq(|bytes| / 2, k requires 0 <= k < |bytes| / 2 => U16FromLe(bytes[2 * k], bytes[2 * k + 1]))
  }

  /** Up to the first zero unit. */
  function UntilNul(units: seq<u16>): seq<u16> {
    if units == [] || units[0] == 0 then [] else [units[0]] + UntilNul(units[1..])
  }

  /** `trim_matches('\0')`. */
  function TrimNuls(bytes: seq<byte>): seq<byte> {
    if bytes == [] then []
    else if bytes[0] == 0 then TrimNuls(bytes[1..])
    else if bytes[|bytes| - 1] == 0 then TrimNuls(bytes[..|bytes| - 1])
    else bytes
  }

  /** `std::str::from_utf8`; `utf8` says which byte strings are valid. */
  function FromUtf8(bytes: seq<byte>, utf8: seq<byte> -> bool): Result<seq<byte>, ParserError> {
    if utf8(bytes) then Ok(bytes) else Err(Utf8Error)
  }

  function DecodeText(bytes: seq<byte>, wide: bool, utf8: seq<byte> -> bool): Result<Text, ParserError> {
    if wide then Ok(Utf16(Units(bytes)))
    else
      var text :- FromUtf8(bytes, utf8);
      Ok(Utf8(text))
  }

  /** `decode_counted_payload`, after reading the count. */
  function DecodeCounted(buffer: seq<byte>, bigEndian: bool, wide: bool, utf8: seq<byte> -> bool)
    : Result<Text, ParserError>
  {
    var byteCount :- ReadCountPrefix(buffer, bigEndian);
    if 2 + byteCount as nat > |buffer| then Err(PropertyError("invalid counted string length"))
    else DecodeText(buffer[2..2 + byteCount as nat], wide, utf8)
  }

  /** The `String` decoder of a plain value. */
  function DecodeString(t: TdhInType, buffer: seq<byte>, utf8: seq<byte> -> bool): Result<Text, ParserError> {
    match t
    case UnicodeString =>
      if |buffer| % 2 != 0 then Err(PropertyError("odd length in bytes for a wide string"))
      else Ok(Utf16(UntilNul(Units(buffer))))
    case AnsiString =>
      var text :- FromUtf8(buffer, utf8);
      Ok(Utf8(TrimNuls(text)))
    case Sid | WbemSid =>
      if |buffer| <= 1 || |buffer| < SidSize(buffer[1]) then Err(PropertyError("SID property is truncated"))
      else Ok(SidText(buffer[..SidSize(buffer[1])]))
    case UnicodeChar => if |buffer| != 2 then Err(SliceError) else Ok(Utf16(Units(buffer)))
    case AnsiChar => DecodeText(buffer, false, utf8)
    case ManifestCountedString | CountedString => DecodeCounted(buffer, false, true, utf8)
    case ManifestCountedAnsiString | CountedAnsiString => DecodeCounted(buffer, false, false, utf8)
    case ReversedCountedString => DecodeCounted(buffer, true, true, utf8)
    case ReversedCountedAnsiString => DecodeCounted(buffer, true, false, utf8)
    case NonNullTerminatedString => DecodeText(buffer, true, utf8)
    case NonNullTerminatedAnsiString => DecodeText(buffer, false, utf8)
    case _ => Err(InvalidType)
  }

  /** `count_prefixed_binary`. */
  function CountPrefixedBinary(buffer: seq<byte>, width: nat): Result<seq<byte>, ParserError>
    requires width == 2 || width == 4
  {
    if |buffer| < width then Err(PropertyError("counted binary does not have length"))
    else
      var count := LittleEndian(buffer[..width]);
      if width + count > |buffer| then Err(PropertyError("invalid counted binary length"))
      else Ok(buffer[width..width + count])
  }

  /** The `Vec<u8>` decoder of a plain value. */
  function DecodeBinary(t: TdhInType, buffer: seq<byte>): Result<seq<byte>, ParserError> {
    match t
    case ManifestCountedBinary => CountPrefixedBinary(buffer, 2)
    case HexDump => CountPrefixedBinary(buffer, 4)
    case _ => Ok(buffer)
  }

  /** The unsigned integer decoders, `width` bytes wide. */
  function DecodeUnsigned(buffer: seq<byte>, width: nat): Result<nat, ParserError> {
    if |buffer| != width then Err(LengthMismatch) else Ok(LittleEndian(buffer))
  }

  predicate IsTextType(t: TdhInType) {
    DecodeString(t, [0, 0], _ => true) != Err(InvalidType)
  }

  /** Exactly which bytes each text decoder accepts, and which of them it reads. */
  lemma StringDecodesIff(t: TdhInType, buffer: seq<byte>, utf8: seq<byte> -> bool)
    ensures t.UnicodeString? ==> (DecodeString(t, buffer, utf8).Ok? <==> |buffer| % 2 == 0)
    ensures t.AnsiString? ==> (DecodeString(t, buffer, utf8).Ok? <==> utf8(buffer))
    ensures t.Sid? || t.WbemSid? ==>
              && (DecodeString(t, buffer, utf8).Ok? <==> |buffer| >= 8 && 8 + 4 * (buffer[1] as int) <= |buffer|)
              && (DecodeString(t, buffer, utf8).Ok? ==>
                    DecodeString(t, buffer, utf8) == Ok(SidText(buffer[..8 + 4 * (buffer[1] as int)])))
    ensures t.ManifestCountedString? || t.CountedString? || t.ReversedCountedString? ==>
              (DecodeString(t, buffer, utf8).Ok? <==>
                 && |buffer| >= 2
                 && var first, second := buffer[0] as int, buffer[1] as int;
                 2 + (if t.ReversedCountedString? then 256 * first + second else first + 256 * second) <= |buffer|)
    ensures t.NonNullTerminatedString? ==> DecodeString(t, buffer, utf8).Ok?
    ensures t.NonNullTerminatedAnsiString? ==> (DecodeString(t, buffer, utf8).Ok? <==> utf8(buffer))
  {
    hide Units, UntilNul, TrimNuls;
  }

  lemma LittleEndian16(bytes: seq<byte>)
    requires |bytes| == 2
    ensures LittleEndian(bytes) == U16FromLe(bytes[0], bytes[1])
  {
    assert LittleEndian(bytes[1..]) == bytes[1] + 256 * LittleEndian(bytes[1..][1..]);
  }

  /** What the content-sized types measure is what their decoders accept. */
  lemma SizedContentDecodes(
    record: EventRecord, property: Property, parsed: seq<PropertySlice>, remaining: seq<byte>,
    utf8: seq<byte> -> bool)
    requires property.info.Value? && IsContentSized(property.info.inType)
    requires FindPropertySize(record, property, parsed, remaining).Ok?
    requires FindPropertySize(record, property, parsed, remaining).value <= |remaining|
    ensures var t := property.info.inType;
            var buffer := remaining[..FindPropertySize(record, property, parsed, remaining).value];
            && DecodeBinary(t, buffer).Ok?
            && (IsTextType(t) ==>
                  || DecodeString(t, buffer, utf8).Ok?
                  || DecodeString(t, buffer, utf8) == Err(Utf8Error))
  {
    hide Units, UntilNul, TrimNuls;
    var t := property.info.inType;
    var size := ContentSize(record, property, remaining).value;
    assert FindPropertySize(record, property, parsed, remaining) == Ok(size);
    match t
    case HexDump => assert remaining[..size][..4] == remaining[..4];
    case ManifestCountedBinary => LittleEndian16(remaining[..size][..2]);
    case _ =>
  }

  /** The decoders never meet a length they reject in a slice the walk located by content: a string is
      refused only for its encoding, a counted binary never. */
  lemma WalkedContentDecodes(ev: Event, k: nat, utf8: seq<byte> -> bool)
    requires k < |ev.properties| && SliceAt(ev, k).Ok?
    requires ev.properties[k].info.Value? && IsContentSized(ev.properties[k].info.inType)
    ensures var t, buffer := ev.properties[k].info.inType, SliceAt(ev, k).value.buffer;
            && DecodeBinary(t, buffer).Ok?
            && (IsTextType(t) ==>
                  || DecodeString(t, buffer, utf8).Ok?
                  || DecodeString(t, buffer, utf8) == Err(Utf8Error))
  {
    hide FindPropertySize, DecodeString, DecodeBinary;
    SliceAtIsSized(ev, k);
    SizedContentDecodes(ev.record, ev.properties[k], WalkTo(ev, k).value, RemainingAt(ev, k), utf8);
  }

  lemma WideStringSizeIsEven(
    record: EventRecord, property: Property, parsed: seq<PropertySlice>, remaining: seq<byte>)
    requires property.info.Value? && property.info.inType == UnicodeString
    requires FindPropertySize(record, property, parsed, remaining).Ok?
    ensures var size := FindPropertySize(record, property, parsed, remaining).value;
            size % 2 == 0 || record.tdhSize(property.name) == Some(size)
  {
    hide FindNulUnit;
  }

  /** A wide string the walk located has an odd number of bytes only when TDH said so. */
  lemma WalkedWideStringIsEven(ev: Event, k: nat)
    requires k < |ev.properties| && SliceAt(ev, k).Ok?
    requires ev.properties[k].info.Value? && ev.properties[k].info.inType == UnicodeString
    ensures |SliceAt(ev, k).value.buffer| % 2 == 0
            || ev.record.tdhSize(ev.properties[k].name) == Some(|SliceAt(ev, k).value.buffer|)
  {
    hide FindPropertySize;
    SliceAtIsSized(ev, k);
    WideStringSizeIsEven(ev.record, ev.properties[k], WalkTo(ev, k).value, RemainingAt(ev, k));
  }
}
