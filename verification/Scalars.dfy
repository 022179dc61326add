/** Values of fixed width: how a provider writes each type, and the typed decoders that read it. Widths are
    those of the decoders' own result types. */
module Scalars {
  import opened Wrappers
  import opened Bytes
  import opened TdhTypes
  import opened Sizing
  import opened Decode
  import Time

  datatype GuidParts = GuidParts(data1: u32, data2: u16, data3: u16, data4: seq<byte>)

  /** What a provider writes. Floating-point numbers are their bits, a Boolean any 32-bit integer. */
  datatype ScalarValue =
    | UInt8Value(n: nat) | UInt16Value(n: nat) | UInt32Value(n: nat) | UInt64Value(n: nat)
    | Int8Value(i: int) | Int16Value(i: int) | Int32Value(i: int) | Int64Value(i: int)
    | HexInt32Value(n: nat) | HexInt64Value(n: nat) | FloatValue(n: nat) | DoubleValue(n: nat)
    | BooleanValue(n: nat) | UnicodeCharValue(unit: u16) | AnsiCharValue(letter: byte)
    | GuidValue(guid: GuidParts) | FileTimeValue(fileTime: Time.FileTime)
    | SystemTimeValue(systemTime: Time.SystemTime, dayOfWeek: u16)

  function TypeOf(v: ScalarValue): TdhInType {
    match v
    case UInt8Value(_) => UInt8
    case UInt16Value(_) => UInt16
    case UInt32Value(_) => UInt32
    case UInt64Value(_) => UInt64
    case Int8Value(_) => Int8
    case Int16Value(_) => Int16
    case Int32Value(_) => Int32
    case Int64Value(_) => Int64
    case HexInt32Value(_) => HexInt32
    case HexInt64Value(_) => HexInt64
    case FloatValue(_) => Float
    case DoubleValue(_) => Double
    case BooleanValue(_) => Boolean
    case UnicodeCharValue(_) => UnicodeChar
    case AnsiCharValue(_) => AnsiChar
    case GuidValue(_) => Guid
    case FileTimeValue(_) => FileTime
    case SystemTimeValue(_, _) => SystemTime
  }

  /** Whether the value is one of its type. */
  predicate InRange(v: ScalarValue) {
    match v
    case UInt8Value(n) => n < 0x100
    case UInt16Value(n) => n < 0x1_0000
    case UInt32Value(n) => n < 0x1_0000_0000
    case UInt64Value(n) => n < 0x1_0000_0000_0000_0000
    case Int8Value(i) => -0x80 <= i < 0x80
    case Int16Value(i) => -0x8000 <= i < 0x8000
    case Int32Value(i) => -0x8000_0000 <= i < 0x8000_0000
    case Int64Value(i) => -0x8000_0000_0000_0000 <= i < 0x8000_0000_0000_0000
    case HexInt32Value(n) => n < 0x1_0000_0000
    case HexInt64Value(n) => n < 0x1_0000_0000_0000_0000
    case FloatValue(n) => n < 0x1_0000_0000
    case DoubleValue(n) => n < 0x1_0000_0000_0000_0000
    case BooleanValue(n) => n < 0x1_0000_0000
    case GuidValue(guid) => |guid.data4| == 8
    case _ => true
  }

  lemma RadixValues()
    ensures Radix(1) == 0x100 && Radix(2) == 0x1_0000 && Radix(4) == 0x1_0000_0000
    ensures Radix(8) == 0x1_0000_0000_0000_0000
  {
    assert Radix(1) == 256 * Radix(0);
    assert Radix(2) == 256 * Radix(1) && Radix(3) == 256 * Radix(2) && Radix(4) == 256 * Radix(3);
    assert Radix(5) == 256 * Radix(4) && Radix(6) == 256 * Radix(5) && Radix(7) == 256 * Radix(6);
    assert Radix(8) == 256 * Radix(7);
  }

  /** `n` in `width` bytes, little-endian. */
  function Le(n: nat, width: nat): (bytes: seq<byte>)
    requires width == 1 || width == 2 || width == 4 || width == 8
    requires n < if width == 1 then 0x100 else if width == 2 then 0x1_0000
                 else if width == 4 then 0x1_0000_0000 else 0x1_0000_0000_0000_0000
    ensures |bytes| == width && LittleEndian(bytes) == n
  {
    RadixValues();
    ToLittleEndian(n, width)
  }

  /** `i` in two's complement, `limit` being the number of values. */
  function TwosComplement(i: int, limit: nat): int {
    if i < 0 then i + limit else i
  }

  function EncodeScalar(v: ScalarValue): seq<byte>
    requires InRange(v)
  {
    match v
    case UInt8Value(n) => Le(n, 1)
    case UInt16Value(n) => Le(n, 2)
    case UInt32Value(n) => Le(n, 4)
    case UInt64Value(n) => Le(n, 8)
    case Int8Value(i) => Le(TwosComplement(i, 0x100), 1)
    case Int16Value(i) => Le(TwosComplement(i, 0x1_0000), 2)
    case Int32Value(i) => Le(TwosComplement(i, 0x1_0000_0000), 4)
    case Int64Value(i) => Le(TwosComplement(i, 0x1_0000_0000_0000_0000), 8)
    case HexInt32Value(n) => Le(n, 4)
    case HexInt64Value(n) => Le(n, 8)
    case FloatValue(n) => Le(n, 4)
    case DoubleValue(n) => Le(n, 8)
    case BooleanValue(n) => Le(n, 4)
    case UnicodeCharValue(unit) => Le(unit, 2)
    case AnsiCharValue(letter) => [letter]
    case GuidValue(guid) => Le(guid.data1, 4) + Le(guid.data2, 2) + Le(guid.data3, 2) + guid.data4
    case FileTimeValue(ft) => Le(ft.low, 4) + Le(ft.high, 4)
    case SystemTimeValue(st, dayOfWeek) =>
      Le(st.year, 2) + Le(st.month, 2) + Le(dayOfWeek, 2) + Le(st.day, 2)
      + Le(st.hour, 2) + Le(st.minute, 2) + Le(st.second, 2) + Le(st.milliseconds, 2)
  }

  // ---------- the typed decoders ----------

  /** The signed integer decoders, `width` bytes wide. */
  function DecodeSigned(buffer: seq<byte>, width: nat): Result<int, ParserError> {
    if |buffer| != width then Err(LengthMismatch)
    else
      var n := LittleEndian(buffer);
      Ok(if 2 * n >= Radix(width) then n - Radix(width) else n)
  }

  function DecodeBool(t: TdhInType, buffer: seq<byte>): Result<bool, ParserError> {
    if !t.Boolean? then Err(InvalidType)
    else if |buffer| == 1 || |buffer| == 4 || |buffer| == 8 then Ok(LittleEndian(buffer) != 0)
    else Err(LengthMismatch)
  }

  function DecodeGuid(t: TdhInType, buffer: seq<byte>): Result<GuidParts, ParserError> {
    if !t.Guid? then Err(InvalidType)
    else if |buffer| != 16 then Err(LengthMismatch)
    else Ok(GuidParts(ReadU32(buffer, 0), ReadU16(buffer, 4), ReadU16(buffer, 6), buffer[8..]))
  }

  function DecodeFileTime(t: TdhInType, buffer: seq<byte>): Result<Time.FileTime, ParserError> {
    if !t.FileTime? then Err(InvalidType)
    else if |buffer| != 8 then Err(SliceError)
    else Ok(Time.FileTime.FileTime(ReadU32(buffer, 4), ReadU32(buffer, 0)))
  }

  /** The day of the week is read too, and never looked at. */
  function DecodeSystemTime(t: TdhInType, buffer: seq<byte>): Result<Time.SystemTime, ParserError> {
    if !t.SystemTime? then Err(InvalidType)
    else if |buffer| != 16 then Err(SliceError)
    else
      Ok(Time.SystemTime.SystemTime(
           ReadU16(buffer, 0), ReadU16(buffer, 2), ReadU16(buffer, 6), ReadU16(buffer, 8),
           ReadU16(buffer, 10), ReadU16(buffer, 12), ReadU16(buffer, 14)))
  }

  function ReadU16(bytes: seq<byte>, at: nat): u16
    requires at + 2 <= |bytes|
  {
    RadixValues();
    LittleEndian(bytes[at..at + 2])
  }

  function ReadU32(bytes: seq<byte>, at: nat): u32
    requires at + 4 <= |bytes|
  {
    RadixValues();
    LittleEndian(bytes[at..at + 4])
  }

  // ---------- decoding returns the value ----------

  /** The decoder of the value's type accepts the bytes and returns the value. A single narrow character must
      be valid UTF-8. */
  predicate Reads(v: ScalarValue, bytes: seq<byte>, utf8: seq<byte> -> bool) {
    match v
    case UInt8Value(n) => DecodeUnsigned(bytes, 1) == Ok(n)
    case UInt16Value(n) => DecodeUnsigned(bytes, 2) == Ok(n)
    case UInt32Value(n) => DecodeUnsigned(bytes, 4) == Ok(n)
    case UInt64Value(n) => DecodeUnsigned(bytes, 8) == Ok(n)
    case Int8Value(i) => DecodeSigned(bytes, 1) == Ok(i)
    case Int16Value(i) => DecodeSigned(bytes, 2) == Ok(i)
    case Int32Value(i) => DecodeSigned(bytes, 4) == Ok(i)
    case Int64Value(i) => DecodeSigned(bytes, 8) == Ok(i)
    case HexInt32Value(n) => DecodeUnsigned(bytes, 4) == Ok(n)
    case HexInt64Value(n) => DecodeUnsigned(bytes, 8) == Ok(n)
    case FloatValue(n) => DecodeUnsigned(bytes, 4) == Ok(n)
    case DoubleValue(n) => DecodeUnsigned(bytes, 8) == Ok(n)
    case BooleanValue(n) => DecodeBool(Boolean, bytes) == Ok(n != 0)
    case UnicodeCharValue(unit) => DecodeString(UnicodeChar, bytes, utf8) == Ok(Utf16([unit]))
    case AnsiCharValue(letter) => utf8([letter]) ==> DecodeString(AnsiChar, bytes, utf8) == Ok(Utf8([letter]))
    case GuidValue(guid) => DecodeGuid(Guid, bytes) == Ok(guid)
    case FileTimeValue(ft) => DecodeFileTime(FileTime, bytes) == Ok(ft)
    case SystemTimeValue(st, _) => DecodeSystemTime(SystemTime, bytes) == Ok(st)
  }

  /** Every value of every fixed-width type is read back by its type's decoder. */
  lemma ScalarReadsBack(v: ScalarValue, utf8: seq<byte> -> bool)
    requires InRange(v)
    ensures Reads(v, EncodeScalar(v), utf8)
  {
    hide Le, LittleEndian, Radix;
    RadixValues();
    match v
    case UnicodeCharValue(unit) => UnitReadsBack(unit);
    case GuidValue(guid) => GuidReadsBack(guid);
    case FileTimeValue(ft) =>
      TakeFirst(Le(ft.low, 4), Le(ft.high, 4));
    case SystemTimeValue(st, dayOfWeek) => SystemTimeReadsBack(st, dayOfWeek);
    case _ =>
  }

  lemma TakeFirst(first: seq<byte>, rest: seq<byte>)
    ensures (first + rest)[0..|first|] == (first + rest)[..|first|] == first
    ensures (first + rest)[|first|..] == (first + rest)[|first|..|first| + |rest|] == rest
  {
  }

  lemma UnitReadsBack(unit: u16)
    ensures |Le(unit, 2)| == 2 && Units(Le(unit, 2)) == [unit]
  {
    LittleEndian16(Le(unit, 2));
  }

  lemma GuidReadsBack(guid: GuidParts)
    requires |guid.data4| == 8
    ensures DecodeGuid(Guid, EncodeScalar(GuidValue(guid))) == Ok(guid)
  {
    hide Le, LittleEndian;
    var bytes := EncodeScalar(GuidValue(guid));
    assert bytes[0..4] == Le(guid.data1, 4);
    assert bytes[4..6] == Le(guid.data2, 2);
    assert bytes[6..8] == Le(guid.data3, 2);
    assert bytes[8..] == guid.data4;
  }

  lemma SystemTimeReadsBack(st: Time.SystemTime, dayOfWeek: u16)
    ensures DecodeSystemTime(SystemTime, EncodeScalar(SystemTimeValue(st, dayOfWeek))) == Ok(st)
  {
    hide Le, LittleEndian;
    var bytes := EncodeScalar(SystemTimeValue(st, dayOfWeek));
    assert bytes[0..2] == Le(st.year, 2);
    assert bytes[2..4] == Le(st.month, 2);
    assert bytes[6..8] == Le(st.day, 2);
    assert bytes[8..10] == Le(st.hour, 2);
    assert bytes[10..12] == Le(st.minute, 2);
    assert bytes[12..14] == Le(st.second, 2);
    assert bytes[14..16] == Le(st.milliseconds, 2);
  }

  /** The bytes a value of each type takes. */
  function ScalarWidth(t: TdhInType): Option<nat> {
    match t
    case UInt8 => Some(1)
    case Int8 => Some(1)
    case AnsiChar => Some(1)
    case UInt16 => Some(2)
    case Int16 => Some(2)
    case UnicodeChar => Some(2)
    case UInt32 => Some(4)
    case Int32 => Some(4)
    case HexInt32 => Some(4)
    case Float => Some(4)
    case Boolean => Some(4)
    case UInt64 => Some(8)
    case Int64 => Some(8)
    case HexInt64 => Some(8)
    case Double => Some(8)
    case FileTime => Some(8)
    case Guid => Some(16)
    case SystemTime => Some(16)
    case _ => None
  }

  /** What is written of each type is as wide as the width sizing goes by. */
  lemma WrittenWidth(v: ScalarValue)
    requires InRange(v)
    ensures InTypeFixedSize(TypeOf(v)) == ScalarWidth(TypeOf(v)) == Some(|EncodeScalar(v)|)
  {
    hide Le;
  }

  /** The types without values of fixed width. */
  lemma NoOtherWidth(t: TdhInType)
    requires ScalarWidth(t).None?
    ensures InTypeFixedSize(t).None?
  {
  }

  /** The quad of a FILETIME is its eight bytes, as one little-endian integer in two's complement. */
  lemma FileTimeIsItsBytes(bytes: seq<byte>)
    requires |bytes| == 8
    ensures DecodeFileTime(FileTime, bytes).Ok?
    ensures var n := LittleEndian(bytes);
            Time.AsQuad(DecodeFileTime(FileTime, bytes).value)
            == if n < 0x8000_0000_0000_0000 then n else n - 0x1_0000_0000_0000_0000
  {
    SplitLittleEndian(bytes, 4);
    RadixValues();
    var ft := DecodeFileTime(FileTime, bytes).value;
    assert bytes[0..4] == bytes[..4] && bytes[4..8] == bytes[4..];
    Time.HighHalfSigned(ft.high);
  }

  lemma {:induction false} SplitLittleEndian(bytes: seq<byte>, k: nat)
    requires k <= |bytes|
    ensures LittleEndian(bytes) == LittleEndian(bytes[..k]) + Radix(k) * LittleEndian(bytes[k..])
  {
    if k > 0 {
      SplitLittleEndian(bytes[1..], k - 1);
      assert bytes[1..][..k - 1] == bytes[..k][1..];
      assert bytes[1..][k - 1..] == bytes[k..];
      Distributes(bytes[0], LittleEndian(bytes[..k][1..]), Radix(k - 1), LittleEndian(bytes[k..]));
    } else {
      assert bytes[..0] == [] && bytes[0..] == bytes;
    }
  }

  lemma Distributes(first: nat, low: nat, radix: nat, high: nat)
    ensures first + 256 * (low + radix * high) == first + 256 * low + 256 * radix * high
  {
  }
}
