/** SYSTEMTIME and FILETIME conversions (sections 2.3.13 and 2.3.3 of MS-DTYP): integer arithmetic on
    signed 64-bit values. */
module Time {
  import opened Bytes

  const SECONDS_BETWEEN_1601_AND_1970: int := 11_644_473_600
  const I64_MIN: int := -0x8000_0000_0000_0000
  const I64_MAX: int := 0x7FFF_FFFF_FFFF_FFFF

  type i64 = x: int | I64_MIN <= x <= I64_MAX

  /** Integer division as the source's language rounds it: toward zero. */
  function TruncDiv(a: int, b: int): int
    requires b > 0
  {
    if a >= 0 then a / b else -((-a) / b)
  }

  function Clamp(x: int): (r: i64)
    ensures I64_MIN <= x <= I64_MAX ==> r == x
  {
    if x < I64_MIN then I64_MIN else if x > I64_MAX then I64_MAX else x
  }

  /** `days_from_civil`: the days from 1970-01-01 to a date of the proleptic Gregorian calendar. */
  function DaysFromCivil(year: int, month: nat, day: nat): int {
    var y := if month <= 2 then year - 1 else year;
    var era := TruncDiv(if y >= 0 then y else y - 399, 400);
    var yoe := y - era * 400;
    var mp := (month + 9) % 12;
    var doy := TruncDiv(153 * mp + 2, 5) + day - 1;
    var doe := yoe * 365 + TruncDiv(yoe, 4) - TruncDiv(yoe, 100) + doy;
    era * 146_097 + doe - 719_468
  }

  // ---------- the naive calendar ----------

  predicate IsLeap(year: nat) {
    year % 4 == 0 && (year % 100 != 0 || year % 400 == 0)
  }

  function YearLength(year: nat): nat {
    if IsLeap(year) then 366 else 365
  }

  function MonthLength(year: nat, month: nat): nat {
    if month == 2 then (if IsLeap(year) then 29 else 28)
    else if month == 4 || month == 6 || month == 9 || month == 11 then 30
    else 31
  }

  /** Days from the first day of year 0, counted year by year. */
  function DaysBeforeYear(year: nat): nat {
    if year == 0 then 0 else DaysBeforeYear(year - 1) + YearLength(year - 1)
  }

  /** Days from the first of January, counted month by month. */
  function DaysBeforeMonth(year: nat, month: nat): nat
    requires 1 <= month
  {
    if month == 1 then 0 else DaysBeforeMonth(year, month - 1) + MonthLength(year, month - 1)
  }

  datatype Date = Date(year: nat, month: nat, day: nat)

  predicate ValidDate(d: Date) {
    1 <= d.month <= 12 && 1 <= d.day <= MonthLength(d.year, d.month)
  }

  function CountedDays(d: Date): int
    requires ValidDate(d)
  {
    DaysBeforeYear(d.year) + DaysBeforeMonth(d.year, d.month) + d.day - 1
  }

  lemma LeapSteps(year: nat)
    requires year > 0
    ensures (year + 3) / 4 == (year - 1) / 4 + 1
    ensures (year + 99) / 100 == (year - 1) / 100 + 1
    ensures (year + 399) / 400 == (year - 1) / 400 + 1
    ensures year / 4 == (year - 1) / 4 + if year % 4 == 0 then 1 else 0
    ensures year / 100 == (year - 1) / 100 + if year % 100 == 0 then 1 else 0
    ensures year / 400 == (year - 1) / 400 + if year % 400 == 0 then 1 else 0
  {
  }

  lemma MultiplesOf(quarter: nat, year: nat)
    ensures year == 4 * quarter ==> year % 4 == 0
  {
  }

  lemma MultiplesOf100(century: nat, year: nat)
    ensures year == 100 * century ==> year % 100 == 0
  {
  }

  /** Leap years counted by divisibility: one more in four, less one in a hundred, plus one in four
      hundred. */
  lemma LeapCount(year: nat)
    ensures (if IsLeap(year) then 1 else 0)
            == (if year % 4 == 0 then 1 else 0) - (if year % 100 == 0 then 1 else 0)
               + (if year % 400 == 0 then 1 else 0)
  {
    MultiplesOf(25 * (year / 100), year);
    MultiplesOf100(4 * (year / 400), year);
  }

  lemma {:induction false} DaysBeforeYearClosed(year: nat)
    ensures DaysBeforeYear(year) == 365 * year + (year + 3) / 4 - (year + 99) / 100 + (year + 399) / 400
  {
    hide IsLeap;
    if year > 0 {
      DaysBeforeYearClosed(year - 1);
      LeapSteps(year);
      LeapCount(year - 1);
      if year > 1 {
        LeapSteps(year - 1);
      }
    }
  }

  lemma DaysBeforeMonthClosed(year: nat, month: nat)
    requires 1 <= month <= 12
    ensures DaysBeforeMonth(year, month)
            == [0, 31, 59, 90, 120, 151, 181, 212, 243, 273, 304, 334][month - 1]
               + if month > 2 && IsLeap(year) then 1 else 0
  {
    if month > 1 {
      DaysBeforeMonthClosed(year, month - 1);
    }
  }

  /** The era arithmetic is the plain count of days before the first of March of year `y`. */
  lemma EraArithmetic(y: int)
    requires y >= -1
    ensures var era := TruncDiv(if y >= 0 then y else y - 399, 400);
            var yoe := y - era * 400;
            era * 146_097 + yoe * 365 + TruncDiv(yoe, 4) - TruncDiv(yoe, 100)
            == 365 * y + (if y >= 0 then y / 4 - y / 100 + y / 400 else -1)
  {
    if y >= 0 {
      var era, yoe := y / 400, y % 400;
      assert y == 400 * era + yoe;
      assert y / 4 == 100 * era + yoe / 4;
      assert y / 100 == 4 * era + yoe / 100;
    }
  }

  lemma DaysFromCivilClosed(year: int, month: nat, day: nat)
    requires year >= 0 && 1 <= month <= 12
    ensures var y := if month <= 2 then year - 1 else year;
            DaysFromCivil(year, month, day)
            == 365 * y + (if y >= 0 then y / 4 - y / 100 + y / 400 else -1)
               + [306, 337, 0, 31, 61, 92, 122, 153, 184, 214, 245, 275][month - 1] + day - 1 - 719_468
  {
    EraArithmetic(if month <= 2 then year - 1 else year);
    MonthOffsets(month);
  }

  lemma MonthOffsets(month: nat)
    requires 1 <= month <= 12
    ensures TruncDiv(153 * ((month + 9) % 12) + 2, 5)
            == [306, 337, 0, 31, 61, 92, 122, 153, 184, 214, 245, 275][month - 1]
  {
  }

  /** The days of the months before `month`, from the first of March on: the two tables differ by the
      months of January and February. */
  lemma MarchTable(month: nat)
    requires 1 <= month <= 12
    ensures [306, 337, 0, 31, 61, 92, 122, 153, 184, 214, 245, 275][month - 1]
            == [0, 31, 59, 90, 120, 151, 181, 212, 243, 273, 304, 334][month - 1]
               + if month <= 2 then 306 else -59
  {
  }

  lemma CountedDaysClosed(d: Date)
    requires ValidDate(d)
    ensures CountedDays(d)
            == 365 * d.year + (d.year + 3) / 4 - (d.year + 99) / 100 + (d.year + 399) / 400
               + [0, 31, 59, 90, 120, 151, 181, 212, 243, 273, 304, 334][d.month - 1]
               + (if d.month > 2 && IsLeap(d.year) then 1 else 0) + d.day - 1
  {
    hide IsLeap;
    DaysBeforeYearClosed(d.year);
    DaysBeforeMonthClosed(d.year, d.month);
  }

  lemma EpochDays()
    ensures CountedDays(Date(1970, 1, 1)) == 719_528
  {
    CountedDaysClosed(Date(1970, 1, 1));
  }

  /** The leap days before a year, and those before the first of March of `y`. */
  lemma LeapDays(year: nat, month: nat)
    ensures var y: int := if month <= 2 then year - 1 else year;
            (if y >= 0 then y / 4 - y / 100 + y / 400 else -1)
            == (year + 3) / 4 - (year + 99) / 100 + (year + 399) / 400
               + if month > 2 && IsLeap(year) then 0 else -1
  {
    hide IsLeap;
    LeapCount(year);
    if year > 0 {
      LeapSteps(year);
    }
  }

  /** The closed computation is the naive day count, for every year and every valid month and day. */
  lemma DaysFromCivilCounts(d: Date)
    requires ValidDate(d)
    ensures DaysFromCivil(d.year, d.month, d.day) == CountedDays(d) - CountedDays(Date(1970, 1, 1))
  {
    hide DaysFromCivil, IsLeap, CountedDays, MonthLength;
    LeapDays(d.year, d.month);
    CountedDaysClosed(d);
    EpochDays();
    DaysFromCivilClosed(d.year, d.month, d.day);
    MarchTable(d.month);
  }

  function NextDay(d: Date): (r: Date)
    requires ValidDate(d)
    ensures ValidDate(r)
  {
    if d.day < MonthLength(d.year, d.month) then d.(day := d.day + 1)
    else if d.month < 12 then Date(d.year, d.month + 1, 1)
    else Date(d.year + 1, 1, 1)
  }

  lemma YearEnds(year: nat)
    ensures DaysBeforeMonth(year, 12) + 31 == YearLength(year)
  {
    DaysBeforeMonthClosed(year, 12);
  }

  /** One calendar day is one day of the count. */
  lemma NextDayIsOneMore(d: Date)
    requires ValidDate(d)
    ensures DaysFromCivil(NextDay(d).year, NextDay(d).month, NextDay(d).day)
            == DaysFromCivil(d.year, d.month, d.day) + 1
  {
    hide DaysFromCivil;
    DaysFromCivilCounts(d);
    DaysFromCivilCounts(NextDay(d));
    YearEnds(d.year);
  }

  // ---------- SYSTEMTIME ----------

  datatype SystemTime = SystemTime(
    year: u16, month: u16, day: u16, hour: u16, minute: u16, second: u16, milliseconds: u16)

  function SaturatingMul(a: i64, b: i64): i64 {
    Clamp(a * b)
  }

  function SaturatingAdd(a: i64, b: i64): i64 {
    Clamp(a + b)
  }

  function SecondsSince1601(st: SystemTime): int {
    (DaysFromCivil(st.year, st.month, st.day) + SECONDS_BETWEEN_1601_AND_1970 / 86_400) * 86_400
    + st.hour * 3_600 + st.minute * 60 + st.second
  }

  lemma SecondsFitI64(st: SystemTime)
    ensures -60_000_000_000 <= SecondsSince1601(st) <= 5_000_000_000_000
  {
  }

  /** `as_filetime_quad`: 100ns intervals since 1601-01-01. */
  function AsFiletimeQuad(st: SystemTime): i64 {
    SecondsFitI64(st);
    SaturatingAdd(SaturatingMul(SecondsSince1601(st), 10_000_000), st.milliseconds * 10_000)
  }

  /** The exact number of 100ns intervals since 1601-01-01. */
  function ExactQuad(st: SystemTime): int {
    SecondsSince1601(st) * 10_000_000 + st.milliseconds * 10_000
  }

  /** For every SYSTEMTIME, malformed or not, the two saturating steps give the exact count clamped to
      64 bits. */
  lemma QuadIsClampedExact(st: SystemTime)
    ensures AsFiletimeQuad(st) == Clamp(ExactQuad(st))
  {
    hide SecondsSince1601;
    SecondsFitI64(st);
  }

  predicate ValidTime(st: SystemTime) {
    && ValidDate(Date(st.year, st.month, st.day))
    && st.hour < 24 && st.minute < 60 && st.second < 60 && st.milliseconds < 1000
  }

  predicate DateBefore(a: Date, b: Date) {
    || a.year < b.year
    || (a.year == b.year && (a.month < b.month || (a.month == b.month && a.day < b.day)))
  }

  function MillisecondOfDay(st: SystemTime): int {
    ((st.hour * 60 + st.minute) * 60 + st.second) * 1000 + st.milliseconds
  }

  /** The order of the calendar and the clock. */
  predicate Before(a: SystemTime, b: SystemTime) {
    var dateA, dateB := Date(a.year, a.month, a.day), Date(b.year, b.month, b.day);
    DateBefore(dateA, dateB) || (dateA == dateB && MillisecondOfDay(a) < MillisecondOfDay(b))
  }

  lemma {:induction false} YearsMonotone(a: nat, b: nat)
    requires a <= b
    ensures DaysBeforeYear(a) <= DaysBeforeYear(b)
  {
    if a < b {
      YearsMonotone(a, b - 1);
    }
  }

  lemma {:induction false} MonthsMonotone(year: nat, a: nat, b: nat)
    requires 1 <= a < b
    ensures DaysBeforeMonth(year, a) + MonthLength(year, a) <= DaysBeforeMonth(year, b)
  {
    if a < b - 1 {
      MonthsMonotone(year, a, b - 1);
    }
  }

  lemma DayOfYearBound(d: Date)
    requires ValidDate(d)
    ensures CountedDays(d) < DaysBeforeYear(d.year) + YearLength(d.year)
  {
    YearEnds(d.year);
    if d.month < 12 {
      MonthsMonotone(d.year, d.month, 12);
    }
  }

  lemma EarlierDateCountsLess(a: Date, b: Date)
    requires ValidDate(a) && ValidDate(b) && DateBefore(a, b)
    ensures CountedDays(a) < CountedDays(b)
  {
    if a.year < b.year {
      DayOfYearBound(a);
      YearsMonotone(a.year + 1, b.year);
    } else if a.month < b.month {
      MonthsMonotone(a.year, a.month, b.month);
    }
  }

  /** The conversion keeps the order of valid times: strictly, as long as the later one is not beyond
      what 64 bits hold. */
  lemma QuadIsMonotone(a: SystemTime, b: SystemTime)
    requires ValidTime(a) && ValidTime(b) && Before(a, b)
    ensures AsFiletimeQuad(a) <= AsFiletimeQuad(b)
    ensures ExactQuad(b) <= I64_MAX ==> AsFiletimeQuad(a) < AsFiletimeQuad(b)
  {
    hide AsFiletimeQuad, DaysFromCivil, CountedDays;
    var dateA, dateB := Date(a.year, a.month, a.day), Date(b.year, b.month, b.day);
    QuadIsClampedExact(a);
    QuadIsClampedExact(b);
    DaysFromCivilCounts(dateA);
    DaysFromCivilCounts(dateB);
    if DateBefore(dateA, dateB) {
      EarlierDateCountsLess(dateA, dateB);
    }
    QuadByDays(a);
    QuadByDays(b);
    SecondsFitI64(a);
  }

  lemma QuadByDays(st: SystemTime)
    ensures ExactQuad(st)
            == ((DaysFromCivil(st.year, st.month, st.day) + 134_774) * 86_400_000 + MillisecondOfDay(st)) * 10_000
  {
    hide DaysFromCivil;
  }

  /** `SystemTime::as_unix_timestamp`: milliseconds since 1970-01-01. */
  function UnixMillis(st: SystemTime): int {
    TruncDiv(AsFiletimeQuad(st), 10_000) - SECONDS_BETWEEN_1601_AND_1970 * 1000
  }

  /** The Unix timestamp of a valid time is its naive count of days and milliseconds, until the FILETIME
      saturates. */
  lemma UnixMillisCounts(st: SystemTime)
    requires ValidTime(st) && ExactQuad(st) <= I64_MAX
    ensures UnixMillis(st)
            == (CountedDays(Date(st.year, st.month, st.day)) - CountedDays(Date(1970, 1, 1))) * 86_400_000
               + MillisecondOfDay(st)
  {
    hide AsFiletimeQuad, DaysFromCivil, CountedDays, MillisecondOfDay, TruncDiv;
    QuadIsClampedExact(st);
    SecondsFitI64(st);
    QuadByDays(st);
    DaysFromCivilCounts(Date(st.year, st.month, st.day));
    WholeMillis((DaysFromCivil(st.year, st.month, st.day) + 134_774) * 86_400_000 + MillisecondOfDay(st));
  }

  lemma WholeMillis(millis: int)
    ensures TruncDiv(millis * 10_000, 10_000) == millis
  {
  }

  // ---------- FILETIME ----------

  datatype FileTime = FileTime(high: u32, low: u32)

  /** The value of the low 64 bits of `x` in two's complement. */
  function Signed64(x: int): i64 {
    var bits := x % 0x1_0000_0000_0000_0000;
    if bits > I64_MAX then bits - 0x1_0000_0000_0000_0000 else bits
  }

  /** `as_quad`: the high half shifted left, or-ed with the low half. */
  function AsQuad(ft: FileTime): i64 {
    Signed64(ft.high * 0x1_0000_0000) + ft.low
  }

  /** `from_quad`: the arithmetic right shift and the low mask, each truncated to 32 bits. */
  function FromQuad(quad: i64): FileTime {
    FileTime((quad / 0x1_0000_0000) % 0x1_0000_0000, quad % 0x1_0000_0000)
  }

  /** The two conversions are inverse: a bijection between 64-bit values and pairs of 32-bit halves. */
  lemma QuadRoundTrip(quad: i64)
    ensures AsQuad(FromQuad(quad)) == quad
  {
  }

  lemma FileTimeRoundTrip(ft: FileTime)
    ensures FromQuad(AsQuad(ft)) == ft
  {
    hide Signed64;
    var high := if ft.high < 0x8000_0000 then ft.high as int else ft.high - 0x1_0000_0000;
    HighHalfSigned(ft.high);
    assert (high * 0x1_0000_0000 + ft.low) / 0x1_0000_0000 == high;
    assert (high * 0x1_0000_0000 + ft.low) % 0x1_0000_0000 == ft.low;
    assert high % 0x1_0000_0000 == ft.high;
  }

  lemma HighHalfSigned(high: u32)
    ensures Signed64(high * 0x1_0000_0000)
            == (if high < 0x8000_0000 then high as int else high - 0x1_0000_0000) * 0x1_0000_0000
  {
  }

  function FileTimeMillis(ft: FileTime): int {
    TruncDiv(AsQuad(ft), 10_000) - SECONDS_BETWEEN_1601_AND_1970 * 1000
  }

  function FileTimeNanos(ft: FileTime): int {
    AsQuad(ft) * 100 - SECONDS_BETWEEN_1601_AND_1970 * 1_000_000_000
  }

  /** The two clocks agree: the FILETIME of a SYSTEMTIME gives its Unix timestamp, to the millisecond. */
  lemma ClocksAgree(st: SystemTime)
    requires ValidTime(st) && ExactQuad(st) <= I64_MAX
    ensures FileTimeMillis(FromQuad(AsFiletimeQuad(st))) == UnixMillis(st)
    ensures FileTimeNanos(FromQuad(AsFiletimeQuad(st))) == UnixMillis(st) * 1_000_000
  {
    hide AsFiletimeQuad, DaysFromCivil, MillisecondOfDay, AsQuad, FromQuad;
    QuadRoundTrip(AsFiletimeQuad(st));
    QuadIsClampedExact(st);
    SecondsFitI64(st);
    QuadByDays(st);
    WholeMillis((DaysFromCivil(st.year, st.month, st.day) + 134_774) * 86_400_000 + MillisecondOfDay(st));
  }

  /** The millisecond timestamp is the nanosecond one rounded down, except before 1601 off a whole
      millisecond, where it is rounded up instead. */
  lemma MillisRoundDownIff(ft: FileTime)
    ensures FileTimeMillis(ft) == FileTimeNanos(ft) / 1_000_000
            <==> AsQuad(ft) >= 0 || AsQuad(ft) % 10_000 == 0
    ensures FileTimeMillis(ft) == FileTimeNanos(ft) / 1_000_000
            || FileTimeMillis(ft) == FileTimeNanos(ft) / 1_000_000 + 1
  {
    hide AsQuad;
    var quad := AsQuad(ft);
    assert FileTimeNanos(ft) / 1_000_000 == quad / 10_000 - SECONDS_BETWEEN_1601_AND_1970 * 1000;
  }

  /** One tick before 1601: the millisecond timestamp is later than the nanosecond one. */
  lemma MillisMayRoundUp()
    ensures var ft := FromQuad(-1);
            FileTimeMillis(ft) * 1_000_000 == FileTimeNanos(ft) + 100 > FileTimeNanos(ft)
  {
    hide AsQuad;
    QuadRoundTrip(-1);
  }
}
