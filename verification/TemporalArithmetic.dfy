/** Shifting a temporal value by a duration and measuring the duration between two values
    (temporal_value.cpp, "Arithmetic: DateTime +/- Duration" and "Duration between").
    Locals of type int64 and int128 are the C++ locals of those widths: each assignment is proved not
    to overflow. */
module TemporalArithmetic {
  import opened CppArithmetic
  import opened Calendar
  import opened Temporal

  datatype Error = Arithmetic | Argument | Syntax | InvalidNumber | NumberOutOfRange

  datatype Result<+T> = Ok(value: T) | Err(error: Error)

  datatype Duration = Duration(months: int64, days: int64, seconds: int64, nanos: int64)

  // ---------- the supported range ----------

  const MIN_EPOCH_DAY: int := -365243219162
  const MAX_EPOCH_DAY: int := 365241780471

  lemma RangeEnds(first: int, beyond: int)
    requires first == -MAX_YEAR && beyond == MAX_YEAR + 1
    ensures YearStart(first) == MIN_EPOCH_DAY
    ensures YearStart(beyond) == MAX_EPOCH_DAY + 1
  {
    hide YearStart;
    assert LeapDays(first) == -242_500_000 && LeapDays(1970) == 477 && LeapDays(beyond) == 242_499_999;
    YearStartClosedForm(first);
    YearStartClosedForm(beyond);
  }

  /** The supported day numbers are exactly those of the supported years. */
  lemma SupportedDays(c: Civil)
    requires ValidDate(c)
    ensures MIN_EPOCH_DAY <= DayOf(c) <= MAX_EPOCH_DAY <==> -MAX_YEAR <= c.year <= MAX_YEAR
  {
    var first, beyond := -MAX_YEAR, MAX_YEAR + 1;
    RangeEnds(first, beyond);
    DateInsideYear(c);
    if c.year >= beyond {
      YearStartIncreasing(beyond, c.year);
    } else if c.year < first {
      YearStartIncreasing(c.year + 1, first);
    } else {
      YearStartIncreasing(first, c.year);
      YearStartIncreasing(c.year + 1, beyond);
    }
  }

  lemma DateBounds(z: int)
    requires -1_000_000_000_000_000 <= z <= 1_000_000_000_000_000
    ensures -3_000_000_000_000 <= DateOfDay(z).year <= 3_000_000_000_000
    ensures 1 <= DateOfDay(z).month <= 12 && 1 <= DateOfDay(z).day <= 31
  {
    var c := DateOfDay(z);
    DayBounds(c.year, c.month, c.day);
  }

  // ---------- shifting by a duration ----------

  const MAX_SECONDS: int := MAX_EPOCH_DAY * 86_400

  /** The coarse filter on the components of a duration. */
  predicate Acceptable(d: Duration) {
    && -MAX_EPOCH_DAY <= d.days <= MAX_EPOCH_DAY
    && TDiv(-MAX_EPOCH_DAY, 28) <= d.months <= TDiv(MAX_EPOCH_DAY, 28)
    && -MAX_SECONDS <= d.seconds <= MAX_SECONDS
  }

  function TotalNanos(d: Duration): int {
    d.seconds * NANOS_PER_SECOND + d.nanos
  }

  /** The day number after whole months have been added: the day of the month is clamped to the last day
      of the month it lands in. Zero months leave the date alone. */
  ghost function MonthShiftedDay(t: DateTime, months: int): int {
    if months == 0 then RolledDay(t.year, t.month, t.day)
    else
      var total := AbsoluteMonths(t.year, t.month) + months;
      var last := DaysInMonth(total / 12, total % 12 + 1);
      EpochDay(total / 12, total % 12 + 1, if t.day > last then last else t.day)
  }

  /** Where the wall clock points after the shift: exactly the days and the nanoseconds of the duration
      beyond the month-shifted date. */
  ghost function ShiftedNanos(t: DateTime, d: Duration): int {
    (MonthShiftedDay(t, d.months) + d.days) * NANOS_PER_DAY
    + DayNanos(t.hour, t.minute, t.second, t.nanos) + TotalNanos(d)
  }

  /** The date a DATE reaches: only whole days of the time part count, truncated toward zero. */
  ghost function ShiftedDay(t: DateTime, d: Duration): int {
    MonthShiftedDay(t, d.months) + d.days + TDiv(TotalNanos(d), NANOS_PER_DAY)
  }

  ghost predicate Supported(day: int) {
    MIN_EPOCH_DAY <= day <= MAX_EPOCH_DAY
  }

  /** What adding a duration means. A value with a time of day moves on the wall clock by exactly the days,
      seconds and nanoseconds of the duration, after the clamped month shift; a date moves by whole days.
      The call fails when a component is outside the coarse filter or the target day is unsupported, and
      in no other case. */
  ghost predicate IsShifted(t: DateTime, d: Duration, r: Result<DateTime>) {
    if !Acceptable(d) then r == Err(Arithmetic)
    else if t.kind == DATE then
      if Supported(ShiftedDay(t, d))
      then r.Ok? && CivilOf(r.value) == DateOfDay(ShiftedDay(t, d)) && SameZone(r.value, t)
           && (r.value.hour, r.value.minute, r.value.second, r.value.nanos) == (t.hour, t.minute, t.second, t.nanos)
      else r == Err(Arithmetic)
    else
      if Supported(ShiftedNanos(t, d) / NANOS_PER_DAY)
      then r.Ok? && Normal(r.value) && LocalFieldsNanos(r.value) == ShiftedNanos(t, d) && SameZone(r.value, t)
      else r == Err(Arithmetic)
  }

  lemma MonthShiftBounds(t: DateTime, months: int)
    requires TDiv(-MAX_EPOCH_DAY, 28) <= months <= TDiv(MAX_EPOCH_DAY, 28)
    ensures -2_000_000_000_000 <= MonthShiftedDay(t, months) <= 2_000_000_000_000
  {
    hide EpochDay, IsLeapYear;
    var total := AbsoluteMonths(t.year, t.month) + months;
    var last := DaysInMonth(total / 12, total % 12 + 1);
    DayBounds(total / 12, total % 12 + 1, if months != 0 && t.day > last then last else t.day);
  }

  lemma RolledDayMoves(year: int, month: int, day: int, k: int)
    ensures RolledDay(year, month, day + k) == RolledDay(year, month, day) + k
  {
  }

  lemma DayAfter(c: Civil, k: int)
    requires ValidDate(c)
    ensures RolledDay(c.year, c.month, c.day + k) == DayOf(c) + k
  {
    RolledDayInRange(c.year, c.month, c.day + k);
  }

  predicate SameZone(a: DateTime, b: DateTime) {
    a.kind == b.kind && a.tzOffset == b.tzOffset && a.tzName == b.tzName
  }

  /** The final range check and the narrowing to the field widths. */
  method Narrow(t: DateTime, year: int64, month: int64, day: int64, hour: int64, minute: int64, second: int64,
                nanos: int64) returns (r: Result<DateTime>)
    requires ValidDate(Civil(year, month, day)) && CountFits(year, month, day)
    requires -128 <= hour <= 127 && -128 <= minute <= 127 && -128 <= second <= 127
    requires -0x8000_0000 <= nanos <= 0x7FFF_FFFF
    ensures IsNarrowed(t, EpochDay(year, month, day), hour, minute, second, nanos, r)
  {
    hide DaysFromCivil, EpochDay, DateOfDay, IsLeapYear, CountFits;
    DaysFromCivilCounts(year, month, day);
    SupportedDays(Civil(year, month, day));
    EpochDayOrders(Civil(year, month, day), DateOfDay(EpochDay(year, month, day)));
    var epochDay := CountDays(year, month, day);
    if epochDay < MIN_EPOCH_DAY || epochDay > MAX_EPOCH_DAY {
      return Err(Arithmetic);
    }
    r := Ok(DateTime(t.kind, ToInt32(year), ToInt8(month), ToInt8(day), ToInt8(hour), ToInt8(minute),
                     ToInt8(second), ToInt32(nanos), t.tzOffset, t.tzName));
  }

  /** What Narrow makes of a date and a time of day. */
  ghost predicate IsNarrowed(
    t: DateTime, z: int, hour: int, minute: int, second: int, nanos: int, r: Result<DateTime>) {
    if Supported(z) then
      r.Ok? && CivilOf(r.value) == DateOfDay(z) && -MAX_YEAR <= r.value.year <= MAX_YEAR && SameZone(r.value, t)
      && (r.value.hour, r.value.minute, r.value.second, r.value.nanos) == (hour, minute, second, nanos)
    else r == Err(Arithmetic)
  }

  lemma DateIsShifted(t: DateTime, d: Duration, r: Result<DateTime>)
    requires Acceptable(d) && t.kind == DATE
    requires IsNarrowed(t, ShiftedDay(t, d), t.hour, t.minute, t.second, t.nanos, r)
    ensures IsShifted(t, d, r)
  {
  }

  lemma TimeIsShifted(t: DateTime, d: Duration, hour: int, minute: int, second: int, nanos: int, r: Result<DateTime>)
    requires Acceptable(d) && t.kind != DATE && NormalTimeOfDay(hour, minute, second, nanos)
    requires var reached := ShiftedNanos(t, d) / NANOS_PER_DAY;
             ShiftedNanos(t, d) == reached * NANOS_PER_DAY + DayNanos(hour, minute, second, nanos)
             && IsNarrowed(t, reached, hour, minute, second, nanos, r)
    ensures IsShifted(t, d, r)
  {
    hide DaysFromCivil, EpochDay, DateOfDay, MonthShiftedDay, ShiftedNanos, LocalFieldsNanos, DayNanos;
    if r.Ok? {
      LocalCoordinate(r.value);
    }
  }

  /** The month step: whole months first, then the clamp. */
  method ShiftMonthFields(t: DateTime, months: int64) returns (year: int64, month: int64, day: int64)
    requires TDiv(-MAX_EPOCH_DAY, 28) <= months <= TDiv(MAX_EPOCH_DAY, 28)
    ensures RolledDay(year, month, day) == MonthShiftedDay(t, months)
    ensures -128 <= day <= 127 && -128 <= month <= 127 && -4_000_000_000 <= year <= 4_000_000_000
  {
    hide EpochDay, IsLeapYear;
    year, month, day := t.year, t.month, t.day;
    if months != 0 {
      var totalMonths: int64 := AbsoluteMonths(year, month) + months;
      YearOfMonthsIsFloor(totalMonths);
      var newYear: int64 := YearOfMonths(totalMonths);
      year := newYear;
      month := totalMonths - newYear * 12 + 1;
      MonthLength(year, month);
      var lastDay := DaysInMonth(year, month);
      if lastDay > 0 && day > lastDay {
        day := lastDay;
      }
      RolledDayInRange(year, month, day);
    }
  }

  /** Seconds past the hour after the addition, before anything is carried into the hour; may be negative. */
  function SecondsPastHour(minute: int, second: int, nanos: int, totalNanos: int): int {
    minute * 60 + second + (nanos + totalNanos) / NANOS_PER_SECOND
  }

  lemma TruncatedFloor(totalNanos: int)
    ensures var q := TDiv(totalNanos, NANOS_PER_SECOND);
            q == totalNanos / NANOS_PER_SECOND + (if TMod(totalNanos, NANOS_PER_SECOND) < 0 then 1 else 0)
            && (totalNanos >= 0 ==> q == totalNanos / NANOS_PER_SECOND)
  {
    FloorFromTruncation(totalNanos, NANOS_PER_SECOND);
    TruncatedDivision(totalNanos, NANOS_PER_SECOND);
  }

  /** Truncating division repaired into floor division. */
  method SplitNanos(totalNanos: int128) returns (addSeconds: int64, addNanos: int64)
    requires INT64_MIN <= totalNanos / NANOS_PER_SECOND <= INT64_MAX
    ensures addSeconds == totalNanos / NANOS_PER_SECOND && addNanos == totalNanos % NANOS_PER_SECOND
    ensures totalNanos == addSeconds * NANOS_PER_SECOND + addNanos && 0 <= addNanos < NANOS_PER_SECOND
  {
    TruncatedFloor(totalNanos);
    hide TDiv, TMod;
    TruncatedDivision(totalNanos, NANOS_PER_SECOND);
    addSeconds := TDiv(totalNanos, NANOS_PER_SECOND);
    addNanos := TMod(totalNanos, NANOS_PER_SECOND);
    if addNanos < 0 {
      addNanos := addNanos + NANOS_PER_SECOND;
      addSeconds := addSeconds - 1;
    }
  }

  lemma WholeSeconds(total: int, seconds: int, nanos: int)
    requires total == seconds * NANOS_PER_SECOND + nanos && 0 <= nanos < NANOS_PER_SECOND
    ensures total / NANOS_PER_SECOND == seconds
  {
    DivUnique(total, NANOS_PER_SECOND, seconds);
  }

  /** The hours carried, and the seconds left, as one truncating division. */
  predicate CarriedPastHour(past: int, hours: int, left: int) {
    hours == TDiv(past, 3600) && left == TMod(past, 3600)
  }

  /** The seconds fit 64 bits at each of the three points where the code adds to them. */
  predicate CarryFits(second: int, nanos: int, totalNanos: int) {
    var q, r := totalNanos / NANOS_PER_SECOND, totalNanos % NANOS_PER_SECOND;
    && INT64_MIN <= q <= INT64_MAX
    && INT64_MIN <= second + q <= INT64_MAX
    && INT64_MIN <= second + q + TDiv(nanos + r, NANOS_PER_SECOND) <= INT64_MAX
  }

  lemma SmallCarryFits(second: int, nanos: int, totalNanos: int)
    requires -128 <= second <= 127 && -0x8000_0000 <= nanos <= 0x7FFF_FFFF
    requires -9_010_000_000_000_000_000 * NANOS_PER_SECOND <= totalNanos
    requires totalNanos <= 9_010_000_000_000_000_000 * NANOS_PER_SECOND
    ensures CarryFits(second, nanos, totalNanos)
  {
  }

  /** Adds nanoseconds to a time of day and carries upward with truncating division. The sum is kept; the
      lower fields may come out negative, and the hour is not yet reduced. */
  method Carry(hour0: int8, minute0: int8, second0: int8, nanos0: int32, totalNanos: int128)
    returns (hour: int64, minute: int64, second: int64, nanos: int64)
    requires CarryFits(second0, nanos0, totalNanos)
    ensures DayNanos(hour, minute, second, nanos) == DayNanos(hour0, minute0, second0, nanos0) + totalNanos
    ensures -60 < minute < 60 && -60 < second < 60 && -NANOS_PER_SECOND < nanos < NANOS_PER_SECOND
    ensures -3_000_000_000_000_000 <= hour <= 3_000_000_000_000_000
    ensures NormalTimeOfDay(hour0, minute0, second0, nanos0) ==>
              nanos >= 0 && CarriedPastHour(SecondsPastHour(minute0, second0, nanos0, totalNanos),
                                            hour - hour0, minute * 60 + second)
  {
    hide TDiv, TMod;
    hour, minute, second, nanos := hour0, minute0, second0, nanos0;
    var addSeconds: int64, addNanos: int64 := SplitNanos(totalNanos);
    nanos := nanos + addNanos;
    second := second + addSeconds;
    TruncatedDivision(nanos, NANOS_PER_SECOND);
    second := second + TDiv(nanos, NANOS_PER_SECOND);
    nanos := TMod(nanos, NANOS_PER_SECOND);
    ghost var s1 := second;
    TruncatedDivision(second, 60);
    minute := minute + TDiv(second, 60);
    second := TMod(second, 60);
    ghost var m1 := minute;
    TruncatedDivision(minute, 60);
    hour := hour + TDiv(minute, 60);
    minute := TMod(minute, 60);
    if NormalTimeOfDay(hour0, minute0, second0, nanos0) {
      WholeSeconds(nanos0 + totalNanos, s1 - second0, nanos);
      TruncatedChain(minute0, s1, m1);
    }
  }

  /** Carrying seconds into minutes and minutes into hours truncates like one division by 3600. */
  lemma TruncatedChain(minute: int, s1: int, m1: int)
    requires 0 <= minute < 60 && m1 == minute + TDiv(s1, 60)
    ensures TDiv(m1, 60) == TDiv(minute * 60 + s1, 3600)
    ensures TMod(m1, 60) * 60 + TMod(s1, 60) == TMod(minute * 60 + s1, 3600)
  {
    var past := minute * 60 + s1;
    TruncatedDivision(s1, 60);
    TruncatedDivision(m1, 60);
    if past >= 0 {
      DivUnique(past, 3600, TDiv(m1, 60));
    } else {
      DivUnique(-past, 3600, -TDiv(m1, 60));
    }
  }

  /** Borrows from the next field for every negative one. The sum is kept; only the hour may come out
      negative. */
  method Borrow(hour0: int64, minute0: int64, second0: int64, nanos0: int64)
    returns (hour: int64, minute: int64, second: int64, nanos: int64)
    requires -1000 <= hour0 <= 1000
    requires -60 < minute0 < 60 && -60 < second0 < 60 && -NANOS_PER_SECOND < nanos0 < NANOS_PER_SECOND
    ensures DayNanos(hour, minute, second, nanos) == DayNanos(hour0, minute0, second0, nanos0)
    ensures 0 <= minute < 60 && 0 <= second < 60 && 0 <= nanos < NANOS_PER_SECOND
    ensures hour0 - 2 <= hour <= hour0
    ensures nanos0 >= 0 ==> hour == hour0 - (if minute0 * 60 + second0 < 0 then 1 else 0)
  {
    hour, minute, second, nanos := hour0, minute0, second0, nanos0;
    if nanos < 0 {
      nanos := nanos + NANOS_PER_SECOND;
      second := second - 1;
    }
    if second < 0 {
      var bm: int64 := TDiv(-second + 59, 60);
      second := second + bm * 60;
      minute := minute - bm;
    }
    if minute < 0 {
      var bh: int64 := TDiv(-minute + 59, 60);
      minute := minute + bh * 60;
      hour := hour - bh;
    }
  }

  lemma HourDays(hour: int, minute: int, second: int, nanos: int, k: int)
    ensures DayNanos(hour - k * 24, minute, second, nanos)
            == DayNanos(hour, minute, second, nanos) - k * NANOS_PER_DAY
  {
  }

  lemma ReachedCoordinate(t: DateTime, d: Duration, base: int, reached: int,
                          hour: int, minute: int, second: int, nanos: int)
    requires base == MonthShiftedDay(t, d.months) + d.days
    requires DayNanos(hour, minute, second, nanos)
             == DayNanos(t.hour, t.minute, t.second, t.nanos) + TotalNanos(d) - (reached - base) * NANOS_PER_DAY
    requires NormalTimeOfDay(hour, minute, second, nanos)
    ensures ShiftedNanos(t, d) == reached * NANOS_PER_DAY + DayNanos(hour, minute, second, nanos)
    ensures ShiftedNanos(t, d) / NANOS_PER_DAY == reached
  {
    DayNanosRange(hour, minute, second, nanos);
    DivUnique(ShiftedNanos(t, d), NANOS_PER_DAY, reached);
  }

  /** addDuration for dates and datetimes. */
  method AddDuration(t: DateTime, d: Duration) returns (r: Result<DateTime>)
    ensures IsShifted(t, d, r)
  {
    hide DaysFromCivil, EpochDay, DateOfDay, RolledDay, MonthShiftedDay, TMod, DayNanos, ShiftedNanos;
    hide LocalFieldsNanos, ValidDate, CarriedPastHour, SecondsPastHour, CarryFits;
    if !Acceptable(d) {
      return Err(Arithmetic);
    }
    hide IsShifted, IsNarrowed;
    var year: int64, month: int64, day: int64 := ShiftMonthFields(t, d.months);
    ghost var base := MonthShiftedDay(t, d.months) + d.days;
    MonthShiftBounds(t, d.months);
    RolledDayMoves(year, month, day, d.days);
    day := day + d.days;
    DateBounds(base);
    year, month, day := NormalizeDate(year, month, day);

    if t.kind == DATE {
      var totalNanos: int128 := TotalNanos(d);
      var extraDays: int64 := TDiv(totalNanos, NANOS_PER_DAY);
      DayAfter(Civil(year, month, day), extraDays);
      DateBounds(base + extraDays);
      day := day + extraDays;
      year, month, day := NormalizeDate(year, month, day);
      r := Narrow(t, year, month, day, t.hour, t.minute, t.second, t.nanos);
      DateIsShifted(t, d, r);
      return;
    }

    var totalNanos: int128 := TotalNanos(d);
    SmallCarryFits(t.second, t.nanos, totalNanos);
    var hour: int64, minute: int64, second: int64, nanos: int64 :=
      Carry(t.hour, t.minute, t.second, t.nanos, totalNanos);
    var extraDays: int64 := TDiv(hour, 24);
    if hour < 0 {
      extraDays := TDiv(hour - 23, 24);
    }
    HourDays(hour, minute, second, nanos, extraDays);
    hour := hour - extraDays * 24;
    DayAfter(Civil(year, month, day), extraDays);
    DateBounds(base + extraDays);
    day := day + extraDays;
    year, month, day := NormalizeDate(year, month, day);

    hour, minute, second, nanos := Borrow(hour, minute, second, nanos);
    ghost var reached := base + extraDays;
    if hour < 0 {
      var bd: int64 := TDiv(-hour + 23, 24);
      HourDays(hour, minute, second, nanos, -bd);
      hour := hour + bd * 24;
      DayAfter(Civil(year, month, day), -bd);
      DateBounds(base + extraDays - bd);
      day := day - bd;
      year, month, day := NormalizeDate(year, month, day);
      reached := reached - bd;
    }
    ReachedCoordinate(t, d, base, reached, hour, minute, second, nanos);
    r := Narrow(t, year, month, day, hour, minute, second, nanos);
    TimeIsShifted(t, d, hour, minute, second, nanos, r);
  }

  /** addDuration for times of day: the sum is right modulo 24 hours, but the hour is reduced before the last
      borrow and can be left at -1. That happens exactly when the part below the hour becomes negative, is
      not a whole number of hours, and the hour it is borrowed from is midnight. */
  method AddTimeDuration(t: Time, d: Duration) returns (r: Time)
    requires NormalTime(t) && CarryFits(t.second, t.nanos, TotalNanos(d))
    ensures (DayNanos(r.hour, r.minute, r.second, r.nanos)
             - DayNanos(t.hour, t.minute, t.second, t.nanos) - TotalNanos(d)) % NANOS_PER_DAY == 0
    ensures 0 <= r.minute < 60 && 0 <= r.second < 60 && 0 <= r.nanos < NANOS_PER_SECOND && -1 <= r.hour < 24
    ensures r.kind == t.kind && r.tzOffset == t.tzOffset && r.tzName == t.tzName
    ensures var past := SecondsPastHour(t.minute, t.second, t.nanos, TotalNanos(d));
            r.hour == -1 <==> past < 0 && past % 3600 != 0 && (t.hour + TDiv(past, 3600)) % 24 == 0
  {
    hide DayNanos, TDiv, TMod, SecondsPastHour, CarryFits;
    var totalNanos: int128 := TotalNanos(d);
    var hour: int64, minute: int64, second: int64, nanos: int64 :=
      Carry(t.hour, t.minute, t.second, t.nanos, totalNanos);
    ghost var past := SecondsPastHour(t.minute, t.second, t.nanos, totalNanos);
    TruncatedDivision(past, 3600);
    TruncatedRemainderZero(past, 3600);
    ghost var carried: int := hour;
    TruncatedDivision(hour, 24);
    hour := TMod(hour, 24);
    if hour < 0 {
      hour := hour + 24;
    }
    WholeDays(carried, hour, TDiv(carried, 24) - (if TMod(carried, 24) < 0 then 1 else 0));
    HourDays(carried, minute, second, nanos, carried / 24);
    hour, minute, second, nanos := Borrow(hour, minute, second, nanos);
    r := Time(t.kind, ToInt8(hour), ToInt8(minute), ToInt8(second), ToInt32(nanos), t.tzOffset, t.tzName);
    DivUnique(-(carried / 24) * NANOS_PER_DAY, NANOS_PER_DAY, -(carried / 24));
  }

  lemma WholeDays(hours: int, hour: int, k: int)
    requires 0 <= hour < 24 && hour == hours - 24 * k
    ensures hour == hours % 24 && hour == hours - hours / 24 * 24
  {
    DivUnique(hours, 24, k);
  }

  /** Midnight minus one second. */
  lemma TimeHourCanBeNegative(t: Time, d: Duration)
    requires t == Time(LOCAL_TIME, 0, 0, 0, 0, 0, "") && d == Duration(0, 0, -1, 0)
    ensures var past := SecondsPastHour(t.minute, t.second, t.nanos, TotalNanos(d));
            past < 0 && past % 3600 != 0 && (t.hour + TDiv(past, 3600)) % 24 == 0
  {
  }

  // ---------- measuring the duration between two values ----------

  /** normalizeDurationNanos: brings the nanoseconds into [0, 1e9) and keeps the total, or fails when the
      carry leaves the 64-bit seconds. */
  method NormalizeDurationNanos(d: Duration) returns (r: Result<Duration>)
    ensures var total := TotalNanos(d);
            if INT64_MIN <= total / NANOS_PER_SECOND <= INT64_MAX
            then r == Ok(Duration(d.months, d.days, total / NANOS_PER_SECOND, total % NANOS_PER_SECOND))
            else r == Err(Argument)
  {
    var seconds: int64, nanos: int64 := d.seconds, d.nanos;
    DivUnique(TotalNanos(d), NANOS_PER_SECOND, d.seconds + d.nanos / NANOS_PER_SECOND);
    if 0 <= nanos < NANOS_PER_SECOND {
      DivUnique(nanos, NANOS_PER_SECOND, 0);
      return Ok(d);
    }
    TruncatedDivision(nanos, NANOS_PER_SECOND);
    var carry: int64 := TDiv(nanos, NANOS_PER_SECOND);
    var rem: int64 := TMod(nanos, NANOS_PER_SECOND);
    if rem < 0 {
      rem := rem + NANOS_PER_SECOND;
      carry := carry - 1;
    }
    DivUnique(nanos, NANOS_PER_SECOND, carry);
    if carry > 0 && seconds > INT64_MAX - carry {
      return Err(Argument);
    }
    if carry < 0 && seconds < INT64_MIN - carry {
      return Err(Argument);
    }
    seconds := seconds + carry;
    nanos := rem;
    r := Ok(Duration(d.months, d.days, seconds, nanos));
  }

  /** What addMonthsClamped computes: the year is stored back into its 32-bit field. */
  function AddMonthsClamped(a: DateTime, months: int): DateTime {
    if months == 0 then a
    else
      var total := AbsoluteMonths(a.year, a.month) + months;
      var y := YearOfMonths(total);
      var year := ToInt32(y);
      var month := ToInt8(total - y * 12 + 1);
      var last := DaysInMonth(year, month);
      a.(year := year, month := month, day := if last > 0 && a.day > last then last else a.day)
  }

  /** Month counts that addMonthsClamped takes without overflow. */
  predicate MonthsFit(a: DateTime, months: int) {
    -INT64_MAX + 11 <= AbsoluteMonths(a.year, a.month) + months <= INT64_MAX
  }

  /** addMonthsClamped. */
  method ClampMonths(a: DateTime, months: int64) returns (r: DateTime)
    requires MonthsFit(a, months)
    ensures r == AddMonthsClamped(a, months)
  {
    hide IsLeapYear, TDiv, TMod;
    r := a;
    if months == 0 {
      return;
    }
    var absolute: int64 := AbsoluteMonths(a.year, a.month);
    var total: int64 := absolute + months;
    var y: int64 := 0;
    YearOfMonthsIsFloor(total);
    if total >= 0 {
      y := TDiv(total, 12);
    } else {
      var up: int64 := -total + 11;
      y := -TDiv(up, 12);
    }
    assert y == YearOfMonths(total);
    var start: int64 := y * 12;
    r := r.(year := ToInt32(y), month := ToInt8(total - start + 1));
    var last: int64 := DaysInMonth(r.year, r.month);
    if last > 0 && r.day > last {
      r := r.(day := last);
    }
  }

  function TimeOfDayNanos(v: DateTime, utc: bool): int64 {
    var ns := DayNanos(v.hour, v.minute, v.second, v.nanos);
    if utc && v.kind == DATETIME then ns - v.tzOffset * NANOS_PER_SECOND else ns
  }

  predicate BothZoned(a: DateTime, b: DateTime) {
    a.kind == DATETIME && b.kind == DATETIME
  }

  /** The coordinate both values are measured in: instants only if both are zoned. */
  function Frame(v: DateTime, zoned: bool): int {
    if zoned then Comparable(v) else LocalFieldsNanos(v)
  }

  /** The end date the months are counted to: a value with a time of day that ends earlier in the day than
      it starts counts to the day before. */
  function EndDate(a: DateTime, b: DateTime): Civil {
    var zoned := BothZoned(a, b);
    if a.kind != DATE && TimeOfDayNanos(b, zoned) < TimeOfDayNanos(a, zoned)
    then PreviousDay(CivilOf(b)) else CivilOf(b)
  }

  function MonthsBetween(a: DateTime, b: DateTime): int {
    var end := EndDate(a, b);
    TDiv(PackedMonthDay(end.year, end.month, end.day) - PackedMonthDay(a.year, a.month, a.day), 32)
  }

  /** The days between the calendar dates left after the whole months, and what they leave over. */
  function CalendarDays(a: DateTime, b: DateTime): int {
    var mid := AddMonthsClamped(a, MonthsBetween(a, b));
    DaysFromCivil(b.year, b.month, b.day) - DaysFromCivil(mid.year, mid.month, mid.day)
  }

  function Leftover(a: DateTime, b: DateTime): int {
    var zoned := BothZoned(a, b);
    Frame(b, zoned) - Frame(AddMonthsClamped(a, MonthsBetween(a, b)), zoned) - CalendarDays(a, b) * NANOS_PER_DAY
  }

  /** What measuring a duration means: whole months by the packed comparison, then days and nanoseconds that
      make up the rest exactly. One day is folded into the nanoseconds when the two disagree in sign. */
  ghost predicate IsBetween(a: DateTime, b: DateTime, d: Duration) {
    var zoned := BothZoned(a, b);
    var days, left := CalendarDays(a, b), Leftover(a, b);
    && d.months == MonthsBetween(a, b)
    && Frame(AddMonthsClamped(a, d.months), zoned) + d.days * NANOS_PER_DAY + TotalNanos(d) == Frame(b, zoned)
    && d.days == days - (if days > 0 && left < 0 then 1 else if days < 0 && left > 0 then -1 else 0)
    && 0 <= d.nanos < NANOS_PER_SECOND
  }

  predicate SupportedYear(t: DateTime) {
    -MAX_YEAR <= t.year <= MAX_YEAR
  }

  lemma EndDateNear(a: DateTime, b: DateTime)
    ensures var end := EndDate(a, b);
            && -140 <= AbsoluteMonths(end.year, end.month) - AbsoluteMonths(b.year, b.month) <= 140
            && -128 <= end.day <= 127
  {
    hide TimeOfDayNanos;
  }

  /** The month shift adds whole months and clamps the day. */
  lemma ClampedMonths(a: DateTime, months: int)
    requires SupportedYear(a) && -30_000_000_000 <= months <= 30_000_000_000
    requires -2_000_000_000 * 12 <= AbsoluteMonths(a.year, a.month) + months < 2_000_000_000 * 12
    ensures var mid := AddMonthsClamped(a, months);
            && (months != 0 ==> 1 <= mid.month <= 12)
            && AbsoluteMonths(mid.year, mid.month) == AbsoluteMonths(a.year, a.month) + months
            && (months != 0 ==>
                  mid.day == if a.day > DaysInMonth(mid.year, mid.month)
                             then DaysInMonth(mid.year, mid.month) else a.day)
            && mid == a.(year := mid.year, month := mid.month, day := mid.day)
  {
    hide IsLeapYear;
    YearOfMonthsIsFloor(AbsoluteMonths(a.year, a.month) + months);
  }

  /** The whole months lead near the end date's month. */
  lemma MidMonth(a: DateTime, b: DateTime)
    requires SupportedYear(a) && SupportedYear(b)
    ensures -25_000_000_000 <= MonthsBetween(a, b) <= 25_000_000_000
    ensures var total := AbsoluteMonths(a.year, a.month) + MonthsBetween(a, b);
            -1_500_000_000 * 12 <= total < 1_500_000_000 * 12
  {
    hide EndDate;
    EndDateNear(a, b);
    var end := EndDate(a, b);
    TruncatedDivision(PackedMonthDay(end.year, end.month, end.day) - PackedMonthDay(a.year, a.month, a.day), 32);
  }

  /** The end date, with java.time's minusDays(1) written out. */
  method ComputeEndDate(a: DateTime, b: DateTime) returns (endYear: int64, endMonth: int64, endDay: int64)
    ensures Civil(endYear, endMonth, endDay) == EndDate(a, b)
  {
    hide IsLeapYear;
    var hasTime := a.kind != DATE;
    var bothZoned := a.kind == DATETIME && b.kind == DATETIME;
    endYear, endMonth, endDay := b.year, b.month, b.day;
    if hasTime && TimeOfDayNanos(b, bothZoned) < TimeOfDayNanos(a, bothZoned) {
      endDay := endDay - 1;
      if endDay < 1 {
        endMonth := endMonth - 1;
        if endMonth < 1 {
          endMonth := 12;
          endYear := endYear - 1;
        }
        endDay := DaysInMonth(endYear, endMonth);
      }
    }
  }

  /** durationBetween: no step overflows for values of the supported years, and it never fails. */
  method DurationBetween(a: DateTime, b: DateTime) returns (r: Result<Duration>)
    requires SupportedYear(a) && SupportedYear(b)
    ensures r.Ok? && IsBetween(a, b, r.value)
  {
    hide DaysFromCivil, TMod, EndDate, AddMonthsClamped, Frame, TimeOfDayNanos, CountFits, IsBetween;
    EndDateNear(a, b);
    var endYear: int64, endMonth: int64, endDay: int64 := ComputeEndDate(a, b);
    var packedA: int64 := PackedMonthDay(a.year, a.month, a.day);
    var packedB: int64 := PackedMonthDay(endYear, endMonth, endDay);
    var months: int64 := TDiv(packedB - packedA, 32);
    assert months == MonthsBetween(a, b);
    hide MonthsBetween, PackedMonthDay;

    MidMonth(a, b);
    var mid := ClampMonths(a, months);
    DaysFromCivilBounds(b.year, b.month, b.day);
    DaysFromCivilBounds(mid.year, mid.month, mid.day);
    LeftoverBounds(a, b);
    var bothZoned := a.kind == DATETIME && b.kind == DATETIME;
    StructFits(b);
    StructFits(mid);
    var endDays := CountDays(b.year, b.month, b.day);
    var midDays := CountDays(mid.year, mid.month, mid.day);
    var days: int64 := endDays - midDays;
    var remNs: int64 := Frame(b, bothZoned) - Frame(mid, bothZoned) - days * NANOS_PER_DAY;
    if days > 0 && remNs < 0 {
      days := days - 1;
      remNs := remNs + NANOS_PER_DAY;
    } else if days < 0 && remNs > 0 {
      days := days + 1;
      remNs := remNs - NANOS_PER_DAY;
    }
    TruncatedDivision(remNs, NANOS_PER_SECOND);
    var result := Duration(months, days, TDiv(remNs, NANOS_PER_SECOND), TMod(remNs, NANOS_PER_SECOND));
    assert TotalNanos(result) == remNs;
    r := NormalizeDurationNanos(result);
    PartsMeasure(a, b, r.value);
  }

  lemma PartsMeasure(a: DateTime, b: DateTime, d: Duration)
    requires d.months == MonthsBetween(a, b) && 0 <= d.nanos < NANOS_PER_SECOND
    requires var days, left := CalendarDays(a, b), Leftover(a, b);
             var fold := if days > 0 && left < 0 then 1 else if days < 0 && left > 0 then -1 else 0;
             d.days == days - fold && TotalNanos(d) == left + fold * NANOS_PER_DAY
    ensures IsBetween(a, b, d)
  {
    hide DaysFromCivil, MonthsBetween, AddMonthsClamped, Frame, CalendarDays;
  }

  /** The day of any struct value is counted without overflow. */
  lemma StructFits(t: DateTime)
    ensures CountFits(t.year, t.month, t.day)
  {
  }

  /** What is left after the calendar days is the difference of two times of day and two offsets. */
  lemma LeftoverBounds(a: DateTime, b: DateTime)
    ensures var zoned := BothZoned(a, b);
            Leftover(a, b) == TimeOfDayNanos(b, zoned) - TimeOfDayNanos(a, zoned)
    ensures -5_000_000_000 * NANOS_PER_SECOND <= Leftover(a, b) <= 5_000_000_000 * NANOS_PER_SECOND
  {
    hide DaysFromCivil;
  }

  // ---------- laws ----------

  /** The month shift of measuring and the month shift of adding agree. */
  lemma MonthShiftsAgree(a: DateTime, b: DateTime)
    requires Normal(a) && SupportedYear(b)
    ensures var mid := AddMonthsClamped(a, MonthsBetween(a, b));
            && ValidDate(CivilOf(mid))
            && DayOf(CivilOf(mid)) == MonthShiftedDay(a, MonthsBetween(a, b))
            && LocalFieldsNanos(mid) == MonthShiftedDay(a, MonthsBetween(a, b)) * NANOS_PER_DAY
                                        + DayNanos(a.hour, a.minute, a.second, a.nanos)
            && SameZone(mid, a)
  {
    hide MonthsBetween, DaysFromCivil, EpochDay, IsLeapYear;
    var months := MonthsBetween(a, b);
    MidMonth(a, b);
    ClampedMonths(a, months);
    var mid := AddMonthsClamped(a, months);
    RolledDayInRange(a.year, a.month, a.day);
    DivUnique(AbsoluteMonths(mid.year, mid.month), 12, mid.year);
    LocalCoordinate(mid);
  }

  /** The whole months lead to within a month of the end date, so the remaining days are few. */
  lemma FewDaysLeft(a: DateTime, b: DateTime)
    requires Normal(a) && Normal(b)
    ensures -100 <= CalendarDays(a, b) <= 100
  {
    hide MonthsBetween, DaysFromCivil, EpochDay, IsLeapYear, AddMonthsClamped, EndDate;
    MonthShiftsAgree(a, b);
    MidMonth(a, b);
    var mid := AddMonthsClamped(a, MonthsBetween(a, b));
    DaysFromCivilCounts(b.year, b.month, b.day);
    DaysFromCivilCounts(mid.year, mid.month, mid.day);
    MidIsClose(a, b);
    NeighbouringMonths(CivilOf(mid), CivilOf(b));
  }

  lemma MidIsClose(a: DateTime, b: DateTime)
    requires Normal(a) && Normal(b)
    ensures var mid := AddMonthsClamped(a, MonthsBetween(a, b));
            -2 <= AbsoluteMonths(b.year, b.month) - AbsoluteMonths(mid.year, mid.month) <= 2
  {
    hide EndDate, IsLeapYear, AddMonthsClamped, DaysFromCivil, EpochDay, TDiv, TMod;
    MidMonth(a, b);
    ClampedMonths(a, MonthsBetween(a, b));
    var end := EndDate(a, b);
    EndDateValid(a, b);
    TruncatedDivision(PackedMonthDay(end.year, end.month, end.day) - PackedMonthDay(a.year, a.month, a.day), 32);
  }

  lemma EndDateValid(a: DateTime, b: DateTime)
    requires Normal(a) && Normal(b)
    ensures var end := EndDate(a, b);
            && ValidDate(end)
            && DayOf(end) == DayOf(CivilOf(b)) - (if end == CivilOf(b) then 0 else 1)
            && -1 <= AbsoluteMonths(end.year, end.month) - AbsoluteMonths(b.year, b.month) <= 0
  {
    hide TimeOfDayNanos, EpochDay;
    PreviousDayCounts(CivilOf(b));
  }

  lemma NeighbouringMonths(a: Civil, b: Civil)
    requires ValidDate(a) && ValidDate(b)
    requires -2 <= AbsoluteMonths(b.year, b.month) - AbsoluteMonths(a.year, a.month) <= 2
    ensures -100 <= DayOf(b) - DayOf(a) <= 100
  {
    if AbsoluteMonths(a.year, a.month) <= AbsoluteMonths(b.year, b.month) {
      MonthsAhead(a, b);
    } else {
      MonthsAhead(b, a);
    }
  }

  lemma MonthsAhead(a: Civil, b: Civil)
    requires ValidDate(a) && ValidDate(b)
    requires 0 <= AbsoluteMonths(b.year, b.month) - AbsoluteMonths(a.year, a.month) <= 2
    ensures -100 <= DayOf(b) - DayOf(a) <= 100
  {
    hide IsLeapYear, YearStart, DaysBeforeMonth;
    DaysBeforeMonthClosedForm(a.year, a.month);
    DaysBeforeMonthClosedForm(b.year, b.month);
    if a.year == b.year {
      assert a.month <= b.month <= a.month + 2;
    } else {
      assert b.year == a.year + 1 && a.month >= 11 && b.month <= 2;
      DateInsideYear(a);
    }
  }

  lemma LocalDayInRange(t: DateTime)
    requires Normal(t)
    ensures Supported(LocalFieldsNanos(t) / NANOS_PER_DAY)
    ensures LocalFieldsNanos(t) / NANOS_PER_DAY == DayOf(CivilOf(t))
  {
    hide DaysFromCivil, EpochDay;
    LocalCoordinate(t);
    DayNanosRange(t.hour, t.minute, t.second, t.nanos);
    DivUnique(LocalFieldsNanos(t), NANOS_PER_DAY, DayOf(CivilOf(t)));
    SupportedDays(CivilOf(t));
  }

  /** A measured duration passes the coarse filter exactly when its months do. */
  lemma MeasuredDurationAcceptable(a: DateTime, b: DateTime, d: Duration)
    requires Normal(a) && Normal(b) && IsBetween(a, b, d)
    ensures Acceptable(d) <==> TDiv(-MAX_EPOCH_DAY, 28) <= d.months <= TDiv(MAX_EPOCH_DAY, 28)
    ensures -102 <= d.days <= 102
  {
    hide DaysFromCivil, MonthsBetween, AddMonthsClamped, TimeOfDayNanos, EpochDay;
    FewDaysLeft(a, b);
    LeftoverBounds(a, b);
  }

  /** Adding the measured duration, in coordinates. */
  lemma ShiftReachesEnd(a: DateTime, b: DateTime, d: Duration)
    requires Normal(a) && Normal(b) && IsBetween(a, b, d)
    ensures a.kind != DATE ==>
              ShiftedNanos(a, d) == if BothZoned(a, b) then Comparable(b) + a.tzOffset * NANOS_PER_SECOND
                                    else LocalFieldsNanos(b)
    ensures a.kind == DATE && b.kind == DATE ==>
              ShiftedDay(a, d) == DayOf(CivilOf(b)) && TotalNanos(d) == 0
  {
    hide DaysFromCivil, MonthsBetween, AddMonthsClamped, MonthShiftedDay, EpochDay, DayNanos;
    MonthShiftsAgree(a, b);
    LocalCoordinate(b);
    if a.kind == DATE && b.kind == DATE {
      LeftoverBounds(a, b);
    }
  }

  /** Measuring and adding are inverse: for two dates, or two local datetimes, shifting the first by the
      duration between them gives the second, field by field. The shift is accepted exactly when the month
      count passes the coarse filter. */
  lemma BetweenThenAdd(a: DateTime, b: DateTime, d: Duration, r: Result<DateTime>)
    requires Normal(a) && Normal(b) && a.kind == b.kind && a.kind != DATETIME
    requires IsBetween(a, b, d) && IsShifted(a, d, r)
    ensures r.Ok? <==> TDiv(-MAX_EPOCH_DAY, 28) <= d.months <= TDiv(MAX_EPOCH_DAY, 28)
    ensures r.Ok? ==> SameLocalFields(r.value, b) && r.value.kind == b.kind
  {
    hide DaysFromCivil, IsBetween, ShiftedNanos, ShiftedDay, EpochDay;
    MeasuredDurationAcceptable(a, b, d);
    ShiftReachesEnd(a, b, d);
    LocalDayInRange(b);
    if r.Ok? {
      if a.kind == DATE {
        EpochDayOrders(CivilOf(r.value), CivilOf(b));
      } else {
        FieldOrderIsCoordinateOrder(r.value, b);
      }
    }
  }

  /** The filter does refuse some measured durations: from the first supported year to the last there are more
      months than it lets through. */
  lemma FarDatesAreRefused(a: DateTime, b: DateTime, d: Duration, r: Result<DateTime>)
    requires a == DateTime(DATE, -999_999_999, 1, 1, 0, 0, 0, 0, 0, "")
    requires b == DateTime(DATE, 999_999_999, 12, 31, 0, 0, 0, 0, 0, "")
    requires IsBetween(a, b, d) && IsShifted(a, d, r)
    ensures Normal(a) && Normal(b) && r == Err(Arithmetic)
  {
    hide IsBetween, MonthsBetween;
    MeasuredMonths(a, b, d);
    FarMonths(a, b);
  }

  lemma FarMonths(a: DateTime, b: DateTime)
    requires a.kind == DATE && a.year == -999_999_999 && a.month == 1 && a.day == 1
    requires b.year == 999_999_999 && b.month == 12 && b.day == 31
    ensures MonthsBetween(a, b) == 23_999_999_987
  {
  }

  /** Two zoned datetimes: the result is the instant of the second one, in the zone of the first. It exists
      exactly when the month count passes the filter and that instant has a supported local date there. */
  lemma ZonedBetweenThenAdd(a: DateTime, b: DateTime, d: Duration, r: Result<DateTime>)
    requires Normal(a) && Normal(b) && a.kind == b.kind == DATETIME
    requires IsBetween(a, b, d) && IsShifted(a, d, r)
    ensures r.Ok? <==>
            && TDiv(-MAX_EPOCH_DAY, 28) <= d.months <= TDiv(MAX_EPOCH_DAY, 28)
            && Supported((Comparable(b) + a.tzOffset * NANOS_PER_SECOND) / NANOS_PER_DAY)
    ensures r.Ok? ==> Comparable(r.value) == Comparable(b) && SameZone(r.value, a)
  {
    hide DaysFromCivil, IsBetween, ShiftedNanos, ShiftedDay, EpochDay;
    MeasuredDurationAcceptable(a, b, d);
    ShiftReachesEnd(a, b, d);
  }

  lemma EndNotBeforeStart(a: DateTime, b: DateTime)
    requires Normal(a) && Normal(b) && !BothZoned(a, b)
    requires LocalFieldsNanos(a) <= LocalFieldsNanos(b)
    ensures !DateLess(EndDate(a, b), CivilOf(a))
    ensures EndDate(a, b) == CivilOf(b) <==> TimeOfDayNanos(b, false) >= TimeOfDayNanos(a, false)
  {
    hide DaysFromCivil, EpochDay;
    LocalCoordinate(a);
    LocalCoordinate(b);
    DayNanosRange(a.hour, a.minute, a.second, a.nanos);
    DayNanosRange(b.hour, b.minute, b.second, b.nanos);
    PreviousDayCounts(CivilOf(b));
    EpochDayOrders(EndDate(a, b), CivilOf(a));
  }

  /** The month count of a forward interval is the largest that does not pass the end date, comparing days of
      the month as they stand. */
  lemma ForwardMonths(a: DateTime, b: DateTime)
    requires Normal(a) && Normal(b) && !DateLess(EndDate(a, b), CivilOf(a))
    ensures var end, months := EndDate(a, b), MonthsBetween(a, b);
            var start := PackedMonthDay(a.year, a.month, a.day);
            && months >= 0
            && start + 32 * months <= PackedMonthDay(end.year, end.month, end.day) < start + 32 * months + 32
  {
    hide EndDate, IsLeapYear;
    EndDateValid(a, b);
  }

  lemma PackedOrder(c: Civil, e: Civil)
    requires 1 <= c.month <= 12 && 1 <= c.day <= 31 && 1 <= e.month <= 12 && 1 <= e.day <= 31
    ensures DateLess(c, e) <==> PackedMonthDay(c.year, c.month, c.day) < PackedMonthDay(e.year, e.month, e.day)
  {
  }

  /** Clamping never moves past a date that the unclamped month and day do not pass. */
  lemma ClampOrder(a: DateTime, n: int, end: Civil)
    requires Normal(a) && ValidDate(end) && -30_000_000_000 <= n <= 30_000_000_000
    requires -2_000_000_000 * 12 <= AbsoluteMonths(a.year, a.month) + n < 2_000_000_000 * 12
    ensures var shifted := AddMonthsClamped(a, n);
            var start := PackedMonthDay(a.year, a.month, a.day);
            var stop := PackedMonthDay(end.year, end.month, end.day);
            && ValidDate(CivilOf(shifted))
            && (shifted.hour, shifted.minute, shifted.second, shifted.nanos) == (a.hour, a.minute, a.second, a.nanos)
            && (start + 32 * n <= stop ==> !DateLess(end, CivilOf(shifted)))
            && (shifted.day == a.day && stop < start + 32 * n ==> DateLess(end, CivilOf(shifted)))
  {
    hide IsLeapYear, AddMonthsClamped;
    ClampedMonths(a, n);
    if n == 0 {
      ZeroMonths(a);
    }
    PackedOrder(end, CivilOf(AddMonthsClamped(a, n)));
  }

  lemma ZeroMonths(a: DateTime)
    ensures AddMonthsClamped(a, 0) == a
  {
  }

  /** A forward interval measured on the wall clock has no negative part: the whole months do not pass the
      end, and what remains beyond the days is less than a day. One more month would pass the end, unless
      the clamp shortens it. */
  lemma ForwardBetween(a: DateTime, b: DateTime, d: Duration)
    requires Normal(a) && Normal(b) && !BothZoned(a, b) && IsBetween(a, b, d)
    requires LocalFieldsNanos(a) <= LocalFieldsNanos(b)
    ensures d.months >= 0 && d.days >= 0 && d.seconds >= 0 && d.nanos >= 0
    ensures 0 <= TotalNanos(d) < NANOS_PER_DAY
    ensures LocalFieldsNanos(AddMonthsClamped(a, d.months)) <= LocalFieldsNanos(b)
    ensures var next := AddMonthsClamped(a, d.months + 1);
            next.day == a.day ==> LocalFieldsNanos(next) > LocalFieldsNanos(b)
  {
    hide DaysFromCivil, AddMonthsClamped, EpochDay, DayNanos, IsLeapYear;
    hide EndDate, MonthsBetween, PackedMonthDay;
    var end := EndDate(a, b);
    var mid := AddMonthsClamped(a, d.months);
    var next := AddMonthsClamped(a, d.months + 1);
    EndNotBeforeStart(a, b);
    EndDateValid(a, b);
    ForwardMonths(a, b);
    MidMonth(a, b);
    ClampOrder(a, d.months, end);
    ClampOrder(a, d.months + 1, end);
    LeftoverBounds(a, b);
    MonthShiftsAgree(a, b);
    LocalCoordinate(b);
    LocalCoordinate(mid);
    LocalCoordinate(next);
    DaysFromCivilCounts(b.year, b.month, b.day);
    DaysFromCivilCounts(mid.year, mid.month, mid.day);
    DayNanosRange(a.hour, a.minute, a.second, a.nanos);
    DayNanosRange(b.hour, b.minute, b.second, b.nanos);
    EpochDayOrders(CivilOf(mid), end);
    EpochDayOrders(CivilOf(next), end);
  }

  /** What is left over is the difference of the two times of day, as instants for two zoned values; one day of it
      is folded into the days when the two disagree in sign. */
  lemma MeasuredParts(a: DateTime, b: DateTime, d: Duration)
    requires Normal(a) && Normal(b) && IsBetween(a, b, d)
    ensures var mid := AddMonthsClamped(a, d.months);
            var zoned := BothZoned(a, b);
            var days := DayOf(CivilOf(b)) - DayOf(CivilOf(mid));
            var time := TimeOfDayNanos(b, zoned) - TimeOfDayNanos(a, zoned);
            var fold := if days > 0 && time < 0 then 1 else if days < 0 && time > 0 then -1 else 0;
            && ValidDate(CivilOf(mid))
            && d.days == days - fold && TotalNanos(d) == time + fold * NANOS_PER_DAY
            && (!zoned ==> -NANOS_PER_DAY < time < NANOS_PER_DAY)
  {
    hide DaysFromCivil, AddMonthsClamped, MonthsBetween, ValidDate, EpochDay, DayNanos, LocalFieldsNanos, Comparable;
    var mid := AddMonthsClamped(a, d.months);
    MonthShiftsAgree(a, b);
    LeftoverBounds(a, b);
    FieldsCount(b);
    FieldsCount(mid);
    DayNanosRange(a.hour, a.minute, a.second, a.nanos);
    DayNanosRange(b.hour, b.minute, b.second, b.nanos);
  }

  lemma FieldsCount(t: DateTime)
    requires ValidDate(CivilOf(t))
    ensures DaysFromCivil(t.year, t.month, t.day) == DayOf(CivilOf(t))
  {
    DaysFromCivilCounts(t.year, t.month, t.day);
  }

  /** The days and the nanoseconds of a measured duration have opposite signs exactly when folding one day was
      not enough: more than one day is left after the months, and the times of day, as instants, are more than a
      day apart the other way. On the wall clock they never are. */
  lemma MixedSigns(a: DateTime, b: DateTime, d: Duration)
    requires Normal(a) && Normal(b) && IsBetween(a, b, d)
    ensures var mid := AddMonthsClamped(a, MonthsBetween(a, b));
            var days := DayOf(CivilOf(b)) - DayOf(CivilOf(mid));
            var time := TimeOfDayNanos(b, BothZoned(a, b)) - TimeOfDayNanos(a, BothZoned(a, b));
            (d.days > 0 && TotalNanos(d) < 0) || (d.days < 0 && TotalNanos(d) > 0)
            <==> (days > 1 && time < -NANOS_PER_DAY) || (days < -1 && time > NANOS_PER_DAY)
    ensures !BothZoned(a, b) ==> !(d.days > 0 && TotalNanos(d) < 0) && !(d.days < 0 && TotalNanos(d) > 0)
  {
    hide AddMonthsClamped, MonthsBetween, ValidDate, EpochDay, TimeOfDayNanos, IsBetween;
    MeasuredMonths(a, b, d);
    MeasuredParts(a, b, d);
  }

  /** The time part reaches a whole day exactly when the times of day, as instants, are a day apart in the
      direction of the days, or two days against it. On the wall clock it never does. */
  lemma RemainderReachesDay(a: DateTime, b: DateTime, d: Duration)
    requires Normal(a) && Normal(b) && IsBetween(a, b, d)
    ensures var mid := AddMonthsClamped(a, MonthsBetween(a, b));
            var days := DayOf(CivilOf(b)) - DayOf(CivilOf(mid));
            var time := TimeOfDayNanos(b, BothZoned(a, b)) - TimeOfDayNanos(a, BothZoned(a, b));
            TotalNanos(d) <= -NANOS_PER_DAY || TotalNanos(d) >= NANOS_PER_DAY
            <==> time >= (if days < 0 then 2 else 1) * NANOS_PER_DAY
                 || time <= -(if days > 0 then 2 else 1) * NANOS_PER_DAY
    ensures !BothZoned(a, b) ==> -NANOS_PER_DAY < TotalNanos(d) < NANOS_PER_DAY
  {
    hide AddMonthsClamped, MonthsBetween, ValidDate, EpochDay, TimeOfDayNanos, IsBetween;
    MeasuredMonths(a, b, d);
    MeasuredParts(a, b, d);
  }

  /** A backward interval stops at or after its end date: the truncated month count never overshoots, and the
      clamp does not pass a valid date. It stops on it exactly if the day of the month survives the clamp. */
  lemma BackwardMid(a: DateTime, b: DateTime)
    requires Normal(a) && Normal(b) && MonthsBetween(a, b) < 0
    ensures var mid, end := CivilOf(AddMonthsClamped(a, MonthsBetween(a, b))), EndDate(a, b);
            && ValidDate(mid) && ValidDate(end) && !DateLess(mid, end)
            && (mid == end <==> end.day == ClampedDay(a, end))
  {
    hide IsLeapYear, AddMonthsClamped, EndDate, DaysInMonth, MonthsBetween;
    var months, end := MonthsBetween(a, b), EndDate(a, b);
    EndDateValid(a, b);
    MidMonth(a, b);
    ClampedMonths(a, months);
    MonthShiftsAgree(a, b);
    var mid := AddMonthsClamped(a, months);
    BackwardMonths(a, b);
    MonthLength(a.year, a.month);
    assert AbsoluteMonths(mid.year, mid.month) >= AbsoluteMonths(end.year, end.month);
    MonthOrder(CivilOf(mid), end);
  }

  /** The month count of a backward interval is the smallest number of months back that does not pass the end date,
      comparing days of the month as they stand. */
  lemma BackwardMonths(a: DateTime, b: DateTime)
    requires Normal(a) && Normal(b) && MonthsBetween(a, b) < 0
    ensures var end, months := EndDate(a, b), MonthsBetween(a, b);
            var start := PackedMonthDay(a.year, a.month, a.day);
            start + 32 * months - 32 < PackedMonthDay(end.year, end.month, end.day) <= start + 32 * months
  {
    hide EndDate, IsLeapYear;
    EndDateValid(a, b);
  }

  /** The day of the month of `a`, cut to the month of a date. */
  function ClampedDay(a: DateTime, end: Civil): int {
    if a.day > DaysInMonth(end.year, end.month) then DaysInMonth(end.year, end.month) else a.day
  }

  lemma MonthOrder(c: Civil, e: Civil)
    requires 1 <= c.month <= 12 && 1 <= e.month <= 12
    requires AbsoluteMonths(c.year, c.month) >= AbsoluteMonths(e.year, e.month)
    ensures (c.year == e.year && c.month == e.month)
            || (AbsoluteMonths(c.year, c.month) > AbsoluteMonths(e.year, e.month) && !DateLess(c, e))
  {
  }

  /** When a backward interval measured on the wall clock mixes signs: there are whole months back, and something
      forward after them, exactly if the end date lies in an earlier month than the start, on the start's day of
      the month as far as that month has it, and the two times of day differ. */
  lemma BackwardMixes(a: DateTime, b: DateTime, d: Duration)
    requires Normal(a) && Normal(b) && !BothZoned(a, b) && IsBetween(a, b, d)
    ensures var end := EndDate(a, b);
            d.months < 0 && (d.days > 0 || TotalNanos(d) > 0)
            <==> AbsoluteMonths(end.year, end.month) < AbsoluteMonths(a.year, a.month)
                 && end.day == ClampedDay(a, end)
                 && TimeOfDayNanos(a, false) != TimeOfDayNanos(b, false)
    ensures d.months < 0 ==>
      (d.days > 0 || TotalNanos(d) > 0
       <==> CivilOf(AddMonthsClamped(a, d.months)) == EndDate(a, b)
            && TimeOfDayNanos(a, false) != TimeOfDayNanos(b, false))
  {
    hide AddMonthsClamped, ValidDate, EpochDay, EndDate, MonthsBetween, IsBetween, DaysInMonth, ClampedDay;
    MeasuredMonths(a, b, d);
    MeasuredParts(a, b, d);
    EndDateOf(a, b);
    if d.months < 0 {
      BackwardMid(a, b);
      EpochDayOrders(CivilOf(AddMonthsClamped(a, d.months)), EndDate(a, b));
      EpochDayOrders(CivilOf(b), EndDate(a, b));
    }
    EarlierMonth(a, b);
  }

  lemma MeasuredMonths(a: DateTime, b: DateTime, d: Duration)
    requires IsBetween(a, b, d)
    ensures d.months == MonthsBetween(a, b)
  {
  }

  /** The end date is the date of `b`, or the day before if `b` ends earlier in the day. */
  lemma EndDateOf(a: DateTime, b: DateTime)
    requires Normal(a) && Normal(b) && !BothZoned(a, b)
    ensures var earlier := TimeOfDayNanos(b, false) < TimeOfDayNanos(a, false);
            ValidDate(EndDate(a, b)) && DayOf(EndDate(a, b)) == DayOf(CivilOf(b)) - (if earlier then 1 else 0)
  {
    hide EpochDay, IsLeapYear;
    PreviousDayCounts(CivilOf(b));
    EndDateValid(a, b);
    DayNanosRange(b.hour, b.minute, b.second, b.nanos);
  }

  /** An end date on the clamped day of an earlier month is at least one whole month back, and months back lead to
      such a month only. */
  lemma EarlierMonth(a: DateTime, b: DateTime)
    requires Normal(a) && Normal(b)
    ensures var end := EndDate(a, b);
            && (AbsoluteMonths(end.year, end.month) < AbsoluteMonths(a.year, a.month) && end.day == ClampedDay(a, end)
                ==> MonthsBetween(a, b) < 0)
            && (MonthsBetween(a, b) < 0 ==> AbsoluteMonths(end.year, end.month) < AbsoluteMonths(a.year, a.month))
  {
    hide EndDate;
    EndDateValid(a, b);
  }

  /** From 23:00 at -12:00 to 01:00 nine days later at +14:00 is eight days less 24 hours. */
  lemma ZonedSignsDisagree(a: DateTime, b: DateTime, d: Duration)
    requires a == DateTime(DATETIME, 2024, 1, 1, 23, 0, 0, 0, -43200, "")
    requires b == DateTime(DATETIME, 2024, 1, 10, 1, 0, 0, 0, 50400, "")
    requires IsBetween(a, b, d)
    ensures d.days == 8 && TotalNanos(d) == -NANOS_PER_DAY
  {
    assert MonthsBetween(a, b) == 0;
  }

  /** A backward interval can mix months and time: from 31 March 10:00 to 29 February 12:00 is one month back
      and two hours forward. */
  lemma BackwardSignsDisagree(a: DateTime, b: DateTime, d: Duration)
    requires a == DateTime(LOCAL_DATETIME, 2024, 3, 31, 10, 0, 0, 0, 0, "")
    requires b == DateTime(LOCAL_DATETIME, 2024, 2, 29, 12, 0, 0, 0, 0, "")
    requires IsBetween(a, b, d)
    ensures d.months == -1 && d.days == 0 && TotalNanos(d) == 7200 * NANOS_PER_SECOND
  {
    hide IsBetween, MonthsBetween, CalendarDays;
    OneMonthBack(a, b);
    OneMonthBackTwoHoursOn(a, b, d);
  }

  lemma OneMonthBackTwoHoursOn(a: DateTime, b: DateTime, d: Duration)
    requires MonthsBetween(a, b) == -1 && CalendarDays(a, b) == 0 && IsBetween(a, b, d)
    requires a.kind == b.kind == LOCAL_DATETIME
    requires DayNanos(b.hour, b.minute, b.second, b.nanos) - DayNanos(a.hour, a.minute, a.second, a.nanos)
             == 7200 * NANOS_PER_SECOND
    ensures d.months == -1 && d.days == 0 && TotalNanos(d) == 7200 * NANOS_PER_SECOND
  {
    hide DaysFromCivil, MonthsBetween, AddMonthsClamped, DayNanos, CalendarDays;
    LeftoverBounds(a, b);
  }

  lemma OneMonthBack(a: DateTime, b: DateTime)
    requires a == DateTime(LOCAL_DATETIME, 2024, 3, 31, 10, 0, 0, 0, 0, "")
    requires b == DateTime(LOCAL_DATETIME, 2024, 2, 29, 12, 0, 0, 0, 0, "")
    ensures MonthsBetween(a, b) == -1 && CalendarDays(a, b) == 0
  {
    hide DaysFromCivil, IsLeapYear, AddMonthsClamped;
    assert EndDate(a, b) == CivilOf(b);
    ClampedMonths(a, -1);
    DivUnique(AbsoluteMonths(2024, 2), 12, 2024);
    LeapYearRule(2024);
  }
}
