/** The forms of dates and times that the printer never writes: without separators, or cut short. */
module CompactForms {
  import opened CppArithmetic
  import opened Calendar
  import opened Temporal
  import opened TemporalArithmetic
  import opened TemporalRoundTrip
  import opened TemporalText
  import opened Text

  // ---------- times of day ----------

  lemma FractionOrEnd(nanos: int, zone: string)
    requires EndsClock(zone)
    ensures var left := Subsecond(nanos) + zone; left == "" || left[0] in {'+', '-', 'Z', '.'}
  {
    hide WithoutTrailingZeros, NatText, PadLeft;
    if nanos == 0 {
      NoFraction(nanos, zone);
    }
  }

  /** The digits in front of what is left are all read, none more. */
  lemma ClockDigits(digits: string, left: string)
    requires AllDigits(digits) && (left == "" || left[0] in {'+', '-', 'Z', '.'})
    ensures DigitPrefix(digits + left) == |digits| && !StartsWith((digits + left)[|digits|..], ':')
  {
    DigitRun(digits, left);
    assert (digits + left)[|digits|..] == left;
  }

  lemma ReadCompact(hh: string, mm: string, left: string, hour: int8, minute: int8)
    requires TwoDigits(hh) && TwoDigits(mm) && Stoll(hh) == Ok(hour) && Stoll(mm) == Ok(minute)
    ensures var r := Reading(hour, minute, 0, 0, left);
            CompactClock(hh + (mm + left)) == if StartsWithDigit(left) then ReadSecond(r, left) else Ok(r)
  {
    hide Stoll;
    TakeDrop(hh, mm + left);
    TakeDrop(mm, left);
  }

  lemma ReadSecondBack(r: Reading, ss: string, left: string, second: int8)
    requires TwoDigits(ss) && Stoll(ss) == Ok(second)
    ensures ReadSecond(r, ss + left) == Ok(r.(second := second, rest := left))
  {
    hide Stoll;
    TakeDrop(ss, left);
  }

  /** HHMMSS, with a fraction and a zone. */
  lemma CompactClockParses(hour: int, minute: int, second: int, nanos: int, zone: string,
                           kind: TimeKind, allowNamed: bool)
    requires NormalTimeOfDay(hour, minute, second, nanos) && EndsClock(zone)
    ensures var t := Time(kind, hour, minute, second, nanos, 0, "");
            ParsedTime(Pad2(hour) + Pad2(minute) + Pad2(second) + Subsecond(nanos) + zone, kind, allowNamed)
            == if kind == TIME && zone != "" then ReadZone(t, zone, allowNamed) else Ok(t)
  {
    hide Stoll, Subsecond, DigitPrefix, Pad2, CompactClock, ReadFraction, ReadZone, ReadSecond;
    var hh, mm, ss, left := Pad2(hour), Pad2(minute), Pad2(second), Subsecond(nanos) + zone;
    Pad2Text(hour);
    Pad2Text(minute);
    Pad2Text(second);
    StollPad2(hour);
    StollPad2(minute);
    StollPad2(second);
    FractionOrEnd(nanos, zone);
    var s := Pad2(hour) + Pad2(minute) + Pad2(second) + Subsecond(nanos) + zone;
    assert s == (hh + mm + ss) + left == hh + (mm + (ss + left));
    ClockDigits(hh + mm + ss, left);
    ReadCompact(hh, mm, ss + left, hour, minute);
    ReadSecondBack(Reading(hour, minute, 0, 0, ss + left), ss, left, second);
    ReadFractionBack(Reading(hour, minute, second, 0, left), nanos, zone);
  }

  /** HHMM, with a fraction, which is one of a second, and a zone. */
  lemma CompactMinutesParse(hour: int, minute: int, nanos: int, zone: string, kind: TimeKind, allowNamed: bool)
    requires NormalTimeOfDay(hour, minute, 0, nanos) && EndsClock(zone)
    ensures var t := Time(kind, hour, minute, 0, nanos, 0, "");
            ParsedTime(Pad2(hour) + Pad2(minute) + Subsecond(nanos) + zone, kind, allowNamed)
            == if kind == TIME && zone != "" then ReadZone(t, zone, allowNamed) else Ok(t)
  {
    hide Stoll, Subsecond, DigitPrefix, Pad2, CompactClock, ReadFraction, ReadZone, ReadSecond;
    var hh, mm, left := Pad2(hour), Pad2(minute), Subsecond(nanos) + zone;
    Pad2Text(hour);
    Pad2Text(minute);
    StollPad2(hour);
    StollPad2(minute);
    FractionOrEnd(nanos, zone);
    var s := Pad2(hour) + Pad2(minute) + Subsecond(nanos) + zone;
    assert s == (hh + mm) + left == hh + (mm + left);
    ClockDigits(hh + mm, left);
    ReadCompact(hh, mm, left, hour, minute);
    ReadFractionBack(Reading(hour, minute, 0, 0, left), nanos, zone);
  }

  /** HH. */
  lemma HourParses(hour: int, nanos: int, zone: string, kind: TimeKind, allowNamed: bool)
    requires NormalTimeOfDay(hour, 0, 0, nanos) && EndsClock(zone)
    ensures var t := Time(kind, hour, 0, 0, nanos, 0, "");
            ParsedTime(Pad2(hour) + Subsecond(nanos) + zone, kind, allowNamed)
            == if kind == TIME && zone != "" then ReadZone(t, zone, allowNamed) else Ok(t)
  {
    hide Stoll, Subsecond, DigitPrefix, Pad2, CompactClock, ReadFraction, ReadZone, ReadSecond;
    var hh, left := Pad2(hour), Subsecond(nanos) + zone;
    Pad2Text(hour);
    StollPad2(hour);
    FractionOrEnd(nanos, zone);
    var s := Pad2(hour) + Subsecond(nanos) + zone;
    assert s == hh + left;
    ClockDigits(hh, left);
    assert s[..2] == hh && s[2..] == left;
    ReadFractionBack(Reading(hour, 0, 0, 0, left), nanos, zone);
  }

  // ---------- dates ----------

  /** Eight, seven, six or four digits take the branch of their length. */
  lemma DigitBranches(s: string)
    requires AllDigits(s)
    ensures |s| == 8 ==> RawDate(s) == ThreeNumbers(Stoll(s[..4]), Stoll(s[4..6]), Stoll(s[6..8]))
    ensures |s| == 7 ==> RawDate(s) == FromOrdinal(Stoll(s[..4]), Stoll(s[4..]))
    ensures |s| == 6 ==> RawDate(s) == YearMonth(Stoll(s[..4]), Stoll(s[4..6]))
    ensures |s| == 4 ==> RawDate(s) == YearMonth(Stoll(s), Ok(1))
  {
    hide Stoll, WeekDate, FromOrdinal, YearMonth, ThreeNumbers;
  }

  lemma MonthBranch(s: string)
    requires |s| == 7 && s[4] == '-' && forall i | 0 <= i < |s| :: i == 4 || IsDigit(s[i])
    ensures RawDate(s) == YearMonth(Stoll(s[..4]), Stoll(s[5..7]))
  {
    hide Stoll, WeekDate, FromOrdinal, YearMonth, ThreeNumbers;
  }

  /** YYYYMMDD. */
  lemma CompactDateParses(year: nat, month: nat, day: nat)
    requires year <= 9999 && month < 100 && day < 100
    ensures ParsedDate(Year4(year) + Pad2(month) + Pad2(day)) == Ok(Civil(year, month, day))
  {
    hide Stoll, Year4, Pad2, RawDate;
    var s := Year4(year) + Pad2(month) + Pad2(day);
    Year4Text(year);
    Pad2Text(month);
    Pad2Text(day);
    StollPad2(month);
    StollPad2(day);
    assert s[..4] == Year4(year) && s[4..6] == Pad2(month) && s[6..8] == Pad2(day);
    assert AllDigits(s);
    DigitBranches(s);
  }

  /** YYYYMM, the first day of the month. */
  lemma CompactMonthParses(year: nat, month: nat)
    requires year <= 9999 && month < 100
    ensures ParsedDate(Year4(year) + Pad2(month)) == Ok(Civil(year, month, 1))
  {
    hide Stoll, Year4, Pad2, RawDate;
    Year4Text(year);
    Pad2Text(month);
    StollPad2(month);
    var s := Year4(year) + Pad2(month);
    assert s[..4] == Year4(year) && s[4..6] == Pad2(month);
    assert AllDigits(s);
    DigitBranches(s);
  }

  /** YYYY-MM. */
  lemma MonthParses(year: nat, month: nat)
    requires year <= 9999 && month < 100
    ensures ParsedDate(Year4(year) + "-" + Pad2(month)) == Ok(Civil(year, month, 1))
  {
    hide Stoll, Year4, Pad2, RawDate;
    Year4Text(year);
    Pad2Text(month);
    StollPad2(month);
    var s := Year4(year) + "-" + Pad2(month);
    assert s[..4] == Year4(year) && s[5..7] == Pad2(month);
    assert forall i | 0 <= i < |s| :: i == 4 || IsDigit(s[i]);
    MonthBranch(s);
  }

  /** YYYY, the first day of the year. */
  lemma YearParses(year: nat)
    requires year <= 9999
    ensures ParsedDate(Year4(year)) == Ok(Civil(year, 1, 1))
  {
    hide Stoll, Year4, RawDate;
    Year4Text(year);
    DigitBranches(Year4(year));
  }

  /** YYYYDDD. */
  lemma CompactOrdinalParses(year: nat, ordinal: nat)
    requires year <= 9999 && 1 <= ordinal <= DaysInYear(year)
    ensures ParsedDate(Year4(year) + PadLeft(NatText(ordinal), 3)) == Ok(DateOfDay(YearStart(year) + ordinal - 1))
  {
    hide RawDate, YearStart, IsLeapYear, DateOfDay, EpochDay;
    CompactOrdinalRead(year, ordinal);
    var z := YearStart(year) + ordinal - 1;
    InYear(year, z);
    NearbyYear(z, z);
  }

  lemma CompactOrdinalRead(year: nat, ordinal: nat)
    requires year <= 9999 && ordinal < 1000
    ensures RawDate(Year4(year) + PadLeft(NatText(ordinal), 3)) == FromOrdinal(Ok(year), Ok(ordinal))
  {
    hide Stoll, Year4, DigitsFrom, NatText, FromOrdinal, RawDate;
    var ddd := PadLeft(NatText(ordinal), 3);
    var s := Year4(year) + ddd;
    Year4Text(year);
    DigitsOfPadded(ordinal, 3);
    assert Power10(3) == 1000;
    NatTextLength(ordinal, 3);
    StollReads(ddd);
    assert s[..4] == Year4(year) && s[4..] == ddd;
    assert AllDigits(s);
    DigitBranches(s);
  }

  /** A short text with a W takes the week branch. */
  lemma WeekBranch(s: string, wpos: nat)
    requires |s| < 10 && Find(s, 'W', 0) == wpos
    ensures RawDate(s) == WeekDate(s, wpos)
  {
    hide WeekDate;
  }

  /** YYYYWwwD. */
  lemma CompactWeekRead(year: nat, week: nat, dow: nat)
    requires year <= 9999 && week < 100 && dow < 10
    ensures RawDate(Year4(year) + "W" + Pad2(week) + [Digit(dow)]) == FromWeek(Ok(year), Ok(week), Ok(dow))
  {
    hide Stoll, Year4, Pad2, FromWeek, RawDate, DigitPrefix;
    Year4Text(year);
    Pad2Text(week);
    StollPad2(week);
    OneDigit(dow);
    var s := Year4(year) + "W" + Pad2(week) + [Digit(dow)];
    assert s[4] == 'W' && Find(s, 'W', 0) == 4 && s[..4] == Year4(year);
    WeekBranch(s, 4);
    var rest := s[5..];
    assert rest == Pad2(week) + [Digit(dow)];
    assert rest[..2] == Pad2(week) && rest[2..] == [Digit(dow)];
  }

  /** YYYYWww. */
  lemma CompactCutWeekRead(year: nat, week: nat)
    requires year <= 9999 && week < 100
    ensures RawDate(Year4(year) + "W" + Pad2(week)) == FromWeek(Ok(year), Ok(week), Ok(1))
  {
    hide Stoll, Year4, Pad2, FromWeek, RawDate, DigitPrefix;
    Year4Text(year);
    Pad2Text(week);
    StollPad2(week);
    var s := Year4(year) + "W" + Pad2(week);
    assert s[4] == 'W' && Find(s, 'W', 0) == 4 && s[..4] == Year4(year);
    WeekBranch(s, 4);
    assert s[5..] == Pad2(week) && Pad2(week)[..2] == Pad2(week);
  }

  /** YYYY-Www. */
  lemma CutWeekRead(year: nat, week: nat)
    requires year <= 9999 && week < 100
    ensures RawDate(Year4(year) + "-W" + Pad2(week)) == FromWeek(Ok(year), Ok(week), Ok(1))
  {
    hide Stoll, Year4, Pad2, FromWeek, RawDate, DigitPrefix;
    Year4Text(year);
    Pad2Text(week);
    StollPad2(week);
    var s := Year4(year) + "-W" + Pad2(week);
    assert s[4] == '-' && s[5] == 'W' && Find(s, 'W', 0) == 5 && s[..5] == Year4(year) + "-";
    WeekBranch(s, 5);
    assert s[6..] == Pad2(week);
    DigitRun(Pad2(week), "");
    assert Pad2(week) + "" == Pad2(week);
  }

  /** Every day of an ISO year 0 to 9999 is what its compact week date parses to; without the weekday it is the Monday
      of that week. */
  lemma CompactWeekDateParses(z: int)
    requires 0 <= WeekYear(z) <= 9999
    ensures WeekNumber(z) >= 0 && 0 <= Weekday(z) < 10
    ensures var year, week := Year4(WeekYear(z)), Pad2(WeekNumber(z));
            && ParsedDate(year + "W" + week + [Digit(Weekday(z))]) == Ok(DateOfDay(z))
            && ParsedDate(year + "W" + week) == Ok(DateOfDay(z - Weekday(z) + 1))
            && ParsedDate(year + "-W" + week) == Ok(DateOfDay(z - Weekday(z) + 1))
  {
    hide RawDate, ParsedDate, FromWeek, WeekDay, WeekNumber, DateOfDay, Year4, Pad2, Digit;
    WeekDateRoundTrip(z);
    var isoYear, week, weekday := WeekYear(z), WeekNumber(z), Weekday(z);
    var thursday := z - weekday + 4;
    var year, ww := Year4(isoYear), Pad2(week);
    CompactWeekRead(isoYear, week, weekday);
    DayOfWeekRead(year + "W" + ww + [Digit(weekday)], isoYear, week, weekday, z, thursday);
    MondayOfWeek(isoYear, week, weekday);
    CompactCutWeekRead(isoYear, week);
    DayOfWeekRead(year + "W" + ww, isoYear, week, 1, thursday - 3, thursday);
    CutWeekRead(isoYear, week);
    DayOfWeekRead(year + "-W" + ww, isoYear, week, 1, thursday - 3, thursday);
  }

  lemma MondayOfWeek(isoYear: int, week: int, weekday: int)
    ensures WeekDay(isoYear, week, 1) == WeekDay(isoYear, week, weekday) - weekday + 1
  {
    hide EpochDay;
  }

  // ---------- datetimes ----------

  /** A datetime without separators but the T. */
  function CompactText(t: DateTime): string
    requires t.year >= 0
  {
    Year4(t.year) + Pad2(t.month) + Pad2(t.day) + "T"
    + (Pad2(t.hour) + Pad2(t.minute) + Pad2(t.second) + Subsecond(t.nanos)
       + (if t.kind == DATETIME then ZoneText(t.tzOffset, t.tzName) else ""))
  }

  lemma CompactDateHasNoSeparator(year: nat, month: nat, day: nat)
    requires year <= 9999 && month < 100 && day < 100
    ensures TimeSeparator(Year4(year) + Pad2(month) + Pad2(day), 0) == -1
  {
    hide Year4, Pad2, TimeSeparator;
    Year4Text(year);
    Pad2Text(month);
    Pad2Text(day);
    NoSeparator(Year4(year) + Pad2(month) + Pad2(day), 0);
  }

  /** A date, the separator, and a time of day. */
  lemma DateThenClock(date: string, clock: string, c: Civil, v: Time, kind: DateTimeKind)
    requires TimeSeparator(date, 0) == -1 && ParsedDate(date) == Ok(c)
    requires 0 <= c.year <= 9999 && 0 <= c.month < 100 && 0 <= c.day < 100
    requires ParsedTime(clock, if kind == DATETIME then TIME else LOCAL_TIME, true) == Ok(v)
    ensures ParsedDateTime(date + ("T" + clock), kind)
         == Ok(DateTime(kind, c.year, c.month, c.day, v.hour, v.minute, v.second, v.nanos,
                        if kind == DATETIME then v.tzOffset else 0, if kind == DATETIME then v.tzName else ""))
  {
    hide ParsedDate, TimeSeparator, ParsedTime;
    var s := date + ("T" + clock);
    SeparatorAfter(date, "T" + clock, 0);
    assert s[..|date|] == date && s[|date| + 1..] == clock;
  }

  /** The compact text of a datetime is read as its printed text is. */
  lemma CompactMeansPrinted(t: DateTime, always: bool)
    requires Normal(t) && t.kind != DATE && 0 <= t.year <= 9999
    ensures ParsedDateTime(CompactText(t), t.kind) == ParsedDateTime(PrintDateTime(t, always), t.kind)
  {
    hide ParsedDate, ParsedDateTime, TimeSeparator, ParsedTime, ReadZone, ZoneText, PrintDateTime, Pad2, Year4,
         Subsecond, NameReadBack;
    PrintedDateTimeReadBack(t, always);
    OffsetParts(t.tzOffset);
    var date := Year4(t.year) + Pad2(t.month) + Pad2(t.day);
    var zone := if t.kind == DATETIME then ZoneText(t.tzOffset, t.tzName) else "";
    var kind := if t.kind == DATETIME then TIME else LOCAL_TIME;
    var clock := Pad2(t.hour) + Pad2(t.minute) + Pad2(t.second) + Subsecond(t.nanos) + zone;
    var time := Time(kind, t.hour, t.minute, t.second, t.nanos, 0, "");
    ZoneRoundTrip(time, t.tzOffset, t.tzName, true);
    CompactClockParses(t.hour, t.minute, t.second, t.nanos, zone, kind, true);
    CompactDateParses(t.year, t.month, t.day);
    CompactDateHasNoSeparator(t.year, t.month, t.day);
    var read := if t.kind == DATETIME
                then time.(tzOffset := OffsetReadBack(t.tzOffset), tzName := NameReadBack(t.tzName)) else time;
    DateThenClock(date, clock, Civil(t.year, t.month, t.day), read, t.kind);
    assert CompactText(t) == date + ("T" + clock);
  }
}
