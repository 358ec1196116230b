/** Day numbers of the proleptic Gregorian calendar (temporal_value.cpp, "Calendar helpers").
    `YearStart` and `EpochDay` are the reference: 1970-01-01 is day 0 and every later or earlier day is
    reached by counting whole years, whole months and days. The era arithmetic of the code is proved
    equal to that count for every integer year. */
module Calendar {
  import opened CppArithmetic

  datatype Civil = Civil(year: int, month: int, day: int)

  predicate IsLeapYear(year: int) {
    (TMod(year, 4) == 0 && TMod(year, 100) != 0) || TMod(year, 400) == 0
  }

  function DaysInMonth(year: int, month: int): int {
    if month < 1 || month > 12 then 0
    else if month == 2 && IsLeapYear(year) then 29
    else [31, 28, 31, 30, 31, 30, 31, 31, 30, 31, 30, 31][month - 1]
  }

  predicate ValidDate(c: Civil) {
    1 <= c.month <= 12 && 1 <= c.day <= DaysInMonth(c.year, c.month)
  }

  // ---------- the reference count ----------

  function DaysInYear(year: int): int {
    if IsLeapYear(year) then 366 else 365
  }

  /** The day number of 1 January of `year`, by counting years from 1970. */
  ghost function YearStart(year: int): int
    decreases if year >= 1970 then year - 1970 else 1970 - year
  {
    if year == 1970 then 0
    else if year > 1970 then YearStart(year - 1) + DaysInYear(year - 1)
    else YearStart(year + 1) - DaysInYear(year)
  }

  /** The days of `year` before the first of `month`, by counting months. */
  ghost function DaysBeforeMonth(year: int, month: int): int
    requires 1 <= month <= 12
    decreases month
  {
    if month == 1 then 0 else DaysBeforeMonth(year, month - 1) + DaysInMonth(year, month - 1)
  }

  /** The reference day number; `day` may lie outside its month. */
  ghost function EpochDay(year: int, month: int, day: int): int
    requires 1 <= month <= 12
  {
    YearStart(year) + DaysBeforeMonth(year, month) + day - 1
  }

  // ---------- the code ----------

  /** The 400-year era of a March year and the year inside it, by the truncating division and the two
      corrections of the code. */
  function EraOf(y: int): (e: (int, int)) {
    var era :=
      if y >= 0 then TDiv(y, 400)
      else
        var num := y - 399;
        TDiv(num, 400) - (if num < 0 && TMod(num, 400) != 0 then 1 else 0);
    var yoe := y - era * 400;
    if yoe >= 400 then (era + 1, yoe - 400)
    else if yoe < 0 then (era - 1, yoe + 400)
    else (era, yoe)
  }

  /** Counts the days from 1970-01-01, in 400-year eras of years that begin in March. */
  function DaysFromCivil(year: int, m: int, d: int): int {
    var y := year - (if m <= 2 then 1 else 0);
    var (era, yoe) := EraOf(y);
    var doy := TDiv(153 * (m + (if m > 2 then -3 else 9)) + 2, 5) + d - 1;
    var doe := yoe * 365 + TDiv(yoe, 4) - TDiv(yoe, 100) + doy;
    era * 146097 + doe - 719468
  }

  /** The double correction for negative years amounts to floor division by 400. */
  lemma EraIsFloor(y: int)
    ensures EraOf(y) == (y / 400, y % 400)
  {
    if y < 0 {
      FloorFromTruncation(y - 399, 400);
    }
  }

  lemma LeapYearRule(year: int)
    ensures IsLeapYear(year) <==> (year % 4 == 0 && year % 100 != 0) || year % 400 == 0
  {
    TruncatedRemainderZero(year, 4);
    TruncatedRemainderZero(year, 100);
    TruncatedRemainderZero(year, 400);
  }

  /** The leap days before 1 January of year y, counted from the start of year 1. */
  ghost function LeapDays(y: int): int {
    (y - 1) / 4 - (y - 1) / 100 + (y - 1) / 400
  }

  lemma LeapDaysStep(y: int)
    ensures LeapDays(y + 1) - LeapDays(y) == if IsLeapYear(y) then 1 else 0
  {
    LeapYearRule(y);
    FloorStep(y, 4);
    FloorStep(y, 100);
    FloorStep(y, 400);
    MultiplesNest(y);
  }

  lemma MultiplesNest(y: int)
    ensures y % 400 == 0 ==> y % 100 == 0
    ensures y % 100 == 0 ==> y % 4 == 0
  {
    if y % 400 == 0 {
      DivUnique(y, 100, 4 * (y / 400));
    }
    if y % 100 == 0 {
      DivUnique(y, 4, 25 * (y / 100));
    }
  }

  lemma {:induction false} YearStartClosedForm(year: int)
    ensures YearStart(year) == 365 * (year - 1970) + LeapDays(year) - LeapDays(1970)
    decreases if year >= 1970 then year - 1970 else 1970 - year
  {
    if year > 1970 {
      YearStartClosedForm(year - 1);
      LeapDaysStep(year - 1);
    } else if year < 1970 {
      YearStartClosedForm(year + 1);
      LeapDaysStep(year);
    }
  }

  /** The days before 1 March of year `y`, counted from 1 March of year 0. */
  ghost function MarchDays(y: int): int {
    365 * y + y / 4 - y / 100 + y / 400
  }

  lemma YearStartsInMarchYear(year: int)
    ensures YearStart(year) == MarchDays(year - 1) + 306 - 719468
    ensures MarchDays(year) - MarchDays(year - 1) == DaysInYear(year)
  {
    hide IsLeapYear;
    YearStartClosedForm(year);
    LeapDaysStep(year);
  }

  lemma {:induction false} DaysBeforeMonthClosedForm(year: int, month: int)
    requires 1 <= month <= 12
    ensures DaysBeforeMonth(year, month) ==
            if month <= 2 then (153 * (month + 9) + 2) / 5 - 306
            else (153 * (month - 3) + 2) / 5 + DaysInYear(year) - 306
    decreases month
  {
    hide IsLeapYear;
    if month > 3 {
      hide DaysInYear;
      DaysBeforeMonthClosedForm(year, month - 1);
      MonthFormulaStep(year, month);
    } else if month > 1 {
      DaysBeforeMonthClosedForm(year, month - 1);
    }
  }

  lemma MonthFormulaStep(year: int, month: int)
    requires 4 <= month <= 12
    ensures (153 * (month - 3) + 2) / 5 == (153 * (month - 4) + 2) / 5 + DaysInMonth(year, month - 1)
  {
  }

  /** 400 Gregorian years have 146097 days, so the count splits into an era and the year inside it. */
  lemma EraSplit(era: int, yoe: int)
    requires 0 <= yoe < 400
    ensures MarchDays(400 * era + yoe) == era * 146097 + 365 * yoe + yoe / 4 - yoe / 100
  {
    var y := 400 * era + yoe;
    DivUnique(y, 4, 100 * era + yoe / 4);
    DivUnique(y, 100, 4 * era + yoe / 100);
    DivUnique(y, 400, era);
  }

  /** The era arithmetic counts days, for every integer year. */
  lemma DaysFromCivilCounts(year: int, month: int, day: int)
    requires 1 <= month <= 12
    ensures DaysFromCivil(year, month, day) == EpochDay(year, month, day)
  {
    hide YearStart, DaysBeforeMonth, EraOf, IsLeapYear;
    var y := year - (if month <= 2 then 1 else 0);
    YearStartsInMarchYear(year);
    DaysBeforeMonthClosedForm(year, month);
    EraIsFloor(y);
    EraSplit(y / 400, y % 400);
  }

  // ---------- dates and day numbers are in order-preserving correspondence ----------

  ghost predicate DateLess(a: Civil, b: Civil) {
    a.year < b.year
    || (a.year == b.year && (a.month < b.month || (a.month == b.month && a.day < b.day)))
  }

  ghost function DayOf(c: Civil): int
    requires 1 <= c.month <= 12
  {
    EpochDay(c.year, c.month, c.day)
  }

  lemma DateInsideYear(c: Civil)
    requires ValidDate(c)
    ensures YearStart(c.year) <= DayOf(c) < YearStart(c.year + 1)
    ensures YearStart(c.year + 1) == YearStart(c.year) + DaysInYear(c.year)
  {
    YearStartsInMarchYear(c.year);
    YearStartsInMarchYear(c.year + 1);
    DaysBeforeMonthClosedForm(c.year, c.month);
  }

  lemma {:induction false} YearStartIncreasing(y1: int, y2: int)
    requires y1 <= y2
    ensures YearStart(y1) <= YearStart(y2)
    decreases y2 - y1
  {
    if y1 < y2 {
      YearStartIncreasing(y1, y2 - 1);
      YearStartsInMarchYear(y2 - 1);
      YearStartsInMarchYear(y2);
    }
  }

  lemma {:induction false} MonthsFollow(year: int, m1: int, m2: int)
    requires 1 <= m1 < m2 <= 12
    ensures DaysBeforeMonth(year, m1) + DaysInMonth(year, m1) <= DaysBeforeMonth(year, m2)
    decreases m2
  {
    hide IsLeapYear;
    if m1 + 1 < m2 {
      MonthsFollow(year, m1, m2 - 1);
    }
  }

  /** Later valid dates have larger day numbers. */
  lemma EpochDayIncreasing(a: Civil, b: Civil)
    requires ValidDate(a) && ValidDate(b) && DateLess(a, b)
    ensures DayOf(a) < DayOf(b)
  {
    hide YearStart, DaysBeforeMonth, DaysInMonth;
    if a.year < b.year {
      DateInsideYear(a);
      DateInsideYear(b);
      YearStartIncreasing(a.year + 1, b.year);
    } else if a.month < b.month {
      MonthsFollow(a.year, a.month, b.month);
    }
  }

  /** So the day number both orders and identifies valid dates. */
  lemma EpochDayOrders(a: Civil, b: Civil)
    requires ValidDate(a) && ValidDate(b)
    ensures DayOf(a) < DayOf(b) <==> DateLess(a, b)
    ensures DayOf(a) == DayOf(b) <==> a == b
  {
    if DateLess(a, b) {
      EpochDayIncreasing(a, b);
    } else if DateLess(b, a) {
      EpochDayIncreasing(b, a);
    }
  }

  function NextDay(c: Civil): Civil {
    if c.day < DaysInMonth(c.year, c.month) then c.(day := c.day + 1)
    else if c.month < 12 then Civil(c.year, c.month + 1, 1)
    else Civil(c.year + 1, 1, 1)
  }

  function PreviousDay(c: Civil): Civil {
    if c.day > 1 then c.(day := c.day - 1)
    else if c.month > 1 then Civil(c.year, c.month - 1, DaysInMonth(c.year, c.month - 1))
    else Civil(c.year - 1, 12, 31)
  }

  lemma NextDayCounts(c: Civil)
    requires ValidDate(c)
    ensures ValidDate(NextDay(c)) && DayOf(NextDay(c)) == DayOf(c) + 1
  {
    hide IsLeapYear, YearStart;
    if c.month == 12 {
      hide DaysBeforeMonth;
      DecemberEnds(c.year);
      DateInsideYear(c);
      assert DaysBeforeMonth(c.year + 1, 1) == 0 by { JanuaryStarts(c.year + 1); }
    }
  }

  lemma JanuaryStarts(year: int)
    ensures DaysBeforeMonth(year, 1) == 0
  {
  }

  lemma PreviousDayCounts(c: Civil)
    requires ValidDate(c)
    ensures ValidDate(PreviousDay(c)) && DayOf(PreviousDay(c)) == DayOf(c) - 1
  {
    hide EpochDay, IsLeapYear;
    NextOfPrevious(c);
    NextDayCounts(PreviousDay(c));
  }

  lemma NextOfPrevious(c: Civil)
    requires ValidDate(c)
    ensures ValidDate(PreviousDay(c)) && NextDay(PreviousDay(c)) == c
  {
    hide IsLeapYear;
  }

  /** The date of a day number, by walking day by day from 1970-01-01: the reference for `CivilFromDays`. */
  ghost function DateOfDay(z: int): (c: Civil)
    ensures ValidDate(c) && DayOf(c) == z
    decreases if z >= 0 then z else -z
  {
    if z == 0 then Civil(1970, 1, 1)
    else if z > 0 then
      NextDayCounts(DateOfDay(z - 1));
      NextDay(DateOfDay(z - 1))
    else
      PreviousDayCounts(DateOfDay(z + 1));
      PreviousDay(DateOfDay(z + 1))
  }

  /** A day of an era as century, four-year cycle, year and day: every century but the last and every
      cycle but the last of a century has its regular length. */
  lemma EraDecomposition(doe: int) returns (c: int, q: int, n: int, k: int)
    requires 0 <= doe < 146097
    ensures 0 <= c < 4 && 0 <= q < 25 && 0 <= n < 4 && 0 <= k <= 365
    ensures doe == 36524 * c + 1461 * q + 365 * n + k
    ensures k == 365 ==> n == 3 && (q == 24 ==> c == 3)
  {
    c := if doe == 146096 then 3 else doe / 36524;
    var inCentury := doe - 36524 * c;
    q := inCentury / 1461;
    var inCycle := inCentury - 1461 * q;
    n := if inCycle == 1460 then 3 else inCycle / 365;
    k := inCycle - 365 * n;
  }

  /** The divisions by 1460, 36524 and 146096 cancel to a division by 365. */
  lemma QuotientsCancel(doe: int, c: int, q: int, n: int, k: int)
    requires 0 <= c < 4 && 0 <= q < 25 && 0 <= n < 4 && 0 <= k <= 365
    requires doe == 36524 * c + 1461 * q + 365 * n + k
    requires k == 365 ==> n == 3 && (q == 24 ==> c == 3)
    ensures (doe - doe / 1460 + doe / 36524 - doe / 146096) / 365 == 100 * c + 4 * q + n
  {
    var skipped := if 24 * c + q + 365 * n + k >= 1460 then 1 else 0;
    DivUnique(doe, 1460, 25 * c + q + skipped);
    if doe == 146096 {
      DivUnique(doe, 36524, 4);
      DivUnique(doe, 146096, 1);
    } else {
      DivUnique(doe, 36524, c);
      DivUnique(doe, 146096, 0);
    }
    DivUnique(doe - doe / 1460 + doe / 36524 - doe / 146096, 365, 100 * c + 4 * q + n);
  }

  ghost predicate IsYearOfEra(doe: int, yoe: int) {
    var doy := doe - (365 * yoe + yoe / 4 - yoe / 100);
    0 <= yoe < 400 && 0 <= doy <= 365 && (doy == 365 ==> IsLeapYear(yoe + 1))
  }

  /** The year of an era from the day of the era. */
  lemma YearOfEra(doe: int)
    requires 0 <= doe < 146097
    ensures IsYearOfEra(doe, (doe - doe / 1460 + doe / 36524 - doe / 146096) / 365)
  {
    var c, q, n, k := EraDecomposition(doe);
    QuotientsCancel(doe, c, q, n, k);
    var yoe := 100 * c + 4 * q + n;
    DivUnique(yoe, 4, 25 * c + q);
    DivUnique(yoe, 100, c);
    if k == 365 {
      DivUnique(yoe + 1, 4, 25 * c + q + 1);
      if q < 24 {
        DivUnique(yoe + 1, 100, c);
      }
      LeapYearRule(yoe + 1);
    }
  }

  /** The month that contains a day of a March year, and the day inside it. */
  lemma MonthOfMarchYear(doy: int)
    requires 0 <= doy <= 365
    ensures var mp := (5 * doy + 2) / 153;
            var d := doy - (153 * mp + 2) / 5 + 1;
            var m := mp + (if mp < 10 then 3 else -9);
            && 0 <= mp <= 11 && 1 <= m <= 12 && 1 <= d
            && d <= (if m == 2 then (if doy == 365 then 29 else 28) else DaysInMonth(2000, m))
            && (m == 2 && d == 29 ==> doy == 365)
  {
  }

  /** The month and day of a day in a March year. */
  lemma MarchDate(era: int, yoe: int, doy: int, c: Civil)
    requires 0 <= yoe < 400 && 0 <= doy <= 365
    requires doy == 365 ==> IsLeapYear(yoe + 1)
    requires var mp := (5 * doy + 2) / 153;
             && c.day == doy - (153 * mp + 2) / 5 + 1
             && c.month == mp + (if mp < 10 then 3 else -9)
             && c.year == yoe + era * 400 + (if c.month <= 2 then 1 else 0)
    ensures ValidDate(c)
    ensures DayOf(c) == era * 146097 + 365 * yoe + yoe / 4 - yoe / 100 + doy - 719468
  {
    hide IsLeapYear, YearStart, DaysBeforeMonth, MarchDays;
    MonthOfMarchYear(doy);
    LeapYearPeriodic(yoe + 1, era);
    YearStartsInMarchYear(c.year);
    DayOfMarchYear(doy, c);
    EraSplit(era, yoe);
  }

  lemma DayOfMarchYear(doy: int, c: Civil)
    requires 0 <= doy <= 365 && 1 <= c.month <= 12
    requires var mp := (5 * doy + 2) / 153;
             c.day == doy - (153 * mp + 2) / 5 + 1 && c.month == mp + (if mp < 10 then 3 else -9)
    ensures DaysBeforeMonth(c.year, c.month) + c.day - 1
         == doy - 306 + (if c.month <= 2 then 0 else DaysInYear(c.year))
  {
    hide IsLeapYear, DaysBeforeMonth, DaysInYear;
    DaysBeforeMonthClosedForm(c.year, c.month);
  }

  lemma LeapYearPeriodic(y: int, era: int)
    ensures IsLeapYear(y + era * 400) == IsLeapYear(y)
  {
    LeapYearRule(y);
    LeapYearRule(y + era * 400);
    DivUnique(y + era * 400, 4, y / 4 + 100 * era);
    DivUnique(y + era * 400, 100, y / 100 + 4 * era);
    DivUnique(y + era * 400, 400, y / 400 + era);
  }

  lemma EraOfDay(z: int)
    ensures var era := TDiv(if z >= 0 then z else z - 146096, 146097);
            0 <= z - era * 146097 < 146097 && (if z >= 0 then 0 <= era <= z else z <= era < 0)
  {
    TruncatedDivision(if z >= 0 then z else z - 146096, 146097);
  }

  lemma TruncatedYearOfEra(doe: int, yoe: int)
    requires 0 <= doe < 146097
    requires yoe == TDiv(doe - TDiv(doe, 1460) + TDiv(doe, 36524) - TDiv(doe, 146096), 365)
    ensures IsYearOfEra(doe, yoe)
  {
    hide IsYearOfEra;
    YearOfEra(doe);
  }

  /** The steps of civilFromDays: era, day of era, year of era, day of the March year, its month. */
  predicate ErasSteps(days: int, era: int, doe: int, yoe: int, doy: int, mp: int, c: Civil) {
    var z := days + 719468;
    && era == TDiv(if z >= 0 then z else z - 146096, 146097)
    && doe == z - era * 146097
    && yoe == TDiv(doe - TDiv(doe, 1460) + TDiv(doe, 36524) - TDiv(doe, 146096), 365)
    && doy == doe - (365 * yoe + TDiv(yoe, 4) - TDiv(yoe, 100))
    && mp == TDiv(5 * doy + 2, 153)
    && c.day == doy - TDiv(153 * mp + 2, 5) + 1
    && c.month == mp + (if mp < 10 then 3 else -9)
    && c.year == yoe + era * 400 + (if c.month <= 2 then 1 else 0)
  }

  /** The date of a day number by eras, in unbounded integers. */
  function CivilByEras(days: int): Civil {
    var z := days + 719468;
    var era := TDiv(if z >= 0 then z else z - 146096, 146097);
    var doe := z - era * 146097;
    var yoe := TDiv(doe - TDiv(doe, 1460) + TDiv(doe, 36524) - TDiv(doe, 146096), 365);
    var doy := doe - (365 * yoe + TDiv(yoe, 4) - TDiv(yoe, 100));
    var mp := TDiv(5 * doy + 2, 153);
    var m := mp + (if mp < 10 then 3 else -9);
    Civil(yoe + era * 400 + (if m <= 2 then 1 else 0), m, doy - TDiv(153 * mp + 2, 5) + 1)
  }

  lemma StepsRange(days: int, era: int, doe: int, yoe: int, doy: int, mp: int, c: Civil)
    requires ErasSteps(days, era, doe, yoe, doy, mp, c)
    ensures 0 <= doe < 146097 && 0 <= yoe < 400 && 0 <= doy <= 365 && 0 <= mp <= 11
    ensures IsYearOfEra(doe, yoe)
  {
    EraOfDay(days + 719468);
    hide TDiv;
    TruncatedYearOfEra(doe, yoe);
    YearDayRange(doe, yoe, doy);
    MarchMonthRange(doy);
  }

  lemma YearDayRange(doe: int, yoe: int, doy: int)
    requires IsYearOfEra(doe, yoe) && doy == doe - (365 * yoe + TDiv(yoe, 4) - TDiv(yoe, 100))
    ensures 0 <= doy <= 365 && (doy == 365 ==> IsLeapYear(yoe + 1))
  {
  }

  lemma MarchMonthRange(doy: int)
    requires 0 <= doy <= 365
    ensures 0 <= TDiv(5 * doy + 2, 153) <= 11
  {
  }

  lemma StepsDate(days: int, era: int, doe: int, yoe: int, doy: int, mp: int, c: Civil)
    requires ErasSteps(days, era, doe, yoe, doy, mp, c)
    ensures ValidDate(c) && DayOf(c) == days
  {
    StepsRange(days, era, doe, yoe, doy, mp, c);
    YearDayRange(doe, yoe, doy);
    hide ValidDate, EpochDay, IsLeapYear, IsYearOfEra;
    MarchDate(era, yoe, doy, c);
  }

  /** The era arithmetic finds the date of every integer day number. */
  lemma CivilByErasIsDate(days: int)
    ensures CivilByEras(days) == DateOfDay(days)
  {
    hide DateOfDay, EpochDay, IsLeapYear, TDiv, ValidDate;
    var z := days + 719468;
    var era := TDiv(if z >= 0 then z else z - 146096, 146097);
    var doe := z - era * 146097;
    var yoe := TDiv(doe - TDiv(doe, 1460) + TDiv(doe, 36524) - TDiv(doe, 146096), 365);
    var doy := doe - (365 * yoe + TDiv(yoe, 4) - TDiv(yoe, 100));
    StepsDate(days, era, doe, yoe, doy, TDiv(5 * doy + 2, 153), CivilByEras(days));
    EpochDayOrders(CivilByEras(days), DateOfDay(days));
  }

  /** The two conversions are inverse to each other: on every valid date of any year, and on every day number. */
  lemma ConversionsInverse(c: Civil, days: int)
    ensures ValidDate(c) ==> CivilByEras(DaysFromCivil(c.year, c.month, c.day)) == c
    ensures ValidDate(CivilByEras(days))
    ensures var e := CivilByEras(days); DaysFromCivil(e.year, e.month, e.day) == days
  {
    hide DateOfDay, EpochDay, IsLeapYear, CivilByEras, DaysFromCivil;
    if ValidDate(c) {
      DaysFromCivilCounts(c.year, c.month, c.day);
      CivilByErasIsDate(DayOf(c));
      EpochDayOrders(c, DateOfDay(DayOf(c)));
    }
    CivilByErasIsDate(days);
    var e := CivilByEras(days);
    DaysFromCivilCounts(e.year, e.month, e.day);
  }

  // ---------- in 64 bits ----------

  /** Day numbers and years bound each other. */
  lemma DayBounds(year: int, month: int, day: int)
    requires 1 <= month <= 12
    ensures year >= 0 ==> 365 * year - 720000 + day <= EpochDay(year, month, day) <= 366 * year + day
    ensures year < 0 ==> 366 * year - 720000 + day <= EpochDay(year, month, day) <= 365 * year + day
  {
    YearStartClosedForm(year);
    DaysBeforeMonthClosedForm(year, month);
  }

  /** Arguments that daysFromCivil takes without overflow. */
  predicate CountFits(year: int, m: int, d: int) {
    && -25_000_000_000_000_000 <= year <= 25_000_000_000_000_000
    && -1000 <= m <= 1000
    && -50_000_000_000_000_000 <= d <= 50_000_000_000_000_000
  }

  /** The first half of daysFromCivil: the year inside its era. */
  method SplitYear(y: int64) returns (era: int64, yoe: int64)
    requires y - 399 >= INT64_MIN
    ensures era == y / 400 && yoe == y % 400
  {
    EraIsFloor(y);
    if y >= 0 {
      era := TDiv(y, 400);
    } else {
      var num: int64 := y - 399;
      era := TDiv(num, 400);
      if num < 0 && TMod(num, 400) != 0 {
        era := era - 1;
      }
    }
    yoe := y - era * 400;
    var correction := if yoe >= 400 then 1 else if yoe < 0 then -1 else 0;
    yoe := yoe - correction * 400;
    era := era + correction;
  }

  /** daysFromCivil, with its 64-bit locals. */
  method CountDays(year: int64, m: int64, d: int64) returns (days: int64)
    requires CountFits(year, m, d)
    ensures days == DaysFromCivil(year, m, d)
  {
    hide EraOf;
    var y: int64 := year - (if m <= 2 then 1 else 0);
    var era, yoe := SplitYear(y);
    EraIsFloor(y);
    var doy: int64 := TDiv(153 * (m + (if m > 2 then -3 else 9)) + 2, 5) + d - 1;
    var doe: int64 := yoe * 365 + TDiv(yoe, 4) - TDiv(yoe, 100) + doy;
    days := era * 146097 + doe - 719468;
  }

  /** civilFromDays: the out-parameters receive the date of the day number. Only the shift of the origin can
      overflow. */
  method CivilFromDays(days: int64) returns (y: int64, m: int64, d: int64)
    requires days + 719468 <= INT64_MAX
    ensures Civil(y, m, d) == DateOfDay(days)
  {
    hide DateOfDay, TDiv, IsYearOfEra;
    var z: int64 := days;
    z := z + 719468;
    EraOfDay(z);
    var era: int64 := TDiv(if z >= 0 then z else z - 146096, 146097);
    var doe: int64 := z - era * 146097;
    ghost var yoe' := TDiv(doe - TDiv(doe, 1460) + TDiv(doe, 36524) - TDiv(doe, 146096), 365);
    ghost var doy' := doe - (365 * yoe' + TDiv(yoe', 4) - TDiv(yoe', 100));
    StepsRange(days, era, doe, yoe', doy', TDiv(5 * doy' + 2, 153), CivilByEras(days));
    var yoe: int64 := TDiv(doe - TDiv(doe, 1460) + TDiv(doe, 36524) - TDiv(doe, 146096), 365);
    var doy: int64 := doe - (365 * yoe + TDiv(yoe, 4) - TDiv(yoe, 100));
    var mp: int64 := TDiv(5 * doy + 2, 153);
    MonthStart(mp);
    d := doy - TDiv(153 * mp + 2, 5) + 1;
    m := mp + (if mp < 10 then 3 else -9);
    y := yoe + era * 400;
    y := y + (if m <= 2 then 1 else 0);
    assert Civil(y, m, d) == CivilByEras(days);
    CivilByErasIsDate(days);
  }

  lemma MonthStart(mp: int)
    requires 0 <= mp <= 11
    ensures 0 <= TDiv(153 * mp + 2, 5) <= 337
  {
  }

  lemma DaysFromCivilBounds(year: int, month: int, day: int)
    requires -2_200_000_000 <= year <= 2_200_000_000 && -128 <= month <= 127 && -128 <= day <= 127
    ensures -1_000_000_000_000 <= DaysFromCivil(year, month, day) <= 1_000_000_000_000
  {
    EraIsFloor(year - (if month <= 2 then 1 else 0));
  }

  // ---------- months ----------

  /** `t / 12` rounded down, as the code writes it for both signs. */
  function YearOfMonths(total: int): int {
    if total >= 0 then TDiv(total, 12) else -TDiv(-total + 11, 12)
  }

  lemma YearOfMonthsIsFloor(total: int)
    ensures YearOfMonths(total) == total / 12
    ensures 0 <= total - YearOfMonths(total) * 12 < 12
  {
    if total < 0 {
      DivUnique(total, 12, -((-total + 11) / 12));
    }
  }

  function AbsoluteMonths(year: int, month: int): int {
    year * 12 + (month - 1)
  }

  function PackedMonthDay(year: int, month: int, day: int): int {
    AbsoluteMonths(year, month) * 32 + day
  }

  /** The day number of a date whose month may lie outside 1..12 (it rolls over into the year) and whose
      day may lie outside its month (it counts from the month's first day). */
  ghost function RolledDay(year: int, month: int, day: int): int {
    var total := AbsoluteMonths(year, month);
    EpochDay(total / 12, total % 12 + 1, day)
  }

  lemma RolledDayInRange(year: int, month: int, day: int)
    requires 1 <= month <= 12
    ensures RolledDay(year, month, day) == EpochDay(year, month, day)
  {
    DivUnique(AbsoluteMonths(year, month), 12, year);
  }

  /** Fields that normalizeDate takes without overflow. */
  predicate NormalizeFits(year: int, month: int, day: int) {
    && -10_000_000_000_000_000 <= year <= 10_000_000_000_000_000
    && -10_000_000_000_000_000 <= month <= 10_000_000_000_000_000
    && -4_000_000_000_000_000_000 <= day <= 4_000_000_000_000_000_000
  }

  /** normalizeDate: brings a date with any month and any day back to the calendar, in constant time. */
  method NormalizeDate(year0: int64, month0: int64, day0: int64) returns (year: int64, month: int64, day: int64)
    requires NormalizeFits(year0, month0, day0)
    ensures Civil(year, month, day) == DateOfDay(RolledDay(year0, month0, day0))
  {
    hide DateOfDay, EpochDay, DaysFromCivil;
    year, month, day := year0, month0, day0;
    YearOfMonthsIsFloor(month0 - 1);
    if month < 1 || month > 12 {
      var zeroBased: int64 := month - 1;
      var yearShift: int64 := YearOfMonths(zeroBased);
      year := year + yearShift;
      month := zeroBased - yearShift * 12 + 1;
    }
    DivUnique(AbsoluteMonths(year0, month0), 12, year);
    DaysFromCivilCounts(year, month, 1);
    DayBounds(year, month, 1);
    var first := CountDays(year, month, 1);
    var epochDay: int64 := first + (day - 1);
    assert epochDay == RolledDay(year0, month0, day0) by {
      EpochDayShift(year, month, day);
    }
    year, month, day := CivilFromDays(epochDay);
  }

  lemma EpochDayShift(year: int, month: int, day: int)
    requires 1 <= month <= 12
    ensures EpochDay(year, month, day) == EpochDay(year, month, 1) + (day - 1)
  {
  }

  // ---------- ordinal dates and week dates ----------

  /** ordinalToDate: an ordinal of the year gives its date; a larger one overflows to month 13, keeping
      the surplus, and one below 1 stays in January. */
  method OrdinalToDate(year: int64, ordinal0: int64) returns (month: int64, day: int64)
    ensures 1 <= ordinal0 <= DaysInYear(year) ==>
              ValidDate(Civil(year, month, day)) && EpochDay(year, month, day) == YearStart(year) + ordinal0 - 1
    ensures ordinal0 > DaysInYear(year) ==> month == 13 && day == ordinal0 - DaysInYear(year)
    ensures ordinal0 < 1 ==> month == 1 && day == ordinal0
  {
    hide YearStart, DaysInMonth, DaysInYear;
    var ordinal: int64, m: int64 := ordinal0, 1;
    DecemberEnds(year);
    while m <= 12 && ordinal > DaysInMonth(year, m)
      invariant 1 <= m <= 13
      invariant m <= 12 ==> ordinal + DaysBeforeMonth(year, m) == ordinal0
      invariant m == 13 ==> ordinal + DaysInYear(year) == ordinal0
      invariant m > 1 ==> 1 <= ordinal < ordinal0
    {
      MonthLength(year, m);
      ordinal := ordinal - DaysInMonth(year, m);
      m := m + 1;
    }
    month, day := m, ordinal;
    if month <= 12 {
      MonthLength(year, m);
      DateInsideYear(Civil(year, month, DaysInMonth(year, month)));
    }
  }

  lemma MonthLength(year: int, month: int)
    requires 1 <= month <= 12
    ensures 28 <= DaysInMonth(year, month) <= 31
  {
  }

  lemma DecemberEnds(year: int)
    ensures DaysBeforeMonth(year, 12) + DaysInMonth(year, 12) == DaysInYear(year)
  {
    DaysBeforeMonthClosedForm(year, 12);
  }

  /** The ISO weekday of a day number, 1 = Monday to 7 = Sunday; 1970-01-01 was a Thursday. */
  function Weekday(z: int): int {
    (z + 3) % 7 + 1
  }

  /** The Monday of the week that contains 4 January. */
  ghost function WeekOneMonday(isoYear: int): int {
    var jan4 := EpochDay(isoYear, 1, 4);
    jan4 - (Weekday(jan4) - 1)
  }

  ghost function WeekDay(isoYear: int, week: int, weekday: int): int {
    WeekOneMonday(isoYear) + (week - 1) * 7 + (weekday - 1)
  }

  /** isoWeekToDate: the date of a week date, for every year, week and weekday number. The parser calls it with
      whatever numbers it has read, so this one is in unbounded integers. */
  method IsoWeekToDate(isoYear: int, isoWeek: int, isoDow: int) returns (year: int, month: int, day: int)
    ensures Civil(year, month, day) == DateOfDay(WeekDay(isoYear, isoWeek, isoDow))
  {
    hide DateOfDay, CivilByEras, DaysFromCivil, EpochDay;
    DaysFromCivilCounts(isoYear, 1, 4);
    var jan4 := DaysFromCivil(isoYear, 1, 4);
    var jan4Dow := TMod(TMod(jan4, 7) + 10, 7) + 1;
    assert jan4Dow == Weekday(jan4) by {
      TruncatedDivision(jan4, 7);
      var shifted := TMod(jan4, 7) + 10;
      DivUnique(jan4 + 3, 7, TDiv(jan4, 7) + shifted / 7 - 1);
    }
    var week1Monday := jan4 - (jan4Dow - 1);
    var target := week1Monday + (isoWeek - 1) * 7 + (isoDow - 1);
    CivilByErasIsDate(target);
    var date := CivilByEras(target);
    year, month, day := date.year, date.month, date.day;
  }

  lemma WeekOneFacts(isoYear: int)
    ensures WeekOneMonday(isoYear) <= EpochDay(isoYear, 1, 4) < WeekOneMonday(isoYear) + 7
    ensures YearStart(isoYear) <= WeekOneMonday(isoYear) + 3 < YearStart(isoYear) + 7
    ensures (WeekOneMonday(isoYear) + 3) % 7 == 0
  {
    var jan4 := EpochDay(isoYear, 1, 4);
    DivUnique(WeekOneMonday(isoYear) + 3, 7, (jan4 + 3) / 7);
  }

  /** A week date falls on the weekday it names, and different week dates of a year are different days. */
  lemma WeekDateWeekday(isoYear: int, week: int, weekday: int)
    requires 1 <= weekday <= 7
    ensures Weekday(WeekDay(isoYear, week, weekday)) == weekday
    ensures forall w, d | 1 <= d <= 7 && WeekDay(isoYear, w, d) == WeekDay(isoYear, week, weekday) ::
              w == week && d == weekday
  {
    WeekOneFacts(isoYear);
    var monday := WeekOneMonday(isoYear) + 3;
    DivUnique(WeekDay(isoYear, week, weekday) + 3, 7, monday / 7 + week - 1);
  }

  /** A week belongs to the ISO year in which its Thursday falls. */
  lemma WeekThursdayYear(isoYear: int, week: int)
    ensures DateOfDay(WeekDay(isoYear, week, 4)).year == isoYear
            <==> 1 <= week && WeekDay(isoYear, week, 4) < YearStart(isoYear + 1)
  {
    WeekOneFacts(isoYear);
    YearOfDay(WeekDay(isoYear, week, 4), isoYear);
  }

  lemma YearOfDay(z: int, year: int)
    ensures DateOfDay(z).year == year <==> YearStart(year) <= z < YearStart(year + 1)
  {
    var c := DateOfDay(z);
    DateInsideYear(c);
    if c.year < year {
      YearStartIncreasing(c.year + 1, year);
    } else if c.year > year {
      YearStartIncreasing(year + 1, c.year);
    }
  }

  /** The ISO year of a day is the year of its week's Thursday. */
  ghost function WeekYear(z: int): int {
    DateOfDay(z - Weekday(z) + 4).year
  }

  /** The ISO week of a day is its Thursday's number among the year's Thursdays. */
  ghost function WeekNumber(z: int): int {
    (z - Weekday(z) + 4 - YearStart(WeekYear(z))) / 7 + 1
  }

  /** Every day is the date of its own week date. */
  lemma WeekDateRoundTrip(z: int)
    ensures WeekDay(WeekYear(z), WeekNumber(z), Weekday(z)) == z && 1 <= WeekNumber(z) <= 53 && 1 <= Weekday(z) <= 7
  {
    hide DateOfDay, YearStart, EpochDay, IsLeapYear;
    var thursday := z - Weekday(z) + 4;
    var isoYear := WeekYear(z);
    YearOfDay(thursday, isoYear);
    DateInsideYear(DateOfDay(thursday));
    WeekOneFacts(isoYear);
    var first := WeekOneMonday(isoYear) + 3;
    DivUnique(thursday, 7, (z + 3) / 7);
    assert first == 7 * (first / 7);
    DivUnique(thursday - YearStart(isoYear), 7, thursday / 7 - first / 7);
  }
}
