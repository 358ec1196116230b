/** Parsing a printed temporal value gives it back, in the always-seconds form and in the short form. */
module TemporalRoundTrip {
  import opened CppArithmetic
  import opened Calendar
  import opened Temporal
  import opened TemporalArithmetic
  import opened Text
  import opened TemporalText

  // ---------- offsets ----------

  lemma Pad2LowDigits(v: nat)
    ensures Pad2(v) == Pad2(v % 100)
    ensures |Pad2(v)| == 2 && AllDigits(Pad2(v)) && Stoll(Pad2(v)) == Ok(v % 100)
    ensures Pad2(v) == "00" <==> v % 100 == 0
  {
    DivUnique(v % 100, 10, v / 10 - 10 * (v / 100));
    DivUnique(v / 10, 10, v / 100);
    assert Pad2(v) == Pad2(v % 100);
    Pad2Text(v % 100);
    StollPad2(v % 100);
    if Pad2(v) == "00" {
      assert DigitsFrom(0, "00") == DigitsFrom(0, "0") == DigitsFrom(0, "") == 0;
    }
  }

  /** Printed hours are cut to two digits, so an offset is read back modulo 100 hours. */
  function OffsetReadBack(offset: int): int {
    if offset < 0 then -(Abs(offset) % 360_000) else offset % 360_000
  }

  lemma OffsetParts(offset: int)
    ensures OffsetReadBack(offset)
            == (if offset < 0 then -1 else 1)
               * (Abs(offset) / 3600 % 100 * 3600 + Abs(offset) % 3600 / 60 % 100 * 60 + Abs(offset) % 60 % 100)
    ensures -360_000 < OffsetReadBack(offset) < 360_000
    ensures OffsetReadBack(offset) == offset <==> -360_000 < offset < 360_000
  {
    var abs := Abs(offset);
    var h := abs / 3600;
    DivUnique(abs, 360_000, h / 100);
    DivUnique(abs, 60, h * 60 + abs % 3600 / 60);
  }

  predicate TwoDigits(s: string) {
    |s| == 2 && AllDigits(s)
  }

  /** Reading sign, hours and minutes, without and with seconds. */
  lemma OffsetWithoutSeconds(sign: char, hh: string, mm: string, h: nat, m: nat)
    requires sign in {'+', '-'} && TwoDigits(hh) && TwoDigits(mm) && h < 100 && m < 100
    requires Stoll(hh) == Ok(h) && Stoll(mm) == Ok(m)
    requires hh == "00" <==> h == 0
    requires mm == "00" <==> m == 0
    ensures var text := [sign] + hh + ":" + mm;
            TzOffset(text) == Ok((if sign == '-' then -1 else 1) * (h * 3600 + m * 60))
  {
    hide Stoll;
    var text := [sign] + hh + ":" + mm;
    var rest := hh + ":" + mm;
    assert text[1..] == rest;
    assert rest[..2] == hh && rest[2] == ':' && rest[3..] == mm;
    assert Find(rest, ':', 0) == 2;
    assert Find(rest, ':', 3) == -1;
    assert Find(text, '/', 0) == -1;
    if text == "+00:00" || text == "-00:00" {
      assert rest == "00:00";
      assert hh == "00" && mm == "00";
    }
  }

  lemma OffsetWithSeconds(sign: char, hh: string, mm: string, ss: string, h: nat, m: nat, s: nat)
    requires sign in {'+', '-'} && TwoDigits(hh) && TwoDigits(mm) && TwoDigits(ss) && h < 100 && m < 100 && s < 100
    requires Stoll(hh) == Ok(h) && Stoll(mm) == Ok(m) && Stoll(ss) == Ok(s)
    ensures var text := [sign] + hh + ":" + mm + ":" + ss;
            TzOffset(text) == Ok((if sign == '-' then -1 else 1) * (h * 3600 + m * 60 + s))
  {
    hide Stoll;
    var text := [sign] + hh + ":" + mm + ":" + ss;
    var rest := hh + ":" + mm + ":" + ss;
    assert text[1..] == rest;
    assert rest[..2] == hh && rest[2] == ':' && rest[3..5] == mm && rest[5] == ':' && rest[6..] == ss;
    assert Find(rest, ':', 0) == 2;
    assert Find(rest, ':', 3) == 5;
    assert Find(text, '/', 0) == -1;
  }

  lemma OffsetRoundTrip(offset: int)
    ensures TzOffset(OffsetText(offset)) == Ok(OffsetReadBack(offset))
    ensures OffsetText(offset) != "" && OffsetText(offset)[0] in {'+', '-'}
    ensures '[' !in OffsetText(offset)
  {
    hide TzOffset, Stoll, Pad2, TDiv, TMod;
    var abs := Abs(offset);
    var sign := if offset < 0 then '-' else '+';
    var hh, mm, ss := Pad2(abs / 3600), Pad2(abs % 3600 / 60), Pad2(abs % 60);
    Pad2LowDigits(abs / 3600);
    Pad2LowDigits(abs % 3600 / 60);
    Pad2LowDigits(abs % 60);
    OffsetParts(offset);
    if abs % 60 == 0 {
      assert OffsetText(offset) == [sign] + hh + ":" + mm;
      OffsetWithoutSeconds(sign, hh, mm, abs / 3600 % 100, abs % 3600 / 60 % 100);
    } else {
      assert OffsetText(offset) == [sign] + hh + ":" + mm + ":" + ss;
      OffsetWithSeconds(sign, hh, mm, ss, abs / 3600 % 100, abs % 3600 / 60 % 100, abs % 60 % 100);
    }
  }

  // ---------- zones ----------

  /** What is read back of a zone name: the part before its first closing bracket. */
  function NameReadBack(name: string): string {
    var close := Find(name, ']', 0);
    if close == -1 then name else name[..close]
  }

  lemma NameReadBackWhole(name: string)
    ensures NameReadBack(name) == name <==> ']' !in name
  {
  }

  lemma ZoneRoundTrip(t: Time, offset: int32, name: string, allowNamed: bool)
    requires t.tzOffset == 0 && t.tzName == "" && (name != "" ==> allowNamed)
    ensures ReadZone(t, ZoneText(offset, name), allowNamed)
            == Ok(t.(tzOffset := OffsetReadBack(offset), tzName := NameReadBack(name)))
    ensures ZoneText(offset, name) != "" && ZoneText(offset, name)[0] in {'+', '-', 'Z'}
  {
    hide TzOffset;
    OffsetParts(offset);
    OffsetRoundTrip(offset);
    var text := ZoneText(offset, name);
    if name != "" {
      NamedZone(OffsetText(offset), name);
    } else if offset != 0 {
      assert Find(text, '[', 0) == -1;
      assert text != "Z";
    }
  }

  /** Splitting the printed zone at its brackets. */
  lemma NamedZone(offset: string, name: string)
    requires '[' !in offset
    ensures var zone := offset + "[" + name + "]";
            var bracket := Find(zone, '[', 0);
            && bracket == |offset|
            && zone[..bracket] == offset
            && Find(zone, ']', bracket) != -1
            && zone[bracket + 1..Find(zone, ']', bracket)] == NameReadBack(name)
  {
    hide Find;
    var zone := offset + "[" + name + "]";
    assert forall j | 0 <= j < |offset| :: zone[j] == offset[j];
    assert zone[|offset|] == '[';
    assert forall j | 0 <= j < |name| :: zone[|offset| + 1 + j] == name[j];
    assert zone[|offset| + 1 + |name|] == ']';
    var close := Find(zone, ']', |offset|);
    var inner := Find(name, ']', 0);
    if inner == -1 {
      assert close == |offset| + 1 + |name|;
    } else {
      assert name[inner] == zone[|offset| + 1 + inner];
      assert close == |offset| + 1 + inner;
    }
  }

  /** A name in brackets, with anything behind them, is taken off the offset before them, and refused where names are
      not allowed. An offset that cannot be read is an error first of all. */
  lemma NamedZoneRead(t: Time, offset: string, name: string, tail: string, allowNamed: bool)
    requires '[' !in offset && ']' !in name
    ensures ReadZone(t, offset + "[" + name + "]" + tail, allowNamed)
         == var o := TzOffset(offset);
            if o.Err? then Err(o.error)
            else if name != "" && !allowNamed then Err(Argument)
            else Ok(t.(tzOffset := o.value, tzName := name))
  {
    hide TzOffset;
    ZuluOffset();
    BracketsFound(offset, name, tail);
  }

  /** Without a closed pair of brackets all of the text is the offset. */
  lemma UnnamedZoneRead(t: Time, offset: string, tail: string, zone: string, allowNamed: bool)
    requires '[' !in offset && ']' !in tail && (zone == offset || zone == offset + "[" + tail)
    ensures ReadZone(t, zone, allowNamed)
         == var o := TzOffset(zone); if o.Err? then Err(o.error) else Ok(t.(tzOffset := o.value, tzName := ""))
  {
    hide TzOffset;
    ZuluOffset();
    NoClosingBracket(offset, tail);
    assert Find(offset, '[', 0) == -1;
  }

  lemma ZuluOffset()
    ensures TzOffset("Z") == Ok(0) && TzOffset("") == Ok(0)
  {
  }

  lemma BracketsFound(offset: string, name: string, tail: string)
    requires '[' !in offset && ']' !in name
    ensures var zone := offset + "[" + name + "]" + tail;
            var bracket, close := Find(zone, '[', 0), |offset| + 1 + |name|;
            bracket == |offset| && Find(zone, ']', bracket) == close
            && zone[..bracket] == offset && zone[bracket + 1..close] == name
  {
    hide Find;
    var zone := offset + "[" + name + "]" + tail;
    assert forall j | 0 <= j < |offset| :: zone[j] == offset[j];
    assert zone[|offset|] == '[';
    assert forall j | 0 <= j < |name| :: zone[|offset| + 1 + j] == name[j];
    assert zone[|offset| + 1 + |name|] == ']';
  }

  lemma NoClosingBracket(offset: string, tail: string)
    requires '[' !in offset && ']' !in tail
    ensures var zone := offset + "[" + tail;
            Find(zone, '[', 0) == |offset| && Find(zone, ']', |offset|) == -1
  {
    var zone := offset + "[" + tail;
    assert forall j | 0 <= j < |offset| :: zone[j] == offset[j];
    assert zone[|offset|] == '[';
    assert forall j | |offset| < j < |zone| :: zone[j] == tail[j - |offset| - 1];
  }

  // ---------- the time of day ----------

  /** Cutting trailing zeros and filling up with zeros again. */
  lemma FractionRoundTrip(nanos: int)
    requires 0 < nanos < NANOS_PER_SECOND
    ensures var digits := WithoutTrailingZeros(PadLeft(NatText(nanos), 9));
            && AllDigits(digits)
            && Stoll(FractionDigits(digits)) == Ok(nanos)
  {
    assert Power10(9) == NANOS_PER_SECOND;
    NatTextLength(nanos, 9);
    var padded := PadLeft(NatText(nanos), 9);
    assert |padded| == 9;
    DigitsOfPadded(nanos, 9);
    var digits := WithoutTrailingZeros(padded);
    assert FractionDigits(digits) == padded;
    StollReads(padded);
  }

  lemma TakeDrop(a: string, b: string)
    ensures Take(a + b, |a|) == a && Drop(a + b, |a|) == b
  {
    assert (a + b)[..|a|] == a;
    assert (a + b)[|a|..] == b;
  }

  /** What may follow a time of day: nothing or a zone. */
  predicate EndsClock(zone: string) {
    zone == "" || zone[0] in {'+', '-', 'Z'}
  }

  lemma ReadFractionBack(r: Reading, nanos: int, zone: string)
    requires 0 <= nanos < NANOS_PER_SECOND && EndsClock(zone) && r.nanos == 0
    requires r.rest == Subsecond(nanos) + zone
    ensures ReadFraction(r) == Ok(r.(nanos := nanos, rest := zone))
  {
    hide WithoutTrailingZeros, NatText, PadLeft, Stoll, FractionDigits, ReadFraction;
    if nanos != 0 {
      var digits := WithoutTrailingZeros(PadLeft(NatText(nanos), 9));
      FractionRoundTrip(nanos);
      assert r.rest == "." + (digits + zone);
      ReadDigits(r, digits, zone, nanos);
    } else {
      NoFraction(nanos, zone);
      ReadNoFraction(r, zone);
    }
  }

  lemma ReadNoFraction(r: Reading, zone: string)
    requires r.rest == zone && EndsClock(zone)
    ensures ReadFraction(r) == Ok(r)
  {
  }

  lemma ReadDigits(r: Reading, digits: string, zone: string, nanos: int)
    requires r.rest == "." + (digits + zone) && AllDigits(digits) && EndsClock(zone)
    requires 0 <= nanos < NANOS_PER_SECOND && Stoll(FractionDigits(digits)) == Ok(nanos)
    ensures ReadFraction(r) == Ok(r.(nanos := nanos, rest := zone))
  {
    hide Stoll, FractionDigits, DigitPrefix;
    assert r.rest[1..] == digits + zone;
    DigitRun(digits, zone);
    assert (digits + zone)[..|digits|] == digits;
    assert (digits + zone)[|digits|..] == zone;
  }

  /** The clock as the separated form reads it, up to the fraction. */
  lemma ReadClockBack(hour: int, minute: int, second: int, nanos: int, always: bool, zone: string)
    requires NormalTimeOfDay(hour, minute, second, nanos) && EndsClock(zone)
    ensures var s := ClockText(hour, minute, second, nanos, always) + zone;
            && DigitPrefix(s) == 2
            && StartsWith(s[2..], ':')
            && SeparatedClock(s, 2) == Ok(Reading(hour, minute, second, 0, Subsecond(nanos) + zone))
  {
    hide Stoll, Subsecond, DigitPrefix, Pad2, SeparatedClock;
    var hh, mm, ss := Pad2(hour), Pad2(minute), Pad2(second);
    Pad2Text(hour);
    Pad2Text(minute);
    Pad2Text(second);
    StollPad2(hour);
    StollPad2(minute);
    StollPad2(second);
    var s := ClockText(hour, minute, second, nanos, always) + zone;
    var printed := always || second != 0 || nanos != 0;
    var left := Subsecond(nanos) + zone;
    if printed {
      assert s == hh + (":" + mm + (":" + ss + left));
      DigitRun(hh, ":" + mm + (":" + ss + left));
      ReadPrinted(hh, mm, ss, left, hour, minute, second);
    } else {
      NoFraction(nanos, zone);
      assert s == hh + (":" + mm + left);
      DigitRun(hh, ":" + mm + left);
      ReadShort(hh, mm, left, hour, minute);
    }
  }

  lemma ReadShort(hh: string, mm: string, left: string, hour: int8, minute: int8)
    requires TwoDigits(hh) && TwoDigits(mm) && EndsClock(left)
    requires Stoll(hh) == Ok(hour) && Stoll(mm) == Ok(minute)
    ensures SeparatedClock(hh + (":" + mm + left), 2) == Ok(Reading(hour, minute, 0, 0, left))
  {
    hide Stoll;
    var s := hh + (":" + mm + left);
    assert s[..2] == hh && s[2] == ':';
    assert s[3..] == mm + left;
    TakeDrop(mm, left);
  }

  lemma ReadPrinted(hh: string, mm: string, ss: string, left: string, hour: int8, minute: int8, second: int8)
    requires TwoDigits(hh) && TwoDigits(mm) && TwoDigits(ss)
    requires Stoll(hh) == Ok(hour) && Stoll(mm) == Ok(minute) && Stoll(ss) == Ok(second)
    ensures SeparatedClock(hh + (":" + mm + (":" + ss + left)), 2) == Ok(Reading(hour, minute, second, 0, left))
  {
    hide Stoll;
    var s := hh + (":" + mm + (":" + ss + left));
    assert s[..2] == hh && s[2] == ':';
    assert s[3..] == mm + (":" + ss + left);
    TakeDrop(mm, ":" + ss + left);
    assert (":" + ss + left)[1..] == ss + left;
    TakeDrop(ss, left);
  }

  lemma NoFraction(nanos: int, zone: string)
    requires nanos == 0
    ensures Subsecond(nanos) + zone == zone
  {
  }

  /** A printed time of day is read back, and the zone is what is left. */
  lemma ParsedClock(hour: int, minute: int, second: int, nanos: int, always: bool, zone: string,
                    kind: TimeKind, allowNamed: bool)
    requires NormalTimeOfDay(hour, minute, second, nanos) && EndsClock(zone)
    ensures var t := Time(kind, hour, minute, second, nanos, 0, "");
            ParsedTime(ClockText(hour, minute, second, nanos, always) + zone, kind, allowNamed)
            == if kind == TIME && zone != "" then ReadZone(t, zone, allowNamed) else Ok(t)
  {
    hide SeparatedClock, CompactClock, ReadZone, ClockText, Subsecond, DigitPrefix, ReadFraction;
    ReadClockBack(hour, minute, second, nanos, always, zone);
    ReadFractionBack(Reading(hour, minute, second, 0, Subsecond(nanos) + zone), nanos, zone);
  }

  // ---------- dates ----------

  predicate YearChars(s: string) {
    forall i | 0 <= i < |s| :: IsDigit(s[i]) || s[i] in {'+', '-'}
  }

  lemma YearRoundTrip(year: int)
    requires -MAX_YEAR <= year <= MAX_YEAR
    ensures |FormatYear(year)| >= 4 && YearChars(FormatYear(year))
    ensures Stoll(FormatYear(year)) == Ok(year)
  {
    hide Stoll, DigitsFrom, NatText;
    var abs := Abs(year);
    DigitsOfPadded(abs, 4);
    DigitsOfNat(abs);
    if abs > 9999 {
      FourDigits(abs);
    }
    StollReads(if abs <= 9999 then PadLeft(NatText(abs), 4) else NatText(abs));
  }

  lemma FourDigits(n: nat)
    requires n >= 1000
    ensures |NatText(n)| >= 4
  {
    assert |NatText(n)| == |NatText(n / 10)| + 1;
    assert |NatText(n / 10)| == |NatText(n / 10 / 10)| + 1;
    assert |NatText(n / 10 / 10)| == |NatText(n / 10 / 10 / 10)| + 1;
  }

  lemma DashesFound(yy: string, mm: string, dd: string)
    requires |yy| >= 4 && TwoDigits(mm) && TwoDigits(dd)
    ensures var s := yy + "-" + mm + "-" + dd;
            && LastDashes(s) == (|yy|, |yy| + 3)
            && s[..|yy|] == yy && Take(s[|yy| + 1..], 2) == mm && s[|yy| + 4..] == dd
  {
    var s := yy + "-" + mm + "-" + dd;
    var n := |yy|;
    assert s[n] == '-' && s[n + 3] == '-';
    assert s[n + 1] == mm[0] && s[n + 2] == mm[1] && s[n + 4] == dd[0] && s[n + 5] == dd[1];
    assert RFind(s, '-', |s| - 1) == n + 3;
    assert RFind(s, '-', n + 2) == n;
    assert s[n + 1..] == mm + ("-" + dd);
    TakeDrop(mm, "-" + dd);
  }

  lemma DateRoundTrip(year: int, month: int, day: int)
    requires -MAX_YEAR <= year <= MAX_YEAR && 1 <= month <= 12 && 1 <= day <= 31
    ensures ParsedDate(DateText(year, month, day)) == Ok(Civil(year, month, day))
    ensures TimeSeparator(DateText(year, month, day), 0) == -1
  {
    hide Stoll, FormatYear, Pad2, LastDashes, WeekDate, FromOrdinal, YearMonth, Find, RFind, Take;
    var yy, mm, dd := FormatYear(year), Pad2(month), Pad2(day);
    YearRoundTrip(year);
    Pad2Text(month);
    Pad2Text(day);
    StollPad2(month);
    StollPad2(day);
    var s := DateText(year, month, day);
    DashesFound(yy, mm, dd);
    assert YearChars(s);
    NoSeparator(s, 0);
  }

  lemma {:induction false} NoSeparator(s: string, from: nat)
    requires forall i | from <= i < |s| :: s[i] !in {'T', 't', ' '}
    ensures TimeSeparator(s, from) == -1
    decreases |s| - from
  {
    if from < |s| {
      NoSeparator(s, from + 1);
    }
  }

  lemma {:induction false} SeparatorAfter(a: string, b: string, from: nat)
    requires from <= |a| && TimeSeparator(a, from) == -1
    requires b != "" && b[0] == 'T'
    ensures TimeSeparator(a + b, from) == |a|
    decreases |a| - from
  {
    if from < |a| {
      assert (a + b)[from] == a[from];
      SeparatorAfter(a, b, from + 1);
    }
  }

  // ---------- the round trips ----------

  /** Dates. */
  lemma PrintedDateParses(t: DateTime, always: bool)
    requires Normal(t) && t.kind == DATE && t.tzOffset == 0 && t.tzName == ""
    ensures ParsedDate(PrintDateTime(t, always)) == Ok(CivilOf(t))
    ensures ParsedDateTime(PrintDateTime(t, always), DATE) == Ok(t)
  {
    hide ParsedDate, DateText, TimeSeparator;
    DateRoundTrip(t.year, t.month, t.day);
    NonEmptyDate(t.year, t.month, t.day);
    MidnightFields(t);
  }

  lemma NonEmptyDate(year: int, month: int, day: int)
    ensures DateText(year, month, day) != ""
  {
  }

  lemma MidnightFields(t: DateTime)
    requires Normal(t) && t.kind == DATE
    ensures t.hour == t.minute == t.second == 0 && t.nanos == 0
  {
  }

  /** What comes back of a datetime: everything, except that hours of an offset beyond 99 and a zone name
      beyond its first closing bracket are lost. */
  lemma PrintedDateTimeReadBack(t: DateTime, always: bool)
    requires Normal(t) && t.kind != DATE
    ensures ParsedDateTime(PrintDateTime(t, always), t.kind)
            == Ok(if t.kind == DATETIME
                  then (OffsetParts(t.tzOffset);
                        t.(tzOffset := OffsetReadBack(t.tzOffset), tzName := NameReadBack(t.tzName)))
                  else t.(tzOffset := 0, tzName := ""))
  {
    hide ParsedDate, DateText, TimeSeparator, ParsedTime, ReadZone, ZoneText, ClockText, NameReadBack;
    OffsetParts(t.tzOffset);
    var date := DateText(t.year, t.month, t.day);
    DateRoundTrip(t.year, t.month, t.day);
    var zone := if t.kind == DATETIME then ZoneText(t.tzOffset, t.tzName) else "";
    var kind := if t.kind == DATETIME then TIME else LOCAL_TIME;
    var clock := ClockText(t.hour, t.minute, t.second, t.nanos, always) + zone;
    var time := Time(kind, t.hour, t.minute, t.second, t.nanos, 0, "");
    ZoneRoundTrip(time, t.tzOffset, t.tzName, true);
    ParsedClock(t.hour, t.minute, t.second, t.nanos, always, zone, kind, true);
    var s := PrintDateTime(t, always);
    assert s == date + ("T" + clock);
    SeparatorAfter(date, "T" + clock, 0);
    assert s[..|date|] == date && s[|date| + 1..] == clock;
  }

  /** Parsing a printed datetime gives it back exactly when the offset is under 100 hours and the zone name has
      no closing bracket (and a local datetime carries no zone). */
  lemma PrintedDateTimeParses(t: DateTime, always: bool)
    requires Normal(t) && t.kind != DATE
    ensures ParsedDateTime(PrintDateTime(t, always), t.kind) == Ok(t)
            <==> if t.kind == DATETIME then -360_000 < t.tzOffset < 360_000 && ']' !in t.tzName
                 else t.tzOffset == 0 && t.tzName == ""
  {
    hide ParsedDateTime, PrintDateTime;
    PrintedDateTimeReadBack(t, always);
    OffsetParts(t.tzOffset);
    NameReadBackWhole(t.tzName);
  }

  /** A zone name with a closing bracket is cut there, and an offset of a hundred hours loses the hundred. */
  lemma PrintedZonesAreCut(t: DateTime, u: DateTime, always: bool)
    requires t == DateTime(DATETIME, 2020, 1, 1, 0, 0, 0, 0, 0, "a]b")
    requires u == DateTime(DATETIME, 2020, 1, 1, 0, 0, 0, 0, 360_000, "")
    ensures Normal(t) && ParsedDateTime(PrintDateTime(t, always), DATETIME) == Ok(t.(tzName := "a"))
    ensures Normal(u) && ParsedDateTime(PrintDateTime(u, always), DATETIME) == Ok(u.(tzOffset := 0))
  {
    hide ParsedDateTime, PrintDateTime;
    PrintedDateTimeReadBack(t, always);
    PrintedDateTimeReadBack(u, always);
    OffsetParts(0);
    OffsetParts(360_000);
    assert t.tzName[1] == ']';
    assert Find(t.tzName, ']', 0) == 1 && t.tzName[..1] == "a";
  }

  /** Times of day: the same, but a zone name is rejected where names are not allowed. */
  lemma PrintedTimeParses(t: Time, always: bool, allowNamed: bool)
    requires NormalTime(t)
    ensures ParsedTime(PrintTime(t, always), t.kind, allowNamed) == Ok(t)
            <==> if t.kind == TIME
                 then -360_000 < t.tzOffset < 360_000 && ']' !in t.tzName && (t.tzName != "" ==> allowNamed)
                 else t.tzOffset == 0 && t.tzName == ""
  {
    hide ParsedTime, ReadZone, ZoneText, ClockText, NameReadBack;
    OffsetParts(t.tzOffset);
    NameReadBackWhole(t.tzName);
    var zone := if t.kind == TIME then ZoneText(t.tzOffset, t.tzName) else "";
    var blank := t.(tzOffset := 0, tzName := "");
    ZoneStarts(t.tzOffset, t.tzName);
    ParsedClock(t.hour, t.minute, t.second, t.nanos, always, zone, t.kind, allowNamed);
    if t.kind == LOCAL_TIME {
      assert PrintTime(t, always) == ClockText(t.hour, t.minute, t.second, t.nanos, always) + zone;
    } else if t.tzName == "" || allowNamed {
      ZoneRoundTrip(blank, t.tzOffset, t.tzName, allowNamed);
    } else {
      NameRejected(blank, t.tzOffset, t.tzName);
    }
  }

  lemma ZoneStarts(offset: int32, name: string)
    ensures ZoneText(offset, name) != "" && ZoneText(offset, name)[0] in {'+', '-', 'Z'}
  {
    OffsetRoundTrip(offset);
  }

  /** A named zone where none is allowed: an error, unless the name starts with the closing bracket and so is
      not seen. */
  lemma NameRejected(t: Time, offset: int32, name: string)
    requires t.tzOffset == 0 && t.tzName == "" && name != ""
    ensures var r := ReadZone(t, ZoneText(offset, name), false);
            r.Err? || r.value.tzName == ""
  {
    OffsetRoundTrip(offset);
    NamedZone(OffsetText(offset), name);
  }

  // ---------- week and ordinal text ----------

  function Year4(year: nat): string {
    PadLeft(NatText(year), 4)
  }

  /** YYYY-Www-D. */
  function WeekText(year: nat, week: nat, dow: nat): string
    requires dow < 10
  {
    Year4(year) + "-W" + Pad2(week) + "-" + [Digit(dow)]
  }

  /** YYYY-DDD. */
  function OrdinalText(year: nat, ordinal: nat): string {
    Year4(year) + "-" + PadLeft(NatText(ordinal), 3)
  }

  lemma Year4Text(year: nat)
    requires year <= 9999
    ensures |Year4(year)| == 4 && AllDigits(Year4(year))
    ensures Stoll(Year4(year)) == Ok(year) && Stoll(Year4(year) + "-") == Ok(year)
  {
    hide Stoll, DigitsFrom, NatText;
    DigitsOfPadded(year, 4);
    assert Power10(4) == 10000;
    NatTextLength(year, 4);
    StollReads(Year4(year));
    StollIgnoresTail(Year4(year), "-");
  }

  lemma StollIgnoresTail(digits: string, tail: string)
    requires AllDigits(digits) && digits != "" && DigitsFrom(0, digits) <= INT64_MAX
    requires tail != "" && !IsDigit(tail[0])
    ensures Stoll(digits + tail) == Ok(DigitsFrom(0, digits))
  {
    hide DigitsFrom;
    var s := digits + tail;
    assert SpacePrefix(s) == 0;
    assert s[0..] == s;
    DigitRun(digits, tail);
    assert s[..|digits|] == digits;
  }

  lemma OneDigit(d: nat)
    requires d < 10
    ensures IsDigit(Digit(d)) && Stoll([Digit(d)]) == Ok(d)
  {
    hide Stoll;
    var s := [Digit(d)];
    assert DigitsFrom(0, s) == DigitsFrom(d, "") == d;
    StollReads(s);
  }

  /** Week text takes the week branch, with its year, week and weekday. */
  lemma WeekTextRead(year: nat, week: nat, dow: nat)
    requires year <= 9999 && week < 100 && dow < 10
    ensures RawDate(WeekText(year, week, dow)) == FromWeek(Ok(year), Ok(week), Ok(dow))
  {
    hide Stoll, Year4, Pad2, FromWeek, FromOrdinal, YearMonth, DigitPrefix;
    var s := WeekText(year, week, dow);
    var yyyy, ww := Year4(year), Pad2(week);
    Year4Text(year);
    Pad2Text(week);
    StollPad2(week);
    OneDigit(dow);
    assert s[4] == '-' && s[5] == 'W' && s[8] == '-' && s[9] == Digit(dow);
    assert s[6] == ww[0] && s[7] == ww[1];
    assert RFind(s, '-', 9) == 8;
    assert RFind(s, '-', 7) == 4;
    assert LastDashes(s) == (-1, -1);
    assert Find(s, 'W', 0) == 5;
    assert s[..5] == yyyy + "-";
    var rest := s[6..];
    assert rest == ww + ("-" + [Digit(dow)]);
    DigitRun(ww, "-" + [Digit(dow)]);
    assert rest[..2] == ww && rest[3..] == [Digit(dow)];
  }

  /** Writing any day of an ISO year 0 to 9999 as its week date and parsing the text gives the day. */
  lemma PrintedWeekDateParses(z: int)
    requires 0 <= WeekYear(z) <= 9999
    ensures WeekNumber(z) >= 0 && 0 <= Weekday(z) < 10
    ensures ParsedDate(WeekText(WeekYear(z), WeekNumber(z), Weekday(z))) == Ok(DateOfDay(z))
  {
    hide WeekText, ParsedDate, RawDate, WeekDay, WeekNumber, DateOfDay;
    WeekDateRoundTrip(z);
    var isoYear, week, weekday := WeekYear(z), WeekNumber(z), Weekday(z);
    WeekTextRead(isoYear, week, weekday);
    DayOfWeekRead(WeekText(isoYear, week, weekday), isoYear, week, weekday, z, z - weekday + 4);
  }

  /** Text read as a weekday of a week parses to the day of that number. */
  lemma DayOfWeekRead(s: string, isoYear: nat, week: nat, weekday: nat, z: int, thursday: int)
    requires isoYear <= 9999 && week < 100 && weekday < 10
    requires RawDate(s) == FromWeek(Ok(isoYear), Ok(week), Ok(weekday)) && WeekDay(isoYear, week, weekday) == z
    requires DateOfDay(thursday).year == isoYear && -7 <= z - thursday <= 7
    ensures ParsedDate(s) == Ok(DateOfDay(z))
  {
    hide RawDate, WeekDay, DateOfDay;
    NearbyYear(z, thursday);
  }

  /** Dates with a whole year between them are far apart. */
  lemma YearBetween(earlier: Civil, later: Civil)
    requires ValidDate(earlier) && ValidDate(later) && later.year > earlier.year + 1
    ensures DayOf(later) - DayOf(earlier) > 300
  {
    hide YearStart, EpochDay, IsLeapYear, ValidDate, MarchDays;
    DateInsideYear(earlier);
    DateInsideYear(later);
    YearStartIncreasing(earlier.year + 2, later.year);
    YearStartsInMarchYear(earlier.year + 1);
    YearStartsInMarchYear(earlier.year + 2);
  }

  lemma NearbyYear(z: int, thursday: int)
    requires -7 <= z - thursday <= 7
    ensures -1 <= DateOfDay(z).year - DateOfDay(thursday).year <= 1
    ensures 1 <= DateOfDay(z).month <= 12 && 1 <= DateOfDay(z).day <= 31
  {
    hide YearStart, EpochDay, IsLeapYear, DateOfDay;
    var c, t := DateOfDay(z), DateOfDay(thursday);
    if c.year > t.year + 1 {
      YearBetween(t, c);
    } else if c.year < t.year - 1 {
      YearBetween(c, t);
    }
  }

  /** Ordinal text takes the ordinal branch. */
  lemma OrdinalTextRead(year: nat, ordinal: nat)
    requires year <= 9999 && ordinal < 1000
    ensures RawDate(OrdinalText(year, ordinal)) == FromOrdinal(Ok(year), Ok(ordinal))
  {
    hide Stoll, Year4, FromWeek, YearMonth, DigitsFrom, NatText, FromOrdinal, WeekDate;
    var s := OrdinalText(year, ordinal);
    var yyyy, ddd := Year4(year), PadLeft(NatText(ordinal), 3);
    Year4Text(year);
    DigitsOfPadded(ordinal, 3);
    assert Power10(3) == 1000;
    NatTextLength(ordinal, 3);
    StollReads(ddd);
    assert s[4] == '-' && s[..4] == yyyy && s[5..] == ddd;
    assert forall i | 0 <= i < |s| :: s[i] == '-' || IsDigit(s[i]);
  }

  /** Writing a day of a year 0 to 9999 as its ordinal date and parsing the text gives the day. */
  lemma PrintedOrdinalParses(year: nat, ordinal: nat)
    requires year <= 9999 && 1 <= ordinal <= DaysInYear(year)
    ensures ParsedDate(OrdinalText(year, ordinal)) == Ok(DateOfDay(YearStart(year) + ordinal - 1))
  {
    hide OrdinalText, RawDate, YearStart, IsLeapYear, DateOfDay, EpochDay;
    OrdinalTextRead(year, ordinal);
    var z := YearStart(year) + ordinal - 1;
    InYear(year, z);
    NearbyYear(z, z);
  }

  lemma InYear(year: int, z: int)
    requires YearStart(year) <= z < YearStart(year) + DaysInYear(year)
    ensures DateOfDay(z).year == year
  {
    hide YearStart, IsLeapYear;
    YearOfDay(z, year);
    YearStartsInMarchYear(year);
    YearStartsInMarchYear(year + 1);
  }
}
