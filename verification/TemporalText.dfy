/** Printing temporal values and parsing them back (temporal_value.cpp, "String formatting" and
    "Text to Temporal"). */
module TemporalText {
  import opened CppArithmetic
  import opened Calendar
  import opened Temporal
  import opened TemporalArithmetic
  import opened Text

  // ---------- the printer ----------

  /** Four digits for years within 9999 of 0, a sign before longer and before negative ones. */
  function FormatYear(year: int): string {
    var abs := Abs(year);
    var digits := if abs <= 9999 then PadLeft(NatText(abs), 4) else NatText(abs);
    if year < 0 then "-" + digits else if abs <= 9999 then digits else "+" + digits
  }

  /** The fraction of a second, without trailing zeros. */
  function Subsecond(nanos: int): string {
    if nanos == 0 then "" else "." + WithoutTrailingZeros(PadLeft(NatText(Abs(nanos)), 9))
  }

  function WithoutTrailingZeros(s: string): (t: string)
    ensures t <= s
    ensures forall i | |t| <= i < |s| :: s[i] == '0'
    ensures t != "" ==> t[|t| - 1] != '0'
  {
    if s != "" && s[|s| - 1] == '0' then WithoutTrailingZeros(s[..|s| - 1]) else s
  }

  /** fmtSubsecond, with its loop over the trailing zeros. */
  method FmtSubsecond(nanos: int32) returns (r: string)
    ensures r == Subsecond(nanos)
  {
    if nanos == 0 {
      return "";
    }
    var n: int := if nanos < 0 then -(nanos as int) else nanos;
    var s := PadLeft(NatText(n), 9);
    while s != "" && s[|s| - 1] == '0'
      invariant WithoutTrailingZeros(s) == WithoutTrailingZeros(PadLeft(NatText(n), 9))
      decreases |s|
    {
      s := s[..|s| - 1];
    }
    r := "." + s;
  }

  function OffsetText(offset: int): string {
    var abs := Abs(offset);
    (if offset >= 0 then "+" else "-")
    + Pad2(abs / 3600) + ":" + Pad2(abs % 3600 / 60)
    + (if abs % 60 != 0 then ":" + Pad2(abs % 60) else "")
  }

  function ZoneText(offset: int, name: string): string {
    if name != "" then OffsetText(offset) + "[" + name + "]"
    else if offset == 0 then "Z"
    else OffsetText(offset)
  }

  /** The time of day; the short form leaves out zero seconds. */
  function ClockText(hour: int, minute: int, second: int, nanos: int, alwaysSeconds: bool): string {
    Pad2(hour) + ":" + Pad2(minute)
    + (if alwaysSeconds || second != 0 || nanos != 0 then ":" + Pad2(second) + Subsecond(nanos) else "")
  }

  function DateText(year: int, month: int, day: int): string {
    FormatYear(year) + "-" + Pad2(month) + "-" + Pad2(day)
  }

  function PrintDateTime(t: DateTime, alwaysSeconds: bool): string {
    var date := DateText(t.year, t.month, t.day);
    match t.kind
    case DATE => date
    case LOCAL_DATETIME => date + "T" + ClockText(t.hour, t.minute, t.second, t.nanos, alwaysSeconds)
    case DATETIME =>
      date + "T" + ClockText(t.hour, t.minute, t.second, t.nanos, alwaysSeconds) + ZoneText(t.tzOffset, t.tzName)
  }

  function PrintTime(t: Time, alwaysSeconds: bool): string {
    ClockText(t.hour, t.minute, t.second, t.nanos, alwaysSeconds)
    + (if t.kind == TIME then ZoneText(t.tzOffset, t.tzName) else "")
  }

  // ---------- the parser ----------

  /** parseTzOffset: HH:MM, HH:MM:SS or HHMM after an optional sign. */
  function TzOffset(tz: string): Result<int32> {
    if tz in {"", "Z", "+00:00", "-00:00"} then Ok(0)
    else if Find(tz, '/', 0) != -1 then Ok(0)
    else
      var sign := if tz[0] == '-' then -1 else 1;
      var rest := if tz[0] == '+' || tz[0] == '-' then tz[1..] else tz;
      var col1 := Find(rest, ':', 0);
      if col1 != -1 then
        var hours := Stoll(rest[..col1]);
        if hours.Err? then Err(hours.error)
        else
          var col2 := Find(rest, ':', col1 + 1);
          if col2 != -1 then
            var minutes := Stoll(rest[col1 + 1..col2]);
            if minutes.Err? then Err(minutes.error)
            else
              var seconds := Stoll(rest[col2 + 1..]);
              if seconds.Err? then Err(seconds.error)
              else Ok(ToInt32(sign * (hours.value * 3600 + minutes.value * 60 + seconds.value)))
          else
            var minutes := Stoll(rest[col1 + 1..]);
            if minutes.Err? then Err(minutes.error)
            else Ok(ToInt32(sign * (hours.value * 3600 + minutes.value * 60)))
      else if |rest| >= 2 then
        var hours := Stoll(rest[..2]);
        if hours.Err? then Err(hours.error)
        else if |rest| >= 4 then
          var minutes := Stoll(rest[2..4]);
          if minutes.Err? then Err(minutes.error)
          else Ok(ToInt32(sign * (hours.value * 3600 + minutes.value * 60)))
        else Ok(ToInt32(sign * (hours.value * 3600)))
      else Ok(0)
  }

  /** The fields read so far and the text still to be read. */
  datatype Reading = Reading(hour: int8, minute: int8, second: int8, nanos: int32, rest: string)

  /** Two digits into the second, from the start of `rest`. */
  function ReadSecond(r: Reading, rest: string): Result<Reading> {
    var second := Stoll(Take(rest, 2));
    if second.Err? then Err(second.error)
    else Ok(r.(second := ToInt8(second.value), rest := Drop(rest, 2)))
  }

  function ReadMinute(r: Reading, rest: string): Result<Reading> {
    var minute := Stoll(Take(rest, 2));
    if minute.Err? then Err(minute.error)
    else Ok(r.(minute := ToInt8(minute.value), rest := Drop(rest, 2)))
  }

  predicate StartsWithDigit(s: string) {
    s != "" && IsDigit(s[0])
  }

  predicate StartsWith(s: string, c: char) {
    s != "" && s[0] == c
  }

  /** HHMM[SS], two digits a component. */
  function CompactClock(s: string): Result<Reading> {
    var hour := Stoll(Take(s, 2));
    if hour.Err? then Err(hour.error)
    else
      var r := ReadMinute(Reading(ToInt8(hour.value), 0, 0, 0, ""), Drop(s, 2));
      if r.Err? then r
      else if StartsWithDigit(r.value.rest) then ReadSecond(r.value, r.value.rest)
      else r
  }

  /** H...:MM[:SS], an hour of any length and optional colons. */
  function SeparatedClock(s: string, digits: nat): Result<Reading>
    requires digits <= |s|
  {
    var hour := Stoll(s[..digits]);
    if hour.Err? then Err(hour.error)
    else
      var rest := if StartsWith(s[digits..], ':') then s[digits + 1..] else s[digits..];
      var r0 := Reading(ToInt8(hour.value), 0, 0, 0, rest);
      var r := if StartsWithDigit(rest) then ReadMinute(r0, rest) else Ok(r0);
      if r.Err? then r
      else if StartsWith(r.value.rest, ':') then ReadSecond(r.value, r.value.rest[1..])
      else if StartsWithDigit(r.value.rest) then ReadSecond(r.value, r.value.rest)
      else r
  }

  /** The digits of a fraction, cut or filled with zeros to nine. */
  function FractionDigits(digits: string): string {
    if |digits| >= 9 then digits[..9] else digits + Zeros(9 - |digits|)
  }

  function ReadFraction(r: Reading): Result<Reading> {
    if StartsWith(r.rest, '.') then
      var n := DigitPrefix(r.rest[1..]);
      var nanos := Stoll(FractionDigits(r.rest[1..][..n]));
      if nanos.Err? then Err(nanos.error)
      else Ok(r.(nanos := ToInt32(nanos.value), rest := r.rest[1..][n..]))
    else Ok(r)
  }

  /** The zone: an offset, and a name in brackets where names are allowed. */
  function ReadZone(t: Time, zone: string, allowNamed: bool): Result<Time> {
    var bracket := Find(zone, '[', 0);
    var close := if bracket != -1 then Find(zone, ']', bracket) else -1;
    var name := if close != -1 then zone[bracket + 1..close] else "";
    var tz := if close != -1 then zone[..bracket] else zone;
    var offset := if tz != "Z" && tz != "" then TzOffset(tz) else Ok(0);
    if offset.Err? then Err(offset.error)
    else if name != "" && !allowNamed then Err(Argument)
    else Ok(t.(tzOffset := offset.value, tzName := name))
  }

  /** parseTimeStr. */
  function ParsedTime(s: string, kind: TimeKind, allowNamed: bool): Result<Time> {
    var blank := Time(kind, 0, 0, 0, 0, 0, "");
    var digits := DigitPrefix(s);
    if digits == 0 then Ok(blank)
    else
      var compact := !StartsWith(s[digits..], ':') && digits >= 4;
      var clock := if compact then CompactClock(s) else SeparatedClock(s, digits);
      if clock.Err? then Err(clock.error)
      else
        var r := ReadFraction(clock.value);
        if r.Err? then Err(r.error)
        else
          var t := Time(kind, r.value.hour, r.value.minute, r.value.second, r.value.nanos, 0, "");
          if kind == TIME && r.value.rest != "" then ReadZone(t, r.value.rest, allowNamed) else Ok(t)
  }

  /** Three numbers into the fields of a date. */
  function ThreeNumbers(y: Result<int64>, m: Result<int64>, d: Result<int64>): Result<Civil> {
    if y.Err? then Err(y.error)
    else if m.Err? then Err(m.error)
    else if d.Err? then Err(d.error)
    else Ok(Civil(ToInt32(y.value), ToInt8(m.value), ToInt8(d.value)))
  }

  function YearMonth(y: Result<int64>, m: Result<int64>): Result<Civil> {
    ThreeNumbers(y, m, Ok(1))
  }

  /** The month and day of an ordinal date; an ordinal beyond the year is left over in month 13. */
  ghost function OrdinalDate(year: int, ordinal: int): Civil {
    if ordinal < 1 then Civil(year, 1, ordinal)
    else if ordinal > DaysInYear(year) then Civil(year, 13, ordinal - DaysInYear(year))
    else DateOfDay(YearStart(year) + ordinal - 1)
  }

  ghost function FromOrdinal(y: Result<int64>, ordinal: Result<int64>): Result<Civil> {
    if y.Err? then Err(y.error)
    else if ordinal.Err? then Err(ordinal.error)
    else
      var year := ToInt32(y.value);
      var c := OrdinalDate(year, ordinal.value);
      Ok(Civil(year, ToInt8(c.month), ToInt8(c.day)))
  }

  ghost function FromWeek(y: Result<int64>, week: Result<int64>, dow: Result<int64>): Result<Civil> {
    if y.Err? then Err(y.error)
    else if week.Err? then Err(week.error)
    else if dow.Err? then Err(dow.error)
    else
      var c := DateOfDay(WeekDay(y.value, week.value, dow.value));
      Ok(Civil(ToInt32(c.year), ToInt8(c.month), ToInt8(c.day)))
  }

  /** YYYY-Www[-D] and YYYYWww[D]. */
  ghost function WeekDate(s: string, wpos: nat): Result<Civil>
    requires wpos < |s|
  {
    var year := Stoll(s[..wpos]);
    var rest := s[wpos + 1..];
    if wpos > 0 && s[wpos - 1] == '-' then
      var n := DigitPrefix(rest);
      var dow := if n == |rest| then Ok(1)
                 else Stoll(if rest[n] == '-' then rest[n + 1..] else rest[n..]);
      FromWeek(year, Stoll(rest[..n]), dow)
    else
      var week := if |rest| >= 2 then Stoll(rest[..2]) else Ok(0);
      FromWeek(year, week, if |rest| > 2 then Stoll(rest[2..]) else Ok(1))
  }

  /** The dash before a two-digit month and the dash after it, if the text ends in such a month and a day. */
  function LastDashes(s: string): (int, int) {
    if |s| < 10 then (-1, -1)
    else
      var last := RFind(s, '-', |s| - 1);
      if last < 4 then (-1, -1)
      else
        var mid := RFind(s, '-', last - 1);
        if mid != -1 && last - mid == 3 then (mid, last) else (-1, -1)
  }

  /** parseDateFromStringRaw. */
  ghost function RawDate(s: string): Result<Civil> {
    var (mid, last) := LastDashes(s);
    if s == "" then Ok(Civil(1970, 1, 1))
    else if 0 <= mid && mid + 3 <= last && last < |s| then
      ThreeNumbers(Stoll(s[..mid]), Stoll(Take(s[mid + 1..], 2)), Stoll(s[last + 1..]))
    else if |s| >= 10 && s[4] == '-' && s[7] == '-' then
      ThreeNumbers(Stoll(s[..4]), Stoll(s[5..7]), Stoll(s[8..]))
    else if |s| == 8 && Find(s, '-', 0) == -1 && Find(s, 'W', 0) == -1 && Find(s, 'w', 0) == -1 then
      ThreeNumbers(Stoll(s[..4]), Stoll(s[4..6]), Stoll(s[6..8]))
    else if Find(s, 'W', 0) != -1 then WeekDate(s, Find(s, 'W', 0))
    else if Find(s, 'w', 0) != -1 then WeekDate(s, Find(s, 'w', 0))
    else if |s| == 7 && s[4] == '-' && RFind(s, '-', 6) == 4 then YearMonth(Stoll(s[..4]), Stoll(s[5..7]))
    else if |s| == 8 && s[4] == '-' then FromOrdinal(Stoll(s[..4]), Stoll(s[5..]))
    else if |s| == 7 && AllDigits(s) then FromOrdinal(Stoll(s[..4]), Stoll(s[4..]))
    else if |s| == 6 && AllDigits(s) then YearMonth(Stoll(s[..4]), Stoll(s[4..6]))
    else if |s| == 4 && AllDigits(s) then YearMonth(Stoll(s), Ok(1))
    else Ok(Civil(1970, 1, 1))
  }

  /** parseDateFromString. */
  ghost function ParsedDate(s: string): Result<Civil> {
    var c := RawDate(s);
    if c.Ok? && !(-MAX_YEAR <= c.value.year <= MAX_YEAR) then Err(Syntax) else c
  }

  function DefaultDateTime(kind: DateTimeKind): DateTime {
    DateTime(kind, 1970, 1, 1, 0, 0, 0, 0, 0, "")
  }

  /** The first T, t or blank, or -1. */
  function TimeSeparator(s: string, from: nat): (i: int)
    ensures i == -1 || from <= i < |s|
    decreases |s| - from
  {
    if from >= |s| then -1
    else if s[from] in {'T', 't', ' '} then from
    else TimeSeparator(s, from + 1)
  }

  /** parseDatetimeStr. */
  ghost function ParsedDateTime(s: string, kind: DateTimeKind): Result<DateTime> {
    var t := TimeSeparator(s, 0);
    var date := ParsedDate(if t == -1 then s else s[..t]);
    if s == "" then Ok(DefaultDateTime(kind))
    else if date.Err? then Err(date.error)
    else
      var c := date.value;
      var dt := DefaultDateTime(kind).(year := ToInt32(c.year), month := ToInt8(c.month), day := ToInt8(c.day));
      if t == -1 then Ok(dt)
      else
        var time := ParsedTime(s[t + 1..], if kind == DATETIME then TIME else LOCAL_TIME, true);
        if time.Err? then Err(time.error)
        else
          var v := time.value;
          var local := dt.(hour := v.hour, minute := v.minute, second := v.second, nanos := v.nanos);
          if kind == DATETIME then Ok(local.(tzOffset := v.tzOffset, tzName := v.tzName)) else Ok(local)
  }
}
