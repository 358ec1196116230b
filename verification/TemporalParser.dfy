/** The parsers as the code runs them: a position moves over the text and the fields are filled on the
    way. Each is proved to compute the function of the same form in `TemporalText`. */
module TemporalParser {
  import opened CppArithmetic
  import opened Calendar
  import opened Temporal
  import opened TemporalArithmetic
  import opened Text
  import opened TemporalText

  /** The loop that advances over digits. */
  method ScanDigits(s: string, start: nat) returns (end: nat)
    requires start <= |s|
    ensures end == start + DigitPrefix(s[start..])
  {
    end := start;
    while end < |s| && IsDigit(s[end])
      invariant start <= end <= |s|
      invariant start + DigitPrefix(s[start..]) == end + DigitPrefix(s[end..])
    {
      assert s[end..][1..] == s[end + 1..];
      end := end + 1;
    }
  }

  /** `s.substr(pos, 2)`, where the position may have run past the end by one. */
  function Two(s: string, pos: nat): string {
    Take(Drop(s, pos), 2)
  }

  lemma Moves(s: string, pos: nat, k: nat)
    ensures Drop(Drop(s, pos), k) == Drop(s, pos + k)
    ensures pos < |s| ==> Drop(s, pos) != "" && Drop(s, pos)[0] == s[pos]
    ensures pos >= |s| ==> Drop(s, pos) == ""
  {
  }

  /** The compact clock of parseTimeStr: two digits a component. */
  method ScanCompactClock(s: string) returns (r: Result<Reading>)
    ensures r == CompactClock(s)
  {
    hide Stoll;
    var pos := 0;
    Moves(s, pos, 0);
    var h := Stoll(Two(s, pos));
    if h.Err? {
      return Err(h.error);
    }
    var hour: int8, second: int8 := ToInt8(h.value), 0;
    pos := pos + 2;
    var m := Stoll(Two(s, pos));
    if m.Err? {
      return Err(m.error);
    }
    var minute: int8 := ToInt8(m.value);
    Moves(s, pos, 2);
    pos := pos + 2;
    Moves(s, pos, 2);
    if pos < |s| && IsDigit(s[pos]) {
      var x := Stoll(Two(s, pos));
      if x.Err? {
        return Err(x.error);
      }
      second := ToInt8(x.value);
      pos := pos + 2;
    }
    r := Ok(Reading(hour, minute, second, 0, Drop(s, pos)));
  }

  /** The separated clock of parseTimeStr: after the hour, colons are optional. */
  method ScanSeparatedClock(s: string, numEnd: nat) returns (r: Result<Reading>)
    requires numEnd <= |s|
    ensures r == SeparatedClock(s, numEnd)
  {
    hide Stoll;
    var h := Stoll(s[..numEnd]);
    if h.Err? {
      return Err(h.error);
    }
    var hour: int8, minute: int8, second: int8 := ToInt8(h.value), 0, 0;
    var pos := numEnd;
    if pos < |s| && s[pos] == ':' {
      pos := pos + 1;
    }
    Moves(s, pos, 2);
    if pos < |s| && IsDigit(s[pos]) {
      var m := Stoll(Two(s, pos));
      if m.Err? {
        return Err(m.error);
      }
      minute := ToInt8(m.value);
      pos := pos + 2;
    }
    r := ScanSeconds(s, pos, Reading(hour, minute, second, 0, Drop(s, pos)));
  }

  /** Seconds, after a colon or straight after the minutes. */
  method ScanSeconds(s: string, pos0: nat, read: Reading) returns (r: Result<Reading>)
    requires read.rest == Drop(s, pos0)
    ensures r == if StartsWith(read.rest, ':') then ReadSecond(read, read.rest[1..])
                 else if StartsWithDigit(read.rest) then ReadSecond(read, read.rest)
                 else Ok(read)
  {
    hide Stoll;
    var pos := pos0;
    Moves(s, pos, 1);
    Moves(s, pos, 2);
    if pos < |s| && s[pos] == ':' {
      pos := pos + 1;
      Moves(s, pos, 2);
      assert Drop(s, pos) == read.rest[1..];
      var x := Stoll(Two(s, pos));
      if x.Err? {
        return Err(x.error);
      }
      pos := pos + 2;
      return Ok(read.(second := ToInt8(x.value), rest := Drop(s, pos)));
    } else if pos < |s| && IsDigit(s[pos]) {
      var x := Stoll(Two(s, pos));
      if x.Err? {
        return Err(x.error);
      }
      pos := pos + 2;
      return Ok(read.(second := ToInt8(x.value), rest := Drop(s, pos)));
    }
    r := Ok(read);
  }

  /** The fraction of parseTimeStr. */
  method ScanFraction(read: Reading) returns (r: Result<Reading>)
    ensures r == ReadFraction(read)
  {
    hide Stoll, FractionDigits;
    var s := read.rest;
    if !(s != "" && s[0] == '.') {
      return Ok(read);
    }
    var start := 1;
    var pos := ScanDigits(s, start);
    assert s[start..][..pos - start] == s[start..pos];
    assert s[start..][pos - start..] == s[pos..];
    var nanos := Stoll(FractionDigits(s[start..pos]));
    if nanos.Err? {
      return Err(nanos.error);
    }
    r := Ok(read.(nanos := ToInt32(nanos.value), rest := s[pos..]));
  }

  /** The zone of parseTimeStr. */
  method ScanZone(t: Time, zone: string, allowNamed: bool) returns (r: Result<Time>)
    ensures r == ReadZone(t, zone, allowNamed)
  {
    hide TzOffset, Find;
    var tz := zone;
    var name := "";
    var bracket := Find(tz, '[', 0);
    if bracket != -1 {
      var close := Find(tz, ']', bracket);
      if close != -1 {
        name := tz[bracket + 1..close];
        tz := tz[..bracket];
      }
    }
    var offset: int32 := 0;
    if tz != "Z" && tz != "" {
      var o := TzOffset(tz);
      if o.Err? {
        return Err(o.error);
      }
      offset := o.value;
    }
    if name != "" && !allowNamed {
      return Err(Argument);
    }
    r := Ok(t.(tzOffset := offset, tzName := name));
  }

  /** parseTimeStr. */
  method ParseTimeStr(s: string, kind: TimeKind, allowNamed: bool) returns (r: Result<Time>)
    ensures r == ParsedTime(s, kind, allowNamed)
  {
    hide DigitPrefix, CompactClock, SeparatedClock, ReadFraction, ReadZone;
    var numEnd := ScanDigits(s, 0);
    assert s[0..] == s;
    if numEnd == 0 {
      return Ok(Time(kind, 0, 0, 0, 0, 0, ""));
    }
    var clock;
    if (numEnd >= |s| || s[numEnd] != ':') && numEnd >= 4 {
      clock := ScanCompactClock(s);
    } else {
      clock := ScanSeparatedClock(s, numEnd);
    }
    if clock.Err? {
      return Err(clock.error);
    }
    var read := ScanFraction(clock.value);
    if read.Err? {
      return Err(read.error);
    }
    var t := Time(kind, read.value.hour, read.value.minute, read.value.second, read.value.nanos, 0, "");
    if kind == TIME && read.value.rest != "" {
      r := ScanZone(t, read.value.rest, allowNamed);
    } else {
      r := Ok(t);
    }
  }

  // ---------- dates ----------

  /** The ordinal branches of parseDateFromStringRaw. */
  method ParseOrdinal(y: Result<int64>, ordinal: Result<int64>) returns (r: Result<Civil>)
    ensures r == FromOrdinal(y, ordinal)
  {
    hide YearStart, EpochDay, IsLeapYear;
    if y.Err? {
      return Err(y.error);
    }
    if ordinal.Err? {
      return Err(ordinal.error);
    }
    var year := ToInt32(y.value);
    var month, day := OrdinalToDate(year, ordinal.value);
    if 1 <= ordinal.value <= DaysInYear(year) {
      EpochDayOrders(Civil(year, month, day), DateOfDay(YearStart(year) + ordinal.value - 1));
    }
    r := Ok(Civil(year, ToInt8(month), ToInt8(day)));
  }

  /** The week branch of parseDateFromStringRaw, once the position of the W is known. */
  method ParseWeek(s: string, wpos: nat) returns (r: Result<Civil>)
    requires wpos < |s|
    ensures r == WeekDate(s, wpos)
  {
    hide Stoll, WeekDay, DateOfDay, DigitPrefix;
    var year := Stoll(s[..wpos]);
    if year.Err? {
      return Err(year.error);
    }
    var extended := wpos > 0 && s[wpos - 1] == '-';
    var numStart := wpos + 1;
    var week := Ok(0);
    var dow := Ok(1);
    if extended {
      var numEnd := ScanDigits(s, numStart);
      ghost var rest := s[numStart..];
      assert rest[..numEnd - numStart] == s[numStart..numEnd];
      week := Stoll(s[numStart..numEnd]);
      if numEnd < |s| {
        assert rest[numEnd - numStart] == s[numEnd];
        assert rest[numEnd - numStart..] == s[numEnd..];
        assert rest[numEnd - numStart + 1..] == s[numEnd + 1..];
        if s[numEnd] == '-' {
          numEnd := numEnd + 1;
        }
        dow := Stoll(s[numEnd..]);
      }
    } else {
      ghost var rest := s[numStart..];
      if numStart + 2 <= |s| {
        assert rest[..2] == s[numStart..numStart + 2];
        week := Stoll(s[numStart..numStart + 2]);
      }
      if numStart + 2 < |s| {
        assert rest[2..] == s[numStart + 2..];
        dow := Stoll(s[numStart + 2..]);
      }
    }
    if week.Err? {
      return Err(week.error);
    }
    if dow.Err? {
      return Err(dow.error);
    }
    var y, m, d := IsoWeekToDate(year.value, week.value, dow.value);
    r := Ok(Civil(ToInt32(y), ToInt8(m), ToInt8(d)));
  }

  /** parseDateFromStringRaw and the range check of parseDateFromString. */
  method ParseDateFromString(s: string) returns (r: Result<Civil>)
    ensures r == ParsedDate(s)
  {
    hide Stoll, WeekDate, FromOrdinal, Find, RFind, AllDigits;
    var (mid, last) := LastDashes(s);
    if s == "" {
      return Ok(Civil(1970, 1, 1));
    }
    if 0 <= mid && mid + 3 <= last && last < |s| {
      r := ThreeNumbers(Stoll(s[..mid]), Stoll(Take(s[mid + 1..], 2)), Stoll(s[last + 1..]));
    } else if |s| >= 10 && s[4] == '-' && s[7] == '-' {
      r := ThreeNumbers(Stoll(s[..4]), Stoll(s[5..7]), Stoll(s[8..]));
    } else if |s| == 8 && Find(s, '-', 0) == -1 && Find(s, 'W', 0) == -1 && Find(s, 'w', 0) == -1 {
      r := ThreeNumbers(Stoll(s[..4]), Stoll(s[4..6]), Stoll(s[6..8]));
    } else if Find(s, 'W', 0) != -1 || Find(s, 'w', 0) != -1 {
      var wpos := Find(s, 'W', 0);
      if wpos == -1 {
        wpos := Find(s, 'w', 0);
      }
      r := ParseWeek(s, wpos);
    } else if |s| == 7 && s[4] == '-' && RFind(s, '-', 6) == 4 {
      r := YearMonth(Stoll(s[..4]), Stoll(s[5..7]));
    } else if |s| == 8 && s[4] == '-' {
      r := ParseOrdinal(Stoll(s[..4]), Stoll(s[5..]));
    } else if |s| == 7 && AllDigits(s) {
      r := ParseOrdinal(Stoll(s[..4]), Stoll(s[4..]));
    } else if |s| == 6 && AllDigits(s) {
      r := YearMonth(Stoll(s[..4]), Stoll(s[4..6]));
    } else if |s| == 4 && AllDigits(s) {
      r := YearMonth(Stoll(s), Ok(1));
    } else {
      r := Ok(Civil(1970, 1, 1));
    }
    if r.Ok? && (r.value.year < -MAX_YEAR || r.value.year > MAX_YEAR) {
      return Err(Syntax);
    }
  }

  /** parseDatetimeStr, with its search for the separator. */
  method ParseDatetimeStr(s: string, kind: DateTimeKind) returns (r: Result<DateTime>)
    ensures r == ParsedDateTime(s, kind)
  {
    hide ParsedDate, ParsedTime;
    if s == "" {
      return Ok(DefaultDateTime(kind));
    }
    var tPos := -1;
    var i := 0;
    while i < |s| && tPos == -1
      invariant 0 <= i <= |s|
      invariant tPos == -1 ==> TimeSeparator(s, i) == TimeSeparator(s, 0)
      invariant tPos != -1 ==> 0 <= tPos < |s| && tPos == TimeSeparator(s, 0)
      decreases |s| - i, tPos == -1
    {
      if s[i] == 'T' || s[i] == 't' || s[i] == ' ' {
        tPos := i;
      } else {
        i := i + 1;
      }
    }
    var date := ParseDateFromString(if tPos == -1 then s else s[..tPos]);
    if date.Err? {
      return Err(date.error);
    }
    var c := date.value;
    var tv := DefaultDateTime(kind).(year := ToInt32(c.year), month := ToInt8(c.month), day := ToInt8(c.day));
    if tPos != -1 {
      var time := ParseTimeStr(s[tPos + 1..], if kind == DATETIME then TIME else LOCAL_TIME, true);
      if time.Err? {
        return Err(time.error);
      }
      var v := time.value;
      tv := tv.(hour := v.hour, minute := v.minute, second := v.second, nanos := v.nanos);
      if kind == DATETIME {
        tv := tv.(tzOffset := v.tzOffset, tzName := v.tzName);
      }
    }
    r := Ok(tv);
  }
}
