/** Temporal values, their nanosecond coordinates and their order (temporal_value.hpp and the
    "Comparable" and "Ordering" parts of temporal_value.cpp). */
module Temporal {
  import opened CppArithmetic
  import opened Calendar

  const NANOS_PER_SECOND: int := 1_000_000_000
  const NANOS_PER_DAY: int := 86_400_000_000_000
  const MAX_YEAR: int := 999_999_999

  datatype DateTimeKind = DATE | LOCAL_DATETIME | DATETIME

  /** The field widths are those of the struct. An empty zone name means that there is none. */
  datatype DateTime = DateTime(
    kind: DateTimeKind,
    year: int32, month: int8, day: int8,
    hour: int8, minute: int8, second: int8, nanos: int32,
    tzOffset: int32, tzName: string)

  datatype TimeKind = LOCAL_TIME | TIME

  datatype Time = Time(
    kind: TimeKind,
    hour: int8, minute: int8, second: int8, nanos: int32,
    tzOffset: int32, tzName: string)

  function CivilOf(t: DateTime): Civil {
    Civil(t.year, t.month, t.day)
  }

  predicate NormalTimeOfDay(hour: int, minute: int, second: int, nanos: int) {
    0 <= hour < 24 && 0 <= minute < 60 && 0 <= second < 60 && 0 <= nanos < NANOS_PER_SECOND
  }

  /** A calendar date with a time of day, in the range of years the engine supports. */
  predicate Normal(t: DateTime) {
    && ValidDate(CivilOf(t)) && -MAX_YEAR <= t.year <= MAX_YEAR
    && NormalTimeOfDay(t.hour, t.minute, t.second, t.nanos)
    && (t.kind == DATE ==> DayNanos(t.hour, t.minute, t.second, t.nanos) == 0)
  }

  predicate NormalTime(t: Time) {
    NormalTimeOfDay(t.hour, t.minute, t.second, t.nanos)
  }

  function DayNanos(hour: int, minute: int, second: int, nanos: int): int {
    (hour * 3600 + minute * 60 + second) * NANOS_PER_SECOND + nanos
  }

  /** localFieldsNanos: nanoseconds from 1970-01-01T00:00 on the wall clock. */
  function LocalFieldsNanos(t: DateTime): int128 {
    DaysFromCivilBounds(t.year, t.month, t.day);
    DaysFromCivil(t.year, t.month, t.day) * NANOS_PER_DAY + DayNanos(t.hour, t.minute, t.second, t.nanos)
  }

  /** temporalToComparable: for a zoned value, nanoseconds from the epoch instant. */
  function Comparable(t: DateTime): int128 {
    DaysFromCivilBounds(t.year, t.month, t.day);
    var dayNs := DayNanos(t.hour, t.minute, t.second, t.nanos);
    var zoned := if t.kind == DATETIME then dayNs - t.tzOffset * NANOS_PER_SECOND else dayNs;
    DaysFromCivil(t.year, t.month, t.day) * NANOS_PER_DAY + zoned
  }

  function TimeComparable(t: Time): int64 {
    var dayNs := DayNanos(t.hour, t.minute, t.second, t.nanos);
    if t.kind == TIME then dayNs - t.tzOffset * NANOS_PER_SECOND else dayNs
  }

  predicate TimeFieldsLess(a: Time, b: Time) {
    if a.hour != b.hour then a.hour < b.hour
    else if a.minute != b.minute then a.minute < b.minute
    else if a.second != b.second then a.second < b.second
    else a.nanos < b.nanos
  }

  predicate LocalFieldsLess(a: DateTime, b: DateTime) {
    if a.year != b.year then a.year < b.year
    else if a.month != b.month then a.month < b.month
    else if a.day != b.day then a.day < b.day
    else if a.hour != b.hour then a.hour < b.hour
    else if a.minute != b.minute then a.minute < b.minute
    else if a.second != b.second then a.second < b.second
    else a.nanos < b.nanos
  }

  predicate TemporalLess(a: DateTime, b: DateTime) {
    if a.kind != b.kind then false
    else
      match a.kind
      case DATE => LocalFieldsLess(a, b)
      case LOCAL_DATETIME => LocalFieldsLess(a, b)
      case DATETIME =>
        if Comparable(a) != Comparable(b) then Comparable(a) < Comparable(b) else LocalFieldsLess(a, b)
  }

  predicate TimeLess(a: Time, b: Time) {
    if a.kind != b.kind then false
    else if a.kind == TIME && TimeComparable(a) != TimeComparable(b) then TimeComparable(a) < TimeComparable(b)
    else TimeFieldsLess(a, b)
  }

  predicate SameLocalFields(a: DateTime, b: DateTime) {
    && CivilOf(a) == CivilOf(b)
    && a.hour == b.hour && a.minute == b.minute && a.second == b.second && a.nanos == b.nanos
  }

  // ---------- properties ----------

  /** The wall-clock coordinate as the reference day count has it. */
  lemma LocalCoordinate(t: DateTime)
    requires 1 <= t.month <= 12
    ensures LocalFieldsNanos(t)
            == DayOf(CivilOf(t)) * NANOS_PER_DAY + DayNanos(t.hour, t.minute, t.second, t.nanos)
  {
    DaysFromCivilCounts(t.year, t.month, t.day);
  }

  lemma DayNanosRange(hour: int, minute: int, second: int, nanos: int)
    requires NormalTimeOfDay(hour, minute, second, nanos)
    ensures 0 <= DayNanos(hour, minute, second, nanos) < NANOS_PER_DAY
  {
  }

  /** Comparing fields one by one is comparing coordinates, and a coordinate determines the fields. */
  lemma FieldOrderIsCoordinateOrder(a: DateTime, b: DateTime)
    requires Normal(a) && Normal(b)
    ensures LocalFieldsLess(a, b) <==> LocalFieldsNanos(a) < LocalFieldsNanos(b)
    ensures SameLocalFields(a, b) <==> LocalFieldsNanos(a) == LocalFieldsNanos(b)
  {
    LocalCoordinate(a);
    LocalCoordinate(b);
    EpochDayOrders(CivilOf(a), CivilOf(b));
    DayNanosRange(a.hour, a.minute, a.second, a.nanos);
    DayNanosRange(b.hour, b.minute, b.second, b.nanos);
  }

  /** Values of one kind: the order is the lexicographic order of (instant, wall clock), where the
      zone-less kinds have only the wall clock. */
  lemma TemporalLessByCoordinates(a: DateTime, b: DateTime)
    requires Normal(a) && Normal(b) && a.kind == b.kind
    ensures a.kind != DATETIME ==> (TemporalLess(a, b) <==> LocalFieldsNanos(a) < LocalFieldsNanos(b))
    ensures a.kind == DATETIME ==>
              (TemporalLess(a, b) <==>
               Comparable(a) < Comparable(b)
               || (Comparable(a) == Comparable(b) && LocalFieldsNanos(a) < LocalFieldsNanos(b)))
  {
    FieldOrderIsCoordinateOrder(a, b);
  }

  /** Inside one kind the order is a strict weak order, and values tie exactly when they agree on all
      wall-clock fields and, if zoned, on the offset. */
  lemma TemporalLessStrictWeakOrder(a: DateTime, b: DateTime, c: DateTime)
    requires Normal(a) && Normal(b) && Normal(c) && a.kind == b.kind == c.kind
    ensures !TemporalLess(a, a)
    ensures TemporalLess(a, b) && TemporalLess(b, c) ==> TemporalLess(a, c)
    ensures !TemporalLess(a, b) && !TemporalLess(b, a)
            <==> SameLocalFields(a, b) && (a.kind == DATETIME ==> a.tzOffset == b.tzOffset)
  {
    TemporalLessByCoordinates(a, b);
    TemporalLessByCoordinates(b, a);
    TemporalLessByCoordinates(b, c);
    TemporalLessByCoordinates(a, c);
    TemporalLessByCoordinates(a, a);
    FieldOrderIsCoordinateOrder(a, b);
  }

  /** Neither value is before the other. */
  predicate Tie(a: DateTime, b: DateTime) {
    !TemporalLess(a, b) && !TemporalLess(b, a)
  }

  /** Ties fail to be transitive exactly when two values of one kind that differ are linked by a value of another
      kind, which ties with everything outside its own. */
  lemma TiesAcrossKinds(a: DateTime, b: DateTime, c: DateTime)
    requires Normal(a) && Normal(b) && Normal(c)
    ensures Tie(a, b) && Tie(b, c) && !Tie(a, c)
       <==> a.kind == c.kind && b.kind != a.kind
            && !(SameLocalFields(a, c) && (a.kind == DATETIME ==> a.tzOffset == c.tzOffset))
  {
    hide SameLocalFields, LocalFieldsLess, Comparable;
    OtherKindsTie(a, b);
    OtherKindsTie(b, c);
    OtherKindsTie(a, c);
    if a.kind == c.kind {
      TemporalLessStrictWeakOrder(a, c, a);
      if a.kind == b.kind {
        TemporalLessStrictWeakOrder(a, b, c);
        TemporalLessStrictWeakOrder(b, c, a);
        SameFieldsTransitive(a, b, c);
      }
    }
  }

  lemma OtherKindsTie(a: DateTime, b: DateTime)
    ensures a.kind != b.kind ==> Tie(a, b)
  {
  }

  lemma SameFieldsTransitive(a: DateTime, b: DateTime, c: DateTime)
    ensures SameLocalFields(a, b) && SameLocalFields(b, c) ==> SameLocalFields(a, c)
  {
  }

  /** Two dates that differ both tie with a local datetime. */
  lemma MixedKindsBreakWeakOrder() returns (a: DateTime, b: DateTime, c: DateTime)
    ensures Normal(a) && Normal(b) && Normal(c)
    ensures Tie(a, b) && Tie(b, c) && TemporalLess(a, c)
  {
    a := DateTime(DATE, 2024, 1, 1, 0, 0, 0, 0, 0, "");
    b := DateTime(LOCAL_DATETIME, 2024, 1, 1, 0, 0, 0, 0, 0, "");
    c := DateTime(DATE, 2024, 1, 2, 0, 0, 0, 0, 0, "");
  }

  lemma TimeLessStrictWeakOrder(a: Time, b: Time, c: Time)
    requires NormalTime(a) && NormalTime(b) && NormalTime(c) && a.kind == b.kind == c.kind
    ensures !TimeLess(a, a)
    ensures TimeLess(a, b) && TimeLess(b, c) ==> TimeLess(a, c)
    ensures !TimeLess(a, b) && !TimeLess(b, a)
            <==> (a.hour, a.minute, a.second, a.nanos) == (b.hour, b.minute, b.second, b.nanos)
                 && (a.kind == TIME ==> a.tzOffset == b.tzOffset)
  {
  }
}
