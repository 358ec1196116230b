# EuGraph: a verified model

EuGraph is a property graph engine with a Cypher front end and a web console. This project models the parts of it
whose correctness is not visible from one function at a time, and proves what those parts promise.
`dafny verify dfyconfig.toml` checks everything.

## What is modelled

**Calendar and time** (`CppArithmetic`, `Calendar`, `Temporal`, `TemporalArithmetic`, `Durations`). C++ division is
written out as truncating division. The methods that count days, find dates, normalise, add and measure have locals of
the subset types `int64` and `int128`, so every assignment in them carries a proof that it does not overflow; what they
ask for are the ranges in which the C++ does not overflow either. The calendar has an independent reference: years and
months counted one by one from 1970-01-01 (`EpochDay`), and dates reached day by day (`DateOfDay`). The era arithmetic
of the engine is proved equal to it, in unbounded integers for every year and day number, and inverse in both
directions. On top of that: adding a duration moves the wall-clock coordinate by exactly the duration after the clamped
month shift; measuring and adding are inverse; the order of temporal values; and durations as an abelian group with
integer multiples. `IsShifted` and `IsBetween` are what the methods `AddDuration` and `DurationBetween` guarantee for
every input, so the laws stated with them are laws about the results of those methods.

**Temporal text** (`Text`, `TemporalText`, `TemporalParser`, `TemporalRoundTrip`, `CompactForms`). The printers and the
parsers for dates, times and datetimes. The parsers are methods that move a position over the text, proved equal to
functions; the round trips are proved about the functions. `CompactForms` says what the forms are read as that the
printer never writes: compact clocks and dates, and those cut short.

**Graph drop and lease** (`UsageGate`, `GraphProtocol`). The gate and its move-only guard are classes. The manager is
a step system: threads that acquire, release, create, drop, shut down, and a checkpoint thread, interleaved in any
order, with an inductive invariant.

**Script splitting** (`StatementSplitter`), **CSV** (`CsvReader`, `CsvCount`, `CsvAgreement`, `CsvRoundTrip`). The
Cypher script splitter with quotes and comments; the CSV record splitter, its fast counting twin over physical lines,
and the console's writer. The layout is that of section 2 of RFC 4180.

**Component hubs** (`Components`). Union-find with path compression over the result graph, and the choice of one hub
in each component.

**Query data** (`Values`, `Promotion`, `ThreeValued`, `HashEquality`, `HashDisagreement`, `ValueHashing`, `RangeScan`,
`Bitmap`, `ColumnStorage`, `Columns`). Three-valued and total equality of nested values and the hash that goes with the
second, with the rounding of integers to doubles; ordered range and prefix scans over a cursor; and the bit-packed
column buffer with its three column forms.

## What the proofs found

Where the code does less than its documentation says, a lemma gives the exact condition and another one an input, unless
the condition names it.

- `addDuration` on a time of day can return hour -1. It does so exactly when the part below the hour becomes negative,
  is not a whole number of hours, and the hour it is borrowed from is midnight (`AddTimeDuration`,
  `TimeHourCanBeNegative`).
- `addDuration` undoes `durationBetween` exactly if the month count passes its filter (`BetweenThenAdd`); between the
  first and the last supported year it does not (`FarDatesAreRefused`).
- The comment at `temporal_value.cpp:775` says that after months and days the remainder is under a day. For two zoned
  datetimes the offsets add to the difference of the times of day. `RemainderReachesDay` says exactly when the time part
  is a day or more, `MixedSigns` exactly when it has the opposite sign of the days; `ZonedSignsDisagree` is an input.
- A backward interval on the wall clock has whole months back and something forward after them exactly if its end date
  is in an earlier month, on the clamped day of the start, at another time of day (`BackwardMixes`,
  `BackwardSignsDisagree`).
- `temporalLess` is a strict weak order inside one kind. Across kinds ties are not transitive, exactly when two
  different values of one kind are linked by a value of another (`TiesAcrossKinds`, `MixedKindsBreakWeakOrder`).
- A printed zone comes back exactly if the offset is under 100 hours and the name has no `]` (`PrintedDateTimeParses`,
  `PrintedZonesAreCut`).
- In `acquireGraph` the exit for a closed gate is never taken, because the gate is entered under the shared lock
  (`AcquireAdmits`).
- An empty node key never becomes a hub, because the chosen key is tested for truth (`IsHub`, `EmptyKeyIsNoHub`).
- Joining statements with a bare semicolon gives them back exactly if no statement but the last ends in a line comment
  (`BareSemicolonJoin`, `CommentTakesSemicolon`).
- The comment at `csv_reader.cpp:185-187` says that only certainly safe files are counted by physical lines. On files
  without quotes the count and the parser agree exactly under the condition of `AgreesExactly`. The two see different
  lines exactly if a NUL byte blanks a line or changes its field count (`ShapesCoincide`, `NulHidesRecord`), or if a byte
  order mark is kept; otherwise only a blank first line and a final bare carriage return matter
  (`AgreesOnHarmlessLines`, `BlankFirstLineDiffers`, `BareReturnDiffers`).
- The console's CSV comes back exactly if no printed line is empty and no byte order mark is stripped from the header
  (`ReadsBackExactly`, `EmptyCellIsLost`).
- `valueContentEquals` is documented as the total equivalence that hash containers need. It is reflexive exactly on
  values without NaN (`ReflexiveWithoutNan`). Symmetry fails exactly for values without NaN that hold a map with two
  entries of one key whose values round to equal ones (`SymmetryFailsExactly`). Transitivity fails from one value to
  another exactly if they differ while their integers, rounded to doubles, do not (`TransitivityFailsExactly`,
  `PromotionBreaksTransitivity`).
- What `valueEquals` finds equal `valueContentEquals` does (`TrueIsContentEqual`). The other way round it can call two
  values equal that `valueEquals` says are definitely different. A value has such a partner exactly if it holds no NaN
  and `Separable` finds, in some map, two entries of one key that differ in kind, size, keys or a scalar, or of which one
  is a double and the other an equal integer that shares it with a neighbour, or two entries that clash, in a map that
  holds more than nulls (`DisagreesExactly`, `RepeatedKeysDisagree`). So unique keys exclude it (`ContentAgrees`). Map
  literals cannot repeat a key; parameter maps can.
- Values that `valueContentEquals` finds equal can be hashed differently. A value has such a partner exactly if it holds
  no NaN and, at some depth, a number that an integer and a double share, an edge, or a map whose entries clash or are
  not all hashed alike (`HashDisagreesExactly`, `EqualNumbersHashApart`).
- `ColumnBuffer::reset` leaves the active vector shorter than the capacity exactly if the new size is below the capacity
  and the new kind's vector was (`Reset`, `ShortenedByReset`). A typed write past the capacity is lost exactly if the
  row's bit is cleared in a byte that exists (`SetTyped`, `NullBeforeWrite`). `setValue` with a value of the wrong kind
  makes the row valid and shows what the slot held before (`SetValue`, `MismatchRevealsOldSlot`).

## Model

| member | source | states |
|---|---|---|
| CppArithmetic.TruncatedDivision | src/common/types/temporal_value.cpp:164-189 | C++ `/` and `%` are the quotient and remainder with the dividend's sign |
| CppArithmetic.FloorFromTruncation | src/common/types/temporal_value.cpp:690-702 | the repair `if negative and inexact, subtract one` is floor division |
| Calendar.LeapYearRule | src/common/types/temporal_value.cpp:137-139 | the leap year test with truncating remainders is the Gregorian rule for every year |
| Calendar.EraIsFloor | src/common/types/temporal_value.cpp:164-189 | the two corrections for negative years together are floor division by 400 |
| Calendar.DaysFromCivilCounts | src/common/types/temporal_value.cpp:164-189 | daysFromCivil is the number of days counted from 1970-01-01, for every year, month and (possibly overflowing) day |
| Calendar.CivilByErasIsDate | src/common/types/temporal_value.cpp:191-202 | the era arithmetic finds the valid date of every integer day number |
| Calendar.ConversionsInverse | src/common/types/temporal_value.cpp:164-202 | the two conversions are inverse on every valid date of any year and on every day number |
| Calendar.CountDays | src/common/types/temporal_value.cpp:164-189 | daysFromCivil step by step in 64 bits, without overflow |
| Calendar.CivilFromDays | src/common/types/temporal_value.cpp:191-202 | civilFromDays step by step in 64 bits; only the shift of the origin can overflow |
| Calendar.EpochDayIncreasing | src/common/types/temporal_value.cpp:164-189 | a later valid date has a larger day number |
| Calendar.EpochDayOrders | src/common/types/temporal_value.cpp:164-189 | day numbers order valid dates as their fields do, and identify them |
| Calendar.NormalizeDate | src/common/types/temporal_value.cpp:150-162 | any month and any day roll over to the date with the same day count, in 64 bits |
| Calendar.YearOfMonthsIsFloor | src/common/types/temporal_value.cpp:690-702 | the year of a month count is rounded down for both signs and leaves a month 0..11 |
| Calendar.OrdinalToDate | src/common/types/temporal_value.cpp:1088-1096 | an ordinal within the year gives the date of 1 January plus ordinal - 1 (section 4.1.3 of ISO 8601:2004); beyond the year it is left in month 13, below 1 in January |
| Calendar.IsoWeekToDate | src/common/types/temporal_value.cpp:1077-1086 | the date is the given weekday of the given week, counted from the Monday of the week of 4 January |
| Calendar.WeekOneFacts | src/common/types/temporal_value.cpp:1077-1086 | 4 January lies in week 1 and week 1 holds the year's first Thursday (section 4.1.4 of ISO 8601:2004) |
| Calendar.WeekDateWeekday | src/common/types/temporal_value.cpp:1077-1086 | the date has the requested weekday, and week and weekday determine it uniquely |
| Calendar.WeekThursdayYear | src/common/types/temporal_value.cpp:1077-1086 | a week's Thursday within the year's weeks falls in the ISO year |
| Calendar.WeekDateRoundTrip | src/common/types/temporal_value.cpp:1077-1086 | every day is the date of its own week date |
| Temporal.LocalCoordinate | src/common/types/temporal_value.cpp:710-717 | localFieldsNanos is the reference day count times a day plus the time of day |
| Temporal.FieldOrderIsCoordinateOrder | src/common/types/temporal_value.cpp:264-325 | comparing fields is comparing nanosecond coordinates, and the coordinate determines the fields |
| Temporal.TemporalLessByCoordinates | src/common/types/temporal_value.cpp:243-325 | inside a kind temporalLess is the order of coordinates, of instant then wall clock for zoned values |
| Temporal.TemporalLessStrictWeakOrder | src/common/types/temporal_value.cpp:290-314 | inside a kind it is a strict weak order whose ties have equal local fields and offset |
| Temporal.TiesAcrossKinds | src/common/types/temporal_value.cpp:290-314 | ties fail to be transitive exactly when two different values of one kind are linked by a value of another |
| Temporal.MixedKindsBreakWeakOrder | src/common/types/temporal_value.cpp:290-314 | an input for TiesAcrossKinds: two dates and a local datetime |
| Temporal.TimeLessStrictWeakOrder | src/common/types/temporal_value.cpp:315-325 | the same for times of day |
| TemporalArithmetic.SupportedDays | src/common/types/temporal_value.cpp:329-439 | the day range the code tests is exactly the years -999999999 to 999999999 |
| TemporalArithmetic.ShiftMonthFields | src/common/types/temporal_value.cpp:329-439 | the month step lands on the clamped day of the target month, without overflow |
| TemporalArithmetic.SplitNanos | src/common/types/temporal_value.cpp:329-439 | truncating division repaired: the remainder is in [0, 1e9) and the total is kept |
| TemporalArithmetic.Carry | src/common/types/temporal_value.cpp:329-439 | carrying keeps the nanosecond sum, and what is carried past the hour is one truncating division |
| TemporalArithmetic.Borrow | src/common/types/temporal_value.cpp:441-488 | borrowing keeps the sum, makes minute, second and nanos non-negative, and says what the hour loses |
| TemporalArithmetic.AddDuration | src/common/types/temporal_value.cpp:329-439 | the wall clock moves by exactly days, seconds and nanos after the clamped month shift (a DATE by whole days), or the call fails exactly outside the component filter or the supported years; no 64-bit step overflows |
| TemporalArithmetic.AddTimeDuration | src/common/types/temporal_value.cpp:441-488 | for every duration whose seconds the 64-bit sums hold: right modulo 24 hours, lower fields normal, hour in -1..23, and -1 exactly under the stated condition |
| TemporalArithmetic.TimeHourCanBeNegative | src/common/types/temporal_value.cpp:462-479 | midnight minus one second meets that condition |
| TemporalArithmetic.NormalizeDurationNanos | src/common/types/temporal_value.cpp:537-557 | nanos end in [0, 1e9) with the total kept, or an error exactly if the seconds do not fit |
| TemporalArithmetic.ClampedMonths | src/common/types/temporal_value.cpp:690-702 | the shift adds exactly the months and clamps the day to the target month |
| TemporalArithmetic.ComputeEndDate | src/common/types/temporal_value.cpp:755-763 | the end date, one day back if its time of day is earlier |
| TemporalArithmetic.DurationBetween | src/common/types/temporal_value.cpp:730-799 | the months by packed comparison, the days left, and nanoseconds that account for everything left over; never fails or overflows on supported years |
| TemporalArithmetic.BetweenThenAdd | src/common/types/temporal_value.cpp:730-799 | for two dates or two local datetimes addDuration(a, durationBetween(a, b)) is b, exactly if the month count passes addDuration's filter |
| TemporalArithmetic.FarDatesAreRefused | src/common/types/temporal_value.cpp:334-337 | an input for BetweenThenAdd: the filter refuses the months between the first and the last supported year |
| TemporalArithmetic.ZonedBetweenThenAdd | src/common/types/temporal_value.cpp:730-799 | for two zoned datetimes the result is the instant of b in the zone of a, with the exact condition for its existence |
| TemporalArithmetic.ForwardMonths | src/common/types/temporal_value.cpp:730-799 | forward, the month count is the largest that does not pass the end date |
| TemporalArithmetic.ClampOrder | src/common/types/temporal_value.cpp:690-702 | clamping never moves past a date that the unclamped fields do not pass |
| TemporalArithmetic.ForwardBetween | src/common/types/temporal_value.cpp:730-799 | for a not after b on the wall clock no part is negative, the time part is under a day, and one month more would pass the end |
| TemporalArithmetic.MeasuredParts | src/common/types/temporal_value.cpp:764-799 | the days and the time part of the result from the dates and times of day of the two values |
| TemporalArithmetic.MixedSigns | src/common/types/temporal_value.cpp:764-799 | days and time part have opposite signs exactly if more than one day is left and the times of day, as instants, are more than a day apart the other way; never on the wall clock |
| TemporalArithmetic.RemainderReachesDay | src/common/types/temporal_value.cpp:775-790 | the time part is a day or more exactly if the times of day, as instants, are a day apart, or two against the days; never on the wall clock |
| TemporalArithmetic.ZonedSignsDisagree | src/common/types/temporal_value.cpp:764-799 | an input for both: eight days less 24 hours |
| TemporalArithmetic.BackwardMonths | src/common/types/temporal_value.cpp:755-767 | backward, the month count is the smallest number back that does not pass the end date |
| TemporalArithmetic.BackwardMixes | src/common/types/temporal_value.cpp:755-790 | a backward interval on the wall clock has something forward after its months exactly if the end date is in an earlier month, on the clamped day of the start, at another time of day |
| TemporalArithmetic.BackwardSignsDisagree | src/common/types/temporal_value.cpp:755-763 | an input for BackwardMixes: one month back and two hours on |
| Durations.FromTotal | src/common/types/temporal_value.cpp:530-557 | narrowing and normalising gives the canonical duration of the total, or fails exactly if a part does not fit |
| Durations.AddDurations | src/common/types/temporal_value.cpp:587-598 | the canonical sum of months, days and total nanoseconds |
| Durations.SubDurations | src/common/types/temporal_value.cpp:600-607 | the canonical difference |
| Durations.MulDuration | src/common/types/temporal_value.cpp:609-619 | the canonical multiple |
| Durations.CanonicalTriple | src/common/types/temporal_value.cpp:537-557 | canonical durations are exactly the triples of months, days and total nanoseconds |
| Durations.SumCommutes | src/common/types/temporal_value.cpp:587-598 | addition commutes, errors included |
| Durations.SumAssociates | src/common/types/temporal_value.cpp:587-598 | addition associates when both partial sums exist |
| Durations.ZeroIsNeutral | src/common/types/temporal_value.cpp:587-598 | zero is neutral |
| Durations.DifferenceUndoesSum | src/common/types/temporal_value.cpp:587-607 | subtraction undoes addition and the reverse |
| Durations.MultipleOfSum | src/common/types/temporal_value.cpp:587-619 | multiples distribute over sums |
| Durations.SumOfMultiples | src/common/types/temporal_value.cpp:587-619 | a sum of multiples is the multiple by the sum |
| Durations.MultipleOfMultiple | src/common/types/temporal_value.cpp:609-619 | multiples compose, and one is neutral |
| Durations.OrderNanosLinear | src/common/types/temporal_value.cpp:677-682 | the order weight is additive and compatible with multiples, hence keeps the order |
| TemporalText.FmtSubsecond | src/common/types/temporal_value.cpp:916-926 | the fraction with nine digits less its trailing zeros |
| CompactForms.CompactClockParses | src/common/types/temporal_value.cpp:1239-1251 | HHMMSS with any fraction and zone is read as that time of day; the zone is read, or ignored for a local time |
| CompactForms.CompactMinutesParse | src/common/types/temporal_value.cpp:1239-1251 | so is HHMM; a fraction after it is one of a second |
| CompactForms.HourParses | src/common/types/temporal_value.cpp:1252-1255 | and HH |
| CompactForms.CompactDateParses | src/common/types/temporal_value.cpp:1139-1144 | YYYYMMDD is read as its three numbers, for the years 0 to 9999 |
| CompactForms.MonthParses | src/common/types/temporal_value.cpp:1182-1186 | YYYY-MM is the first of the month, not an ordinal date |
| CompactForms.CompactMonthParses | src/common/types/temporal_value.cpp:1208-1213 | YYYYMM is the first of the month |
| CompactForms.YearParses | src/common/types/temporal_value.cpp:1214-1218 | YYYY is the first of January |
| CompactForms.CompactOrdinalParses | src/common/types/temporal_value.cpp:1197-1207 | YYYYDDD parses to the day of that number in the year |
| CompactForms.CompactWeekDateParses | src/common/types/temporal_value.cpp:1145-1181 | YYYYWwwD of any day of the ISO years 0 to 9999 parses to the day, YYYYWww and YYYY-Www to the Monday of its week |
| CompactForms.CompactMeansPrinted | src/common/types/temporal_value.cpp:1339-1382 | a datetime written without separators is read as its printed text is, zone included |
| TemporalParser.ScanSeparatedClock | src/common/types/temporal_value.cpp:1252-1270 | the clock with separators: an hour of any length, then minute and second with optional colons |
| TemporalParser.ScanFraction | src/common/types/temporal_value.cpp:1225-1306 | the fraction is its first nine digits, filled with zeros |
| TemporalRoundTrip.NamedZoneRead | src/common/types/temporal_value.cpp:1280-1304 | a bracketed name is taken off the offset before it, refused where names are not allowed, and an unreadable offset is an error first |
| TemporalRoundTrip.UnnamedZoneRead | src/common/types/temporal_value.cpp:1280-1304 | without a closed pair of brackets the whole text is the offset |
| TemporalParser.ParseTimeStr | src/common/types/temporal_value.cpp:1225-1306 | the time parser with its error cases |
| TemporalParser.ParseDateFromString | src/common/types/temporal_value.cpp:1102-1221 | the date parser over all its forms, with its error cases and range check |
| TemporalParser.ParseDatetimeStr | src/common/types/temporal_value.cpp:1339-1382 | the datetime parser with its error cases |
| TemporalRoundTrip.OffsetRoundTrip | src/common/types/temporal_value.cpp:928-959 | a printed offset is read back modulo 100 hours |
| TemporalRoundTrip.ZoneRoundTrip | src/common/types/temporal_value.cpp:928-959 | a printed zone is read back as its offset and its name up to the first closing bracket |
| TemporalRoundTrip.FractionRoundTrip | src/common/types/temporal_value.cpp:916-926 | cutting trailing zeros loses nothing for the reader |
| TemporalRoundTrip.PrintedDateParses | src/common/types/temporal_value.cpp:968-982 | every normal date is read back from its text |
| TemporalRoundTrip.PrintedDateTimeReadBack | src/common/types/temporal_value.cpp:968-982 | what comes back of any printed datetime, in both forms |
| TemporalRoundTrip.PrintedDateTimeParses | src/common/types/temporal_value.cpp:968-999 | the datetime comes back exactly if its offset is under 100 hours and its zone name has no closing bracket |
| TemporalRoundTrip.PrintedZonesAreCut | src/common/types/temporal_value.cpp:968-999 | an input for it: a name with a bracket is cut, an offset of 100 hours is lost |
| TemporalRoundTrip.PrintedTimeParses | src/common/types/temporal_value.cpp:984-1007 | the same for times of day, where a zone name must also be allowed |
| TemporalRoundTrip.PrintedWeekDateParses | src/common/types/temporal_value.cpp:1111-1221 | the week date of any day of the ISO years 0 to 9999 parses to the day |
| TemporalRoundTrip.PrintedOrdinalParses | src/common/types/temporal_value.cpp:1111-1221 | the ordinal date of any day of the years 0 to 9999 parses to the day |
| UsageGate.GraphUsageGate.TryEnter | src/common/concurrency/graph_usage_gate.hpp:67-73 | an open gate counts the user and hands out a valid guard, a closed one an empty guard |
| UsageGate.GraphUsageGate.CloseGate | src/common/concurrency/graph_usage_gate.hpp:76-79 | the gate is closed and the count stays |
| UsageGate.GraphUsageGate.LeaveGate | src/common/concurrency/graph_usage_gate.hpp:103-109 | one user fewer, never below zero |
| UsageGate.Guard.Release | src/common/concurrency/graph_usage_gate.hpp:54-60 | a valid guard gives its place back once and is empty afterwards |
| UsageGate.Guard.Move | src/common/concurrency/graph_usage_gate.hpp:28-30 | the place changes hands and the source is empty |
| UsageGate.Guard.MoveAssign | src/common/concurrency/graph_usage_gate.hpp:31-39 | the own place is given back, the other taken over; self-assignment does nothing |
| GraphProtocol.InitInv | src/graph/graph_manager.cpp:20-102 | the invariant holds once the catalog's graphs are open |
| GraphProtocol.StepKeepsInv | src/graph/graph_manager.cpp:104-393 | every step keeps it: counts equal live leases, mapped instances have open gates, program points and owners agree, the checkpoint works on mapped instances |
| GraphProtocol.RunKeepsInv | src/graph/graph_manager.cpp:104-393 | it holds in every state of every run |
| GraphProtocol.ExactlyOneOwner | src/graph/graph_manager.cpp:104-227 | an instance is in the map, or at the program point of one dropping or shutting-down thread, or leaked, or destroyed |
| GraphProtocol.DestroyedIsUnused | src/graph/graph_manager.cpp:186-227 | a destroyed instance has a closed gate, no live lease, nobody between lookup and entry, and no checkpoint on it |
| GraphProtocol.OneWay | src/graph/graph_manager.cpp:104-227 | closed gates stay closed, removed instances never return and only lose leases, leaked and destroyed are final |
| GraphProtocol.LeasesShrink | src/graph/graph_manager.cpp:167-245 | an instance outside the map gains no lease |
| GraphProtocol.ConnectionsCloseSafely | src/graph/graph_manager.cpp:104-227 | in every run, from the moment a connection is closed nobody uses the instance, then or later |
| GraphProtocol.LeaseKeepsAlive | src/graph/graph_manager.cpp:234-245 | in every run, a live lease's instance is not destroyed |
| GraphProtocol.AcquireAdmits | src/graph/graph_manager.cpp:234-245 | in every run, entering under the shared lock finds the gate open |
| GraphProtocol.CheckpointWorksOnMapped | src/graph/graph_manager.cpp:360-376 | in every run, a checkpoint touches only mapped instances with open gates |
| Components.DisjointSets.constructor | web/src/graph-data.ts:120-120 | every node alone |
| Components.DisjointSets.Find | web/src/graph-data.ts:104-113 | returns the representative, terminates, and path compression leaves the partition as it was |
| Components.DisjointSets.Union | web/src/graph-data.ts:114-118 | exactly the two classes are merged, under the second one's representative |
| Components.LinkMergesAll | web/src/graph-data.ts:114-118 | linking one root under another merges their trees and changes no other root |
| Components.MergedRepresents | web/src/graph-data.ts:121-121 | merging the ends of an edge accounts for the edge |
| Components.ConnectAll | web/src/graph-data.ts:120-121 | after all edges every node is connected to its representative and edge ends share one |
| Components.SameRootIffConnected | web/src/graph-data.ts:103-121 | two nodes share a representative exactly if an undirected path joins them |
| Components.GroupByRoot | web/src/graph-data.ts:123-129 | one group for each representative, holding its nodes in order |
| Components.MembersAreComponent | web/src/graph-data.ts:123-129 | a group is the connected component of each of its nodes |
| Components.ChooseCenter | web/src/graph-data.ts:133-141 | the first node of maximal degree |
| Components.LargeComponentDegree | web/src/graph-data.ts:142-145 | a component of three nodes has a node with two edge ends, so the degree test never fails |
| Components.HighlightComponentCenters | web/src/graph-data.ts:102-147 | a node becomes a hub exactly if it is the first of maximal degree in a component of at least three nodes and its key is not empty |
| Components.OneHubPerComponent | web/src/graph-data.ts:131-146 | such a component has exactly one candidate, of maximal degree |
| Components.EmptyKeyIsNoHub | web/src/graph-data.ts:142-145 | an input: a star around an empty key has no hub |
| StatementSplitter.SplitStatements | web/src/meta.ts:20-85 | the index loop returns the trimmed non-blank pieces between top-level semicolons |
| StatementSplitter.PiecesRejoin | web/src/meta.ts:20-85 | the untrimmed pieces joined by semicolons are the input, and none has a top-level semicolon |
| StatementSplitter.JoinedPiecesSplit | web/src/meta.ts:20-85 | conversely every list of such pieces is the cutting of its join |
| StatementSplitter.TrimmedPiece | web/src/meta.ts:73-84 | trimming a piece keeps it free of breaks and leaves it at top level or in a line comment |
| StatementSplitter.SplitJoinIdentity | web/src/meta.ts:20-85 | splitting the statements joined with newline-semicolon gives the statements, for every input |
| StatementSplitter.ResultsOfSplitting | web/src/meta.ts:20-85 | exactly which lists the splitter can return |
| StatementSplitter.StatementStaysWhole | web/src/meta.ts:16-19 | a statement has no top-level semicolon: split alone, it stays whole |
| StatementSplitter.BareSemicolonJoin | web/src/meta.ts:20-85 | with a bare semicolon the round trip holds exactly if no statement but the last ends in a line comment |
| StatementSplitter.CommentTakesSemicolon | web/src/meta.ts:20-85 | an input for it: a comment and a statement come back as one |
| CsvReader.ResolveDelimiter | src/program/loader/csv_reader.cpp:154-170 | accepts exactly the usable delimiters, and what it returns clashes with no line end or quote |
| CsvReader.EndRow | src/program/loader/csv_reader.cpp:70-90 | a finished record is the header, a row, or a field count error |
| CsvReader.ParseCsv | src/program/loader/csv_reader.cpp:39-150 | the character loop delivers header and rows with line numbers, or the first error |
| CsvCount.CountFields | src/program/loader/csv_reader.cpp:190-197 | the find loop counts delimiters from the left without overlap |
| CsvCount.TryCountByPhysicalLines | src/program/loader/csv_reader.cpp:188-233 | the line loop counts, fails or gives up as specified line by line |
| CsvCount.CountCsvRecords | src/program/loader/csv_reader.cpp:237-244 | the number of records that the parser delivers, or its error, under the conditions of CountIsParse; in any case the fast count where there is one, else the parser's |
| CsvCount.ScanContent | src/program/loader/csv_reader.cpp:90-142 | the parser cuts a line without quotes into as many fields as the counter counts |
| CsvCount.FirstLineSplits | src/program/loader/csv_reader.cpp:90-142 | a line without quotes is one record, or nothing if it is blank, for both line ends |
| CsvCount.BodyAgrees | src/program/loader/csv_reader.cpp:188-233 | from any line on, the two agree until the fast path gives up |
| CsvCount.CountIsParse | src/program/loader/csv_reader.cpp:188-243 | if both see a header with one field count, no further line is changed by the cut at a NUL byte, and the last is no bare carriage return, the count is the parser's number of rows, or the same error at the same line |
| CsvCount.CountIsParseWithoutNul | src/program/loader/csv_reader.cpp:188-243 | so it is for every text without NUL bytes and without a kept byte order mark whose first line is not blank and whose last is no bare carriage return |
| CsvAgreement.SplitPlain | src/program/loader/csv_reader.cpp:90-150 | without quotes the parser's records are the non-blank lines, plus a bare carriage return at the end |
| CsvAgreement.AgreesExactly | src/program/loader/csv_reader.cpp:188-243 | on every text without quotes the two agree exactly if their headers and their lists of lines lead to the same first misfit, or to none and the same length |
| CsvAgreement.ShapesCoincide | src/program/loader/csv_reader.cpp:204-216 | the two lists of lines are the same exactly if no cut at a NUL byte blanks a line or changes its field count |
| CsvAgreement.AgreesOnHarmlessLines | src/program/loader/csv_reader.cpp:188-243 | if so, the two agree exactly under the stated condition on the first line, the end and the field counts |
| CsvAgreement.BareReturnDiffers | src/program/loader/csv_reader.cpp:188-243 | an input: a bare carriage return at the end |
| CsvAgreement.BlankFirstLineDiffers | src/program/loader/csv_reader.cpp:208-212 | an input: a blank first line |
| CsvAgreement.NulHidesRecord | src/program/loader/csv_reader.cpp:204-216 | an input: a NUL byte that blanks a line |
| CsvRoundTrip.RecordsToCsv | web/src/format.ts:193-199 | the writer's loop gives header and rows as lines closed by a line feed |
| CsvRoundTrip.CellReadBack | web/src/format.ts:187-191 | a written cell is read back whole, with quotes, commas, CR and LF |
| CsvRoundTrip.RowReadBack | web/src/format.ts:193-199 | a written row is read back as its cells; only the blank one is skipped |
| CsvRoundTrip.TableReadBack | src/program/loader/csv_reader.cpp:39-150 | a table without a blank row comes back with the line number of each row (section 2 of RFC 4180) |
| CsvRoundTrip.ReadsBackExactly | src/program/loader/csv_reader.cpp:39-150 | writing and reading is the identity exactly if no printed line is empty and no byte order mark is taken off |
| CsvRoundTrip.EmptyCellIsLost | web/src/format.ts:187-199 | an input: one column with one empty cell |
| CsvRoundTrip.BlankTables | web/src/format.ts:193-199 | two columns are always enough; one column is, if no cell is empty |
| Promotion.PromoteExact | src/query/dataset/row.hpp:325-329 | up to 2^53 an integer is promoted to a double without change |
| Promotion.PromoteMonotone | src/query/dataset/row.hpp:325-329 | promotion keeps the order of integers, up to ties |
| Promotion.SharesDoubleExactly | src/query/dataset/row.hpp:325-329 | an integer shares its double with another exactly if it shares it with a neighbour |
| ThreeValued.ValueEquals | src/query/dataset/row.hpp:218-338 | null is unknown, containers are three-valued conjunctions, a map entry meets the first entry of its key |
| ThreeValued.ValueContentEquals | src/query/dataset/row.hpp:347-402 | null equals null, a map entry may match any entry of its key |
| ThreeValued.DefiniteAnswersStay | src/query/dataset/row.hpp:218-338 | a definite answer stays whatever the nested nulls are replaced by |
| ThreeValued.UnknownCanBeFalse | src/query/dataset/row.hpp:218-338 | an unknown answer becomes false for some replacement |
| ThreeValued.TrueIsContentEqual | src/query/dataset/row.hpp:347-402 | what the query comparison finds equal the total equality does, whatever the keys |
| ThreeValued.ContentAgrees | src/query/dataset/row.hpp:347-402 | the total equality agrees with every definite answer when the maps of one side have unique keys |
| HashDisagreement.DisagreesExactly | src/query/dataset/row.hpp:218-402 | a value has a partner that is equal as a hash key yet definitely different for queries exactly if it holds no NaN and can be separated from itself |
| HashDisagreement.Separate | src/query/dataset/row.hpp:218-402 | whatever can be separated has such a partner: it equals the one value and definitely differs from the other |
| HashDisagreement.Separated | src/query/dataset/row.hpp:218-402 | conversely such a partner shows that the value can be separated, from the other or from itself |
| HashDisagreement.JoinedValues | src/query/dataset/row.hpp:340-402 | two values that equal a third have equal roundings, unless they can be separated |
| ThreeValued.RepeatedKeysDisagree | src/query/dataset/row.hpp:366-385 | an input for DisagreesExactly and for SymmetryFailsExactly: one key twice, true and true against false and true |
| HashEquality.ReflexiveWithoutNan | src/query/dataset/row.hpp:340-402 | a value equals itself exactly if it holds no NaN |
| HashEquality.ClashFreeSymmetric | src/query/dataset/row.hpp:340-402 | equality can be turned around unless a map of the left value has two entries of one key with values that round to equal ones |
| HashEquality.ContentSymmetric | src/query/dataset/row.hpp:340-402 | in particular when the left value's maps have unique keys |
| HashEquality.SymmetryFailsExactly | src/query/dataset/row.hpp:340-402 | a value equals something that does not equal it back exactly if it holds no NaN and such a clash |
| HashEquality.LinkedExactly | src/query/dataset/row.hpp:340-402 | two values are linked by a third exactly if the first holds no NaN and they are equal with integers rounded to doubles |
| HashEquality.TransitivityFailsExactly | src/query/dataset/row.hpp:340-402 | so transitivity fails from one value to another exactly if they are linked and differ |
| HashEquality.PromotionBreaksTransitivity | src/query/dataset/row.hpp:325-329 | an input for it: 2^53, its double, and 2^53 + 1 |
| ValueHashing.HashDisagreesExactly | src/query/dataset/row.hpp:484-551 | a value has a partner that is equal as a hash key yet hashed from different input exactly if it holds no NaN and is unstable |
| ValueHashing.StableIsHashedAlike | src/query/dataset/row.hpp:484-551 | whatever equals a stable value, reordered maps included, goes into the hash as it does |
| ValueHashing.EqualNumbersHashApart | src/query/dataset/row.hpp:493-497 | an input: one, as an integer and as a double |
| RangeScan.Position | src/storage/wt_table_ops.cpp:90-117 | whichever neighbour search_near gives, the cursor ends on the first key of the range |
| RangeScan.ScanRange | src/storage/wt_table_ops.cpp:88-139 | the callback receives exactly the entries of the walk up to its first refusal; after an engine error, a prefix of them |
| RangeScan.WalkIsRange | src/storage/wt_table_ops.cpp:88-139 | on a sorted table with an order-preserving view the walk is exactly the entries in the range, in order |
| RangeScan.RangeMembers | src/storage/wt_table_ops.cpp:88-139 | those are the table's entries at or after (after, if exclusive) the start whose view is before the end |
| RangeScan.ScanPrefix | src/storage/wt_table_ops.cpp:142-148 | the caller's callback receives exactly the entries with the prefix up to its first refusal |
| RangeScan.PrefixBlock | src/storage/wt_table_ops.cpp:142-148 | keys with a prefix are one block of the order |
| RangeScan.PrefixMembers | src/storage/wt_table_ops.cpp:142-148 | the prefix scan's entries are those of the table whose key has the prefix |
| Bitmap.BitsOfRows | src/query/dataset/data_chunk.hpp:302-330 | setting or clearing a row's bit changes no other row's |
| ColumnStorage.ColumnBuffer.Reserve | src/query/dataset/data_chunk.hpp:218-224 | rows within the capacity stay; new rows are valid except where a cleared bit was already there |
| ColumnStorage.ColumnBuffer.Reset | src/query/dataset/data_chunk.hpp:228-238 | the first rows are valid defaults, and whether the new vector covers the capacity |
| ColumnStorage.ColumnBuffer.CopyFrom | src/query/dataset/data_chunk.hpp:242-300 | rows up to the count equal the source's, rows from the next byte boundary on are unchanged, and what happens to the rows between |
| ColumnStorage.ColumnBuffer.SetNull | src/query/dataset/data_chunk.hpp:308-312 | only the row's value changes, to null |
| ColumnStorage.ColumnBuffer.SetTyped | src/query/dataset/data_chunk.hpp:335-340 | within the capacity only the row changes, to the value; past it the write shows unless the row's bit was cleared before |
| ColumnStorage.ColumnBuffer.SetValue | src/query/dataset/data_chunk.hpp:474-542 | null, the value converted as C++ does (an integer rounded to a double, a double truncated), or on a kind mismatch the old slot made visible; no other row changes |
| ColumnStorage.NullBeforeWrite | src/query/dataset/data_chunk.hpp:308-340 | an input for the lost write of SetTyped |
| ColumnStorage.ShortenedByReset | src/query/dataset/data_chunk.hpp:228-238 | an input for Reset: two integer rows, then one string row |
| ColumnStorage.MismatchRevealsOldSlot | src/query/dataset/data_chunk.hpp:474-542 | an input for SetValue: a string for an integer column brings back what a null had covered |
| Columns.SelectionVector.Filter | src/query/dataset/data_chunk.hpp:46-55 | the kept row numbers in order, in 32 bits |
| Columns.KeptRows | src/query/dataset/data_chunk.hpp:46-55 | the kept rows are strictly increasing and exactly those the predicate holds for |
| Columns.KeptAreFiltered | src/query/dataset/data_chunk.hpp:46-55 | reading rows through the kept numbers is filtering the rows |
| Columns.FilterColumn | src/query/dataset/data_chunk.hpp:603-610 | a dictionary column over a filter reads exactly the kept rows in order, every one whose number fits 32 bits |
| Columns.Column.SetNull | src/query/dataset/data_chunk.hpp:652-662 | a flat column changes one row, a constant one loses its value, a dictionary is left alone |
| Columns.NullReads | src/query/dataset/data_chunk.hpp:665-706 | getValue reads null exactly if isNull does or the slot has no payload |

## Left out

- AddTimeDuration: takes a normal time of day and durations for which the code's 64-bit second sums do not overflow; beyond them the C++ is undefined.
- SubDurations: asks that no part of the right operand is INT64_MIN, which the code negates in 64 bits.
- MulDuration: asks that the product fits 128 bits.
- CountDays: takes years within 2.5e16, days within 5e16 and months within 1000, well inside 64 bits and beyond every caller.
- NormalizeDate: takes years and months within 1e16 and days within 4e18, for the same reason.
- ClampMonths: takes month sums that fit 64 bits; those measured between supported years do.
- IsoWeekToDate: in unbounded integers, because the parser passes it whatever number it has read; a week date with a year beyond 1e16 overflows in C++.
- AgreesExactly: takes lines that fit the reader's buffer; with a longer one the fast path gives up and the parser counts.
- SetValue: takes only doubles that fit 64 bits into an INT64 column; casting others is undefined in C++.
- Reset: reading past the active vector after a reset is not modelled, because it is undefined in C++.
- Floating-point durations (multiplying and dividing by a double, integer division of a duration, fractional duration text), duration printing and parsing.
- Named time zones: the zone database lookup is not part of this model; a name is carried along as text.
- Equality of datetimes compares zone name handles in C++; the model compares the name.
- Overflow inside the text parsers' arithmetic for absurdly long numbers (an hour count that does not fit after multiplying by 3600, huge ISO week numbers).
- datetimeFromEpoch, field accessors, truncation and the remaining temporal functions: each is a small use of the calendar that is proved here.
- The timed wait of waitDrained: its answer is nondeterministic, true exactly when nobody is in flight at that moment.
- The session pool: whether sessions are outstanding is a nondeterministic answer at the step that asks.
- Opening stores, catalog storage, directory deletion and logging in the graph manager; createGraph's failure is a step without effect.
- The iteration order of a JavaScript Map: the groups are independent, so the model takes them in any order. graphology counts a self-loop twice in a degree, and so does the model.
- JavaScript strings are UTF-16 units and the model's are characters; none of the characters the splitter looks at is a surrogate.
- formatValue: the text of a CSV cell is given; truncation of long values happens before.
- The block buffer of the line reader: modelled as physical lines with one trailing carriage return stripped and a length limit.
- Temporal, path topology and byte payloads of runtime values are opaque contents; a double is a real, an infinity or NaN, and which reals are doubles matters only where an integer is rounded to one. Zero has one representation.
- ValueHash: what goes into a hash is modelled, not the number that comes out, so inputs that collide by accident count as different.
- compareValues: three-valued order, close to valueEquals.
- The storage engine: a cursor is an index into a sorted table; its errors and the neighbour that search_near chooses are nondeterministic.
- ColumnBuffer: the typed vectors are a map from a vector's name to its slots, and the typed setters are one method.
- List comparison kernels, session management, key codecs, the planner and the user interface.
