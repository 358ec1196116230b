/** The duration algebra (temporal_value.cpp, "Arithmetic: Duration +/- Duration"). A duration whose
    nanoseconds lie in [0, 1e9) stands for three integers: months, days and total nanoseconds. The methods
    are proved against `Canonical`, which builds the duration of such a triple or fails, and the laws of
    the algebra are those of the triples. */
module Durations {
  import opened CppArithmetic
  import opened Temporal
  import opened TemporalArithmetic

  predicate Int64(x: int) {
    INT64_MIN <= x <= INT64_MAX
  }

  predicate IsCanonical(d: Duration) {
    0 <= d.nanos < NANOS_PER_SECOND
  }

  /** The canonical duration of a triple, if its parts fit 64 bits. */
  function Canonical(months: int, days: int, total: int): Result<Duration> {
    if Int64(months) && Int64(days) && Int64(total / NANOS_PER_SECOND)
    then Ok(Duration(months, days, total / NANOS_PER_SECOND, total % NANOS_PER_SECOND))
    else Err(Argument)
  }

  function Sum(a: Duration, b: Duration): Result<Duration> {
    Canonical(a.months + b.months, a.days + b.days, TotalNanos(a) + TotalNanos(b))
  }

  function Difference(a: Duration, b: Duration): Result<Duration> {
    Canonical(a.months - b.months, a.days - b.days, TotalNanos(a) - TotalNanos(b))
  }

  function Multiple(a: Duration, k: int): Result<Duration> {
    Canonical(a.months * k, a.days * k, TotalNanos(a) * k)
  }

  /** checkedNarrow: a 128-bit intermediate back to 64 bits, or an error. */
  function CheckedNarrow(x: int128): Result<int64> {
    if x > INT64_MAX || x < INT64_MIN then Err(Argument) else Ok(x)
  }

  /** Narrowing the truncated seconds and then normalising fails exactly when the floored seconds do not
      fit. */
  method FromTotal(months: int64, days: int64, total: int128) returns (r: Result<Duration>)
    ensures r == Canonical(months, days, total)
  {
    hide TDiv, TMod;
    TruncatedDivision(total, NANOS_PER_SECOND);
    var seconds := CheckedNarrow(TDiv(total, NANOS_PER_SECOND));
    var nanos: int64 := TMod(total, NANOS_PER_SECOND);
    DivUnique(total, NANOS_PER_SECOND, TDiv(total, NANOS_PER_SECOND) - (if nanos < 0 then 1 else 0));
    if seconds.Err? {
      return Err(Argument);
    }
    r := NormalizeDurationNanos(Duration(months, days, seconds.value, nanos));
  }

  method AddDurations(a: Duration, b: Duration) returns (r: Result<Duration>)
    ensures r == Sum(a, b)
  {
    var months := CheckedNarrow(a.months + b.months);
    if months.Err? {
      return Err(Argument);
    }
    var days := CheckedNarrow(a.days + b.days);
    if days.Err? {
      return Err(Argument);
    }
    var total: int128 := TotalNanos(a) + TotalNanos(b);
    r := FromTotal(months.value, days.value, total);
  }

  /** The components of the right operand are negated in 64 bits, so none may be INT64_MIN. */
  method SubDurations(a: Duration, b: Duration) returns (r: Result<Duration>)
    requires INT64_MIN !in {b.months, b.days, b.seconds, b.nanos}
    ensures r == Difference(a, b)
  {
    var negative := Duration(-b.months, -b.days, -b.seconds, -b.nanos);
    r := AddDurations(a, negative);
  }

  method MulDuration(d: Duration, factor: int64) returns (r: Result<Duration>)
    requires -0x8000_0000_0000_0000_0000_0000_0000_0000 <= TotalNanos(d) * factor
    requires TotalNanos(d) * factor <= 0x7FFF_FFFF_FFFF_FFFF_FFFF_FFFF_FFFF_FFFF
    ensures r == Multiple(d, factor)
  {
    ProductFits(d.months, factor);
    ProductFits(d.days, factor);
    var months := CheckedNarrow(d.months * factor);
    if months.Err? {
      return Err(Argument);
    }
    var days := CheckedNarrow(d.days * factor);
    if days.Err? {
      return Err(Argument);
    }
    var total: int128 := TotalNanos(d) * factor;
    r := FromTotal(months.value, days.value, total);
  }

  lemma ProductFits(x: int, y: int)
    requires Int64(x) && Int64(y)
    ensures -0x8000_0000_0000_0000_0000_0000_0000_0000 <= x * y <= 0x7FFF_FFFF_FFFF_FFFF_FFFF_FFFF_FFFF_FFFF
  {
    var m := 0x8000_0000_0000_0000;
    var ax := if x < 0 then -x else x;
    var ay := if y < 0 then -y else y;
    assert ax * ay <= m * ay <= m * m by {
      MulMonotone(ax, m, ay);
      MulMonotone(ay, m, m);
    }
    assert x * y == ax * ay || x * y == -(ax * ay);
  }

  lemma MulMonotone(a: int, b: int, c: int)
    requires a <= b && c >= 0
    ensures a * c <= b * c
  {
    assert (b - a) * c >= 0;
  }

  /** durationOrderNanos: a month counts 365.2425 / 12 days. The result type says it fits 128 bits. */
  function OrderNanos(d: Duration): int128 {
    (d.months * 2_629_746 + d.days * 86_400 + d.seconds) * NANOS_PER_SECOND + d.nanos
  }

  // ---------- laws ----------

  /** Canonical durations and triples correspond one to one. */
  lemma CanonicalTriple(d: Duration)
    requires IsCanonical(d)
    ensures Canonical(d.months, d.days, TotalNanos(d)) == Ok(d)
  {
    DivUnique(TotalNanos(d), NANOS_PER_SECOND, d.seconds);
  }

  lemma TripleOf(months: int, days: int, total: int)
    requires Canonical(months, days, total).Ok?
    ensures var d := Canonical(months, days, total).value;
            IsCanonical(d) && d.months == months && d.days == days && TotalNanos(d) == total
  {
  }

  lemma SumCommutes(a: Duration, b: Duration)
    ensures Sum(a, b) == Sum(b, a)
  {
  }

  /** The two groupings agree whenever both partial sums exist; otherwise only the failing side is lost. */
  lemma SumAssociates(a: Duration, b: Duration, c: Duration)
    requires Sum(a, b).Ok? && Sum(b, c).Ok?
    ensures Sum(Sum(a, b).value, c) == Sum(a, Sum(b, c).value)
  {
    TripleOf(a.months + b.months, a.days + b.days, TotalNanos(a) + TotalNanos(b));
    TripleOf(b.months + c.months, b.days + c.days, TotalNanos(b) + TotalNanos(c));
  }

  lemma ZeroIsNeutral(a: Duration)
    requires IsCanonical(a)
    ensures Sum(a, Duration(0, 0, 0, 0)) == Ok(a)
  {
    CanonicalTriple(a);
  }

  /** Subtraction undoes addition, and addition undoes subtraction. */
  lemma DifferenceUndoesSum(a: Duration, b: Duration)
    requires IsCanonical(a)
    ensures Sum(a, b).Ok? ==> Difference(Sum(a, b).value, b) == Ok(a)
    ensures Difference(a, b).Ok? ==> Sum(Difference(a, b).value, b) == Ok(a)
  {
    CanonicalTriple(a);
    if Sum(a, b).Ok? {
      TripleOf(a.months + b.months, a.days + b.days, TotalNanos(a) + TotalNanos(b));
    }
    if Difference(a, b).Ok? {
      TripleOf(a.months - b.months, a.days - b.days, TotalNanos(a) - TotalNanos(b));
    }
  }

  lemma Distribute(x: int, y: int, k: int)
    ensures (x + y) * k == x * k + y * k
  {
  }

  /** A multiple of a sum is the sum of the multiples, whenever the partial results exist. */
  lemma MultipleOfSum(a: Duration, b: Duration, k: int)
    requires Sum(a, b).Ok? && Multiple(a, k).Ok? && Multiple(b, k).Ok?
    ensures Multiple(Sum(a, b).value, k) == Sum(Multiple(a, k).value, Multiple(b, k).value)
  {
    hide Canonical, TotalNanos;
    Distribute(a.months, b.months, k);
    Distribute(a.days, b.days, k);
    Distribute(TotalNanos(a), TotalNanos(b), k);
    TripleOf(a.months + b.months, a.days + b.days, TotalNanos(a) + TotalNanos(b));
    TripleOf(a.months * k, a.days * k, TotalNanos(a) * k);
    TripleOf(b.months * k, b.days * k, TotalNanos(b) * k);
  }

  /** A sum of multiples is the multiple by the sum. */
  lemma SumOfMultiples(a: Duration, k: int, l: int)
    requires Multiple(a, k).Ok? && Multiple(a, l).Ok?
    ensures Sum(Multiple(a, k).value, Multiple(a, l).value) == Multiple(a, k + l)
  {
    hide Canonical, TotalNanos;
    Distribute(k, l, a.months);
    Distribute(k, l, a.days);
    Distribute(k, l, TotalNanos(a));
    TripleOf(a.months * k, a.days * k, TotalNanos(a) * k);
    TripleOf(a.months * l, a.days * l, TotalNanos(a) * l);
  }

  lemma MultipleOfMultiple(a: Duration, k: int, l: int)
    requires Multiple(a, k).Ok?
    ensures Multiple(Multiple(a, k).value, l) == Multiple(a, k * l)
    ensures IsCanonical(a) ==> Multiple(a, 1) == Ok(a)
  {
    TripleOf(a.months * k, a.days * k, TotalNanos(a) * k);
    assert a.months * k * l == a.months * (k * l);
    assert a.days * k * l == a.days * (k * l);
    assert TotalNanos(a) * k * l == TotalNanos(a) * (k * l);
    if IsCanonical(a) {
      CanonicalTriple(a);
    }
  }

  /** The order weight is linear, so sums and positive multiples keep the order. */
  lemma OrderNanosLinear(a: Duration, b: Duration, k: int)
    ensures Sum(a, b).Ok? ==> OrderNanos(Sum(a, b).value) == OrderNanos(a) + OrderNanos(b)
    ensures Multiple(a, k).Ok? ==> OrderNanos(Multiple(a, k).value) == OrderNanos(a) * k
  {
    if Sum(a, b).Ok? {
      TripleOf(a.months + b.months, a.days + b.days, TotalNanos(a) + TotalNanos(b));
    }
    if Multiple(a, k).Ok? {
      var r := Multiple(a, k).value;
      TripleOf(a.months * k, a.days * k, TotalNanos(a) * k);
      OrderWeight(a);
      OrderWeight(r);
      var w := a.months * 2_629_746 + a.days * 86_400;
      Distribute(a.months * 2_629_746, a.days * 86_400, k);
      Distribute(w * NANOS_PER_SECOND, TotalNanos(a), k);
      assert a.months * 2_629_746 * k == a.months * k * 2_629_746;
      assert a.days * 86_400 * k == a.days * k * 86_400;
      assert w * NANOS_PER_SECOND * k == w * k * NANOS_PER_SECOND;
    }
  }

  lemma OrderWeight(a: Duration)
    ensures OrderNanos(a) == (a.months * 2_629_746 + a.days * 86_400) * NANOS_PER_SECOND + TotalNanos(a)
  {
  }
}
