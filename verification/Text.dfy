/** The parts of std::string and std::stoll that the temporal printer and parser use. */
module Text {
  import opened CppArithmetic
  import opened TemporalArithmetic

  predicate IsDigit(c: char) {
    '0' <= c <= '9'
  }

  predicate AllDigits(s: string) {
    forall i | 0 <= i < |s| :: IsDigit(s[i])
  }

  predicate IsSpace(c: char) {
    c == ' ' || '\t' <= c <= '\r'
  }

  /** The first `n` characters, or all of them if there are fewer. */
  function Take(s: string, n: nat): string {
    if n <= |s| then s[..n] else s
  }

  function Drop(s: string, n: nat): string {
    if n <= |s| then s[n..] else ""
  }

  /** How many leading characters are digits. */
  function DigitPrefix(s: string): (n: nat)
    ensures n <= |s| && AllDigits(s[..n])
    ensures n < |s| ==> !IsDigit(s[n])
  {
    if s == "" || !IsDigit(s[0]) then 0 else 1 + DigitPrefix(s[1..])
  }

  function SpacePrefix(s: string): (n: nat)
    ensures n <= |s|
  {
    if s == "" || !IsSpace(s[0]) then 0 else 1 + SpacePrefix(s[1..])
  }

  /** The number that digits denote when read after the digits of `acc`. */
  function DigitsFrom(acc: int, s: string): (r: int)
    requires AllDigits(s)
    ensures acc >= 0 ==> r >= acc
    decreases |s|
  {
    if s == "" then acc else DigitsFrom(acc * 10 + (s[0] as int - '0' as int), s[1..])
  }

  /** std::stoll: white space, an optional sign, a run of digits; what follows the run is ignored. */
  function Stoll(s: string): Result<int64> {
    var t := s[SpacePrefix(s)..];
    var signed := t != "" && (t[0] == '-' || t[0] == '+');
    var u := if signed then t[1..] else t;
    var n := DigitPrefix(u);
    if n == 0 then Err(InvalidNumber)
    else
      var value := if signed && t[0] == '-' then -DigitsFrom(0, u[..n]) else DigitsFrom(0, u[..n]);
      if INT64_MIN <= value <= INT64_MAX then Ok(value) else Err(NumberOutOfRange)
  }

  /** std::string::find from a position: the first index, or -1. */
  function Find(s: string, c: char, from: nat): (i: int)
    ensures i == -1 || from <= i < |s|
    ensures i >= 0 ==> s[i] == c && forall j | from <= j < i :: s[j] != c
    ensures i == -1 ==> forall j | from <= j < |s| :: s[j] != c
    decreases |s| - from
  {
    if from >= |s| then -1 else if s[from] == c then from else Find(s, c, from + 1)
  }

  /** std::string::rfind up to and including a position: the last index, or -1. */
  function RFind(s: string, c: char, upto: int): (i: int)
    requires upto < |s|
    ensures -1 <= i && (i == -1 || i <= upto)
    ensures i >= 0 ==> s[i] == c && forall j | i < j <= upto :: s[j] != c
    ensures i == -1 ==> forall j | 0 <= j <= upto :: s[j] != c
    decreases upto + 1
  {
    if upto < 0 then -1 else if s[upto] == c then upto else RFind(s, c, upto - 1)
  }

  // ---------- decimal text ----------

  function Digit(d: int): char
    requires -9 <= d <= 9
  {
    (48 + d) as char
  }

  /** std::to_string of a natural number. */
  function NatText(n: nat): (s: string)
    ensures s != "" && AllDigits(s)
  {
    if n < 10 then [Digit(n)] else NatText(n / 10) + [Digit(n % 10)]
  }

  function Zeros(k: nat): (s: string)
    ensures |s| == k && forall i | 0 <= i < k :: s[i] == '0'
  {
    seq(k, _ => '0')
  }

  /** Pads with zeros on the left up to a width. */
  function PadLeft(s: string, width: nat): string {
    if |s| >= width then s else Zeros(width - |s|) + s
  }

  /** pad2: the two low decimal digits. */
  function Pad2(v: int): string {
    [Digit(TMod(TDiv(v, 10), 10)), Digit(TMod(v, 10))]
  }

  lemma {:induction false} DigitsConcat(acc: int, a: string, b: string)
    requires AllDigits(a) && AllDigits(b)
    ensures AllDigits(a + b)
    ensures DigitsFrom(acc, a + b) == DigitsFrom(DigitsFrom(acc, a), b)
    decreases |a|
  {
    if a == "" {
      assert a + b == b;
    } else {
      assert (a + b)[1..] == a[1..] + b;
      DigitsConcat(acc * 10 + (a[0] as int - '0' as int), a[1..], b);
    }
  }

  lemma {:induction false} DigitsOfNat(n: nat)
    ensures DigitsFrom(0, NatText(n)) == n
    decreases n
  {
    if n >= 10 {
      DigitsOfNat(n / 10);
      DigitsConcat(0, NatText(n / 10), [Digit(n % 10)]);
      assert DigitsFrom(n / 10, [Digit(n % 10)]) == DigitsFrom(n / 10 * 10 + n % 10, "");
    }
  }

  lemma {:induction false} DigitsOfZeros(k: nat)
    ensures DigitsFrom(0, Zeros(k)) == 0
    decreases k
  {
    if k > 0 {
      assert Zeros(k)[1..] == Zeros(k - 1);
      DigitsOfZeros(k - 1);
    }
  }

  /** Padded decimal text denotes its number. */
  lemma DigitsOfPadded(n: nat, width: nat)
    ensures AllDigits(PadLeft(NatText(n), width))
    ensures DigitsFrom(0, PadLeft(NatText(n), width)) == n
  {
    DigitsOfNat(n);
    if |NatText(n)| < width {
      DigitsOfZeros(width - |NatText(n)|);
      DigitsConcat(0, Zeros(width - |NatText(n)|), NatText(n));
    }
  }

  /** The number of digits of a number below a power of ten. */
  lemma {:induction false} NatTextLength(n: nat, k: nat)
    requires 1 <= k && n < Power10(k)
    ensures |NatText(n)| <= k
    decreases k
  {
    if n >= 10 {
      NatTextLength(n / 10, k - 1);
    }
  }

  function Power10(k: nat): (p: nat)
    ensures p > 0
  {
    if k == 0 then 1 else 10 * Power10(k - 1)
  }

  lemma Pad2Text(v: int)
    requires 0 <= v < 100
    ensures Pad2(v) == PadLeft(NatText(v), 2)
    ensures |Pad2(v)| == 2 && AllDigits(Pad2(v)) && DigitsFrom(0, Pad2(v)) == v
  {
    DigitsOfPadded(v, 2);
    if v >= 10 {
      assert NatText(v) == NatText(v / 10) + [Digit(v % 10)];
      assert NatText(v / 10) == [Digit(v / 10)];
    } else {
      assert Zeros(1) == "0";
    }
  }

  lemma {:induction false} DigitRun(a: string, b: string)
    requires AllDigits(a) && (b == "" || !IsDigit(b[0]))
    ensures DigitPrefix(a + b) == |a|
    decreases |a|
  {
    if a == "" {
      assert a + b == b;
    } else {
      assert (a + b)[1..] == a[1..] + b;
      DigitRun(a[1..], b);
    }
  }

  /** Reading digits, alone or after a sign. */
  lemma StollReads(digits: string)
    requires AllDigits(digits) && digits != "" && DigitsFrom(0, digits) <= INT64_MAX
    ensures Stoll(digits) == Ok(DigitsFrom(0, digits))
    ensures Stoll("+" + digits) == Ok(DigitsFrom(0, digits))
    ensures Stoll("-" + digits) == Ok(-DigitsFrom(0, digits))
  {
    StollReadsAfter("", digits);
    StollReadsAfter("+", digits);
    StollReadsAfter("-", digits);
    assert "" + digits == digits;
  }

  lemma StollReadsAfter(sign: string, digits: string)
    requires sign == "" || sign == "+" || sign == "-"
    requires AllDigits(digits) && digits != "" && DigitsFrom(0, digits) <= INT64_MAX
    ensures Stoll(sign + digits) == Ok(if sign == "-" then -DigitsFrom(0, digits) else DigitsFrom(0, digits))
  {
    hide DigitsFrom;
    var s := sign + digits;
    assert SpacePrefix(s) == 0;
    assert s[0..] == s;
    assert digits == if sign == "" then s else s[1..];
    DigitRun(digits, "");
    assert digits + "" == digits;
    assert digits[..|digits|] == digits;
  }

  lemma StollPad2(v: int)
    requires 0 <= v < 100
    ensures Stoll(Pad2(v)) == Ok(v)
  {
    Pad2Text(v);
    StollReads(Pad2(v));
  }
}
