/** Integer arithmetic as C++ performs it: division truncates toward zero, and a remainder takes the
    sign of the dividend. Dafny's own `/` and `%` are Euclidean, so both are spelled out here. Every
    divisor in the modelled code is a positive constant. */
module CppArithmetic {

  const INT64_MIN: int := -0x8000_0000_0000_0000
  const INT64_MAX: int := 0x7FFF_FFFF_FFFF_FFFF

  /** The widths of the C++ locals. Assigning to a variable of such a type makes Dafny prove that the
      value fits, that is, that the C++ computation does not overflow at that point. */
  type int64 = x: int | INT64_MIN <= x <= INT64_MAX
  type int128 = x: int |
    -0x8000_0000_0000_0000_0000_0000_0000_0000 <= x <= 0x7FFF_FFFF_FFFF_FFFF_FFFF_FFFF_FFFF_FFFF

  type int8 = x: int | -128 <= x <= 127
  type int32 = x: int | -0x8000_0000 <= x <= 0x7FFF_FFFF

  /** Narrowing conversions keep the low bits. */
  function ToInt8(x: int): (r: int8)
    ensures -128 <= x <= 127 ==> r == x
  {
    (x + 128) % 256 - 128
  }

  function ToInt32(x: int): (r: int32)
    ensures -0x8000_0000 <= x <= 0x7FFF_FFFF ==> r == x
  {
    (x + 0x8000_0000) % 0x1_0000_0000 - 0x8000_0000
  }

  function Abs(x: int): nat {
    if x < 0 then -x else x
  }

  /** `a / b` in C++. */
  function TDiv(a: int, b: int): int
    requires b > 0
  {
    if a >= 0 then a / b else -(-a / b)
  }

  /** `a % b` in C++. */
  function TMod(a: int, b: int): int
    requires b > 0
  {
    a - TDiv(a, b) * b
  }

  /** Truncation is the quotient whose remainder is smaller than the divisor and signed as the dividend. */
  lemma TruncatedDivision(a: int, b: int)
    requires b > 0
    ensures a == TDiv(a, b) * b + TMod(a, b)
    ensures if a >= 0 then 0 <= TMod(a, b) < b else -b < TMod(a, b) <= 0
  {
    if a < 0 {
      assert -a == -a / b * b + -a % b;
    }
  }

  /** A quotient is determined by its remainder's range. */
  lemma DivUnique(a: int, b: int, q: int)
    requires b > 0
    requires q * b <= a < q * b + b
    ensures a / b == q
    ensures a % b == a - q * b
  {
    var k := a / b - q;
    assert k * b == a - a % b - q * b;
    assert k > 0 ==> k * b >= b;
    assert k < 0 ==> k * b <= -b;
  }

  lemma TruncatedRemainderZero(a: int, b: int)
    requires b > 0
    ensures TMod(a, b) == 0 <==> a % b == 0
  {
    if a < 0 {
      var q := a / b;
      if a % b == 0 {
        assert -a == -q * b;
        DivUnique(-a, b, -q);
      }
      if TMod(a, b) == 0 {
        assert a == TDiv(a, b) * b;
        DivUnique(a, b, TDiv(a, b));
      }
    }
  }

  /** Floor quotients grow by one exactly at the multiples of the divisor. */
  lemma FloorStep(a: int, b: int)
    requires b > 0
    ensures a / b - (a - 1) / b == if a % b == 0 then 1 else 0
  {
    if a % b == 0 {
      assert (a / b - 1) * b == a - b;
      DivUnique(a - 1, b, a / b - 1);
    } else {
      DivUnique(a - 1, b, a / b);
    }
  }

  /** The idiom `q = a / b; if (a < 0 && a % b != 0) q--` is floor division. */
  lemma FloorFromTruncation(a: int, b: int)
    requires b > 0
    ensures TDiv(a, b) - (if a < 0 && TMod(a, b) != 0 then 1 else 0) == a / b
  {
    TruncatedDivision(a, b);
    var q := TDiv(a, b) - (if a < 0 && TMod(a, b) != 0 then 1 else 0);
    DivUnique(a, b, q);
  }
}
