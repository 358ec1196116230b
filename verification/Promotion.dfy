/** static_cast from int64_t to double: exact up to 2^53, beyond it some integers share a double. */
module Promotion {
  import opened CppArithmetic

  const EXACT := 0x20_0000_0000_0000

  /** The distance of neighbouring doubles at a magnitude: one up to 2^53, then doubling. */
  function Unit(magnitude: nat): (u: nat)
    ensures u >= 1 && (magnitude < EXACT ==> u == 1)
  {
    if magnitude < EXACT then 1 else 2 * Unit(magnitude / 2)
  }

  /** int64_t to double: to the nearest, ties to even. */
  function Promote(n: int64): real {
    var u := Unit(Abs(n));
    var q, r := n / u, n % u;
    (if 2 * r < u || (2 * r == u && q % 2 == 0) then q * u else (q + 1) * u) as real
  }

  lemma PromoteExact(n: int64)
    requires -EXACT <= n <= EXACT
    ensures Promote(n) == n as real
  {
    if n == EXACT || n == -EXACT {
      assert Unit(EXACT) == 2 * Unit(EXACT / 2) == 2;
    }
  }

  // ---------- order ----------

  predicate IsMultiple(b: int, u: int)
    requires u > 0
  {
    b % u == 0
  }

  lemma NearMultiple(m: int, u: int, c: int)
    requires u > 0
    requires c == if 2 * (m % u) < u || (2 * (m % u) == u && m / u % 2 == 0) then m / u else m / u + 1
    ensures IsMultiple(c * u, u) && 2 * (c * u - m) <= u && 2 * (m - c * u) <= u
  {
    var q := m / u;
    assert m == q * u + m % u && (q + 1) * u == q * u + u;
    DivUnique(c * u, u, c);
  }

  /** Promotion is to a nearest multiple of the unit. */
  lemma PromoteNear(n: int64) returns (p: int)
    ensures Promote(n) == p as real && IsMultiple(p, Unit(Abs(n)))
    ensures 2 * (p - n) <= Unit(Abs(n)) && 2 * (n - p) <= Unit(Abs(n))
  {
    hide Unit, IsMultiple;
    var m: int, u := n, Unit(Abs(n));
    var c := if 2 * (m % u) < u || (2 * (m % u) == u && m / u % 2 == 0) then m / u else m / u + 1;
    p := c * u;
    NearMultiple(m, u, c);
  }

  /** Multiples of a unit are a unit apart. */
  lemma MultiplesApart(p: int, b: int, u: int)
    requires u > 0 && IsMultiple(p, u) && IsMultiple(b, u) && p > b
    ensures p >= b + u
  {
    var k := p / u - b / u;
    assert p - b == k * u;
    PositiveMultiple(k, u);
  }

  lemma PositiveMultiple(k: int, u: int)
    requires u > 0 && k * u > 0
    ensures k * u >= u
  {
    assert k >= 1 ==> (k - 1) * u >= 0;
    assert k < 1 ==> -k * u >= 0;
  }

  lemma {:induction false} UnitLow(y: nat)
    requires y >= EXACT
    ensures Unit(y) >= 2 && Unit(y) % 2 == 0 && Unit(y) / 2 * EXACT <= y
  {
    if y / 2 >= EXACT {
      UnitLow(y / 2);
    }
  }

  /** Between two magnitudes of different units lies a multiple of both. */
  lemma {:induction false} Boundary(x: nat, y: nat) returns (b: nat)
    requires x <= y
    ensures Unit(x) != Unit(y) ==> x < b <= y && IsMultiple(b, Unit(x)) && IsMultiple(b, Unit(y))
    decreases y
  {
    b := 0;
    if y >= EXACT && x >= EXACT {
      var c := Boundary(x / 2, y / 2);
      b := 2 * c;
      Doubled(c, Unit(x / 2));
      Doubled(c, Unit(y / 2));
    } else if y >= EXACT {
      UnitLow(y);
      b := Unit(y) / 2 * EXACT;
      assert b == Unit(y) * (EXACT / 2);
      DivUnique(b, Unit(y), EXACT / 2);
    }
  }

  lemma Doubled(c: int, u: int)
    requires u > 0
    ensures IsMultiple(c, u) ==> IsMultiple(2 * c, 2 * u)
  {
    if IsMultiple(c, u) {
      assert 2 * c == c / u * (2 * u);
      DivUnique(2 * c, 2 * u, c / u);
    }
  }

  lemma Negated(c: int, u: int)
    requires u > 0 && IsMultiple(c, u)
    ensures IsMultiple(-c, u)
  {
    DivUnique(-c, u, -(c / u));
  }

  lemma BoundaryBetween(m: int, n: int) returns (b: int)
    requires m < n
    ensures Unit(Abs(m)) != Unit(Abs(n)) ==>
              m <= b <= n && IsMultiple(b, Unit(Abs(m))) && IsMultiple(b, Unit(Abs(n)))
  {
    b := 0;
    if m >= 0 {
      b := Boundary(m, n);
    } else if n <= 0 {
      var c: int := Boundary(-n, -m);
      b := -c;
      if Unit(Abs(m)) != Unit(Abs(n)) {
        Negated(c, Unit(Abs(m)));
        Negated(c, Unit(Abs(n)));
      }
    }
  }

  /** Promotion keeps the order, up to ties. */
  lemma PromoteMonotone(m: int64, n: int64)
    requires m < n
    ensures Promote(m) <= Promote(n)
  {
    hide Promote, Unit, IsMultiple;
    var p := PromoteNear(m);
    var q := PromoteNear(n);
    var b := BoundaryBetween(m, n);
    var u, v := Unit(Abs(m)), Unit(Abs(n));
    if u == v {
      if p > q {
        MultiplesApart(p, q, u);
      }
    } else {
      if p > b {
        MultiplesApart(p, b, u);
      }
      if b > q {
        MultiplesApart(b, q, v);
      }
    }
  }

  // ---------- sharing ----------

  /** The integer before or after is promoted to the same double. */
  predicate SharesDouble(n: int64) {
    (n > INT64_MIN && Promote(n - 1) == Promote(n)) || (n < INT64_MAX && Promote(n + 1) == Promote(n))
  }

  /** If any other integer shares the double, a neighbour does. */
  lemma SharesDoubleExactly(n: int64)
    ensures SharesDouble(n) <==> exists m: int64 :: m != n && Promote(m) == Promote(n)
  {
    hide Promote;
    if m: int64 :| m != n && Promote(m) == Promote(n) {
      if m < n - 1 {
        PromoteMonotone(m, n - 1);
        PromoteMonotone(n - 1, n);
      } else if m > n + 1 {
        PromoteMonotone(n + 1, m);
        PromoteMonotone(n, n + 1);
      }
    }
  }
}
