/** IEEE 754 binary64 numbers of any magnitude, and rounding to the nearest of them
    (section 4.3.1 of IEEE 754-2019; ties either way). */
module Doubles {
  const TWO_53: int := 9007199254740992

  function Pow2(k: nat): (p: int)
    ensures p >= 1
  {
    if k == 0 then 1 else 2 * Pow2(k - 1)
  }

  /** A significand of at most 53 bits, scaled down or up by a power of two. */
  ghost predicate ScaledDown(r: real, a: int, k: nat) {
    -TWO_53 <= a <= TWO_53 && r * Pow2(k) as real == a as real
  }

  ghost predicate ScaledUp(r: real, a: int, k: nat) {
    -TWO_53 <= a <= TWO_53 && r == (a * Pow2(k)) as real
  }

  ghost predicate IsDouble(r: real) {
    exists a: int, k: nat :: ScaledDown(r, a, k) || ScaledUp(r, a, k)
  }

  function Abs(x: real): real { if x < 0.0 then -x else x }

  ghost predicate IsNearest(x: real, r: real) {
    IsDouble(r) && forall d | IsDouble(d) :: Abs(x - r) <= Abs(x - d)
  }

  lemma IntegersAreDoubles(n: int)
    requires -TWO_53 <= n <= TWO_53
    ensures IsDouble(n as real)
  {
    assert ScaledUp(n as real, n, 0);
  }

  lemma NearestOfDouble(x: real, r: real)
    requires IsDouble(x) && IsNearest(x, r)
    ensures r == x
  {
    assert Abs(x - r) <= Abs(x - x);
  }

  lemma ProductAsReal(m: int, n: int)
    ensures (m * n) as real == m as real * n as real
  {
  }

  lemma MulLess(a: real, b: real, c: real)
    requires a > b && c > 0.0
    ensures a * c > b * c
  {
  }

  lemma GapScaledDown(n: int, d: real, a: int, p: int)
    requires 1 <= n && p >= 1 && d > n as real && a <= TWO_53 && d * p as real == a as real
    ensures (d - n as real) * TWO_53 as real > n as real
  {
    var pr := p as real;
    ProductAsReal(n, p);
    MulLess(d, n as real, pr);
    assert a as real > (n * p) as real;
    assert a >= n * p + 1;
    var gap := d - n as real;
    assert gap * pr == d * pr - n as real * pr;
    assert gap * pr >= 1.0;
    GapStep(gap, pr, n as real, TWO_53 as real);
  }

  lemma GapOfInteger(n: int, d: real, m: int)
    requires d == m as real && d > n as real
    ensures d - n as real >= 1.0
  {
    assert m >= n + 1;
    assert m as real >= (n + 1) as real;
  }

  /** Between an integer and the next double above it there is a gap that grows with it. */
  lemma GapAboveInteger(n: int, d: real)
    requires 1 <= n && IsDouble(d) && d > n as real
    ensures d - n as real >= 1.0 || (d - n as real) * TWO_53 as real > n as real
  {
    var a: int, k: nat :| ScaledDown(d, a, k) || ScaledUp(d, a, k);
    GapOfScaled(n, d, a, k);
  }

  lemma GapOfScaled(n: int, d: real, a: int, k: nat)
    requires 1 <= n && d > n as real && (ScaledDown(d, a, k) || ScaledUp(d, a, k))
    ensures d - n as real >= 1.0 || (d - n as real) * TWO_53 as real > n as real
  {
    if ScaledUp(d, a, k) {
      GapOfInteger(n, d, a * Pow2(k));
    } else {
      GapScaledDown(n, d, a, Pow2(k));
    }
  }

  lemma GapStep(gap: real, p: real, n: real, top: real)
    requires gap * p >= 1.0 && p >= 1.0 && n >= 1.0 && n * p < top
    ensures gap * top > n
  {
    assert gap > 0.0;
    assert gap * top > gap * (n * p) by { MulGreater(gap, top, n * p); }
    assert gap * (n * p) == n * (gap * p);
    assert n * (gap * p) >= n by { MulAtLeast(n, gap * p); }
  }

  lemma MulGreater(a: real, b: real, c: real)
    requires a > 0.0 && b > c
    ensures a * b > a * c
  {
  }

  lemma MulAtLeast(a: real, b: real)
    requires a >= 0.0 && b >= 1.0
    ensures a * b >= a
  {
  }

  function RoundHalfUp(x: real): (n: int)
    ensures Abs(x - n as real) <= 0.5
    ensures x >= 0.0 ==> n >= 0
  {
    (x + 0.5).Floor
  }

  /** The integer rounded to is as near as any integer. */
  lemma RoundIsNearestInteger(x: real, n: int)
    ensures Abs(x - RoundHalfUp(x) as real) <= Abs(x - n as real)
  {
    var r := RoundHalfUp(x);
    if n < r {
      assert n as real <= r as real - 1.0;
    } else if n > r {
      assert n as real >= r as real + 1.0;
    }
  }

  // ------------------------------------------------------- a nearest double exists

  const TWO_52: int := 4503599627370496

  lemma {:induction false} Pow2Add(i: nat, j: nat)
    ensures Pow2(i + j) == Pow2(i) * Pow2(j)
  {
    if i > 0 { Pow2Add(i - 1, j); }
  }

  ghost predicate UnitDown(u: real, k: nat) { u * Pow2(k) as real == 1.0 }

  ghost predicate UnitUp(u: real, k: nat) { u == Pow2(k) as real }

  /** u is the unit in the last place for numbers between 2^52 and 2^53 units. */
  ghost predicate Unit(u: real) {
    exists k: nat :: UnitDown(u, k) || UnitUp(u, k)
  }

  ghost predicate IsTimes(d: real, j: int, u: real) {
    d == j as real * u
  }

  ghost predicate IsMultiple(d: real, u: real) {
    exists j: int :: IsTimes(d, j, u)
  }

  lemma SmallDown(d: real, a: int, p: int, u: real, q: int)
    requires a <= TWO_53 && p >= 2 * q && q >= 1 && d * p as real == a as real && u * q as real == 1.0
    ensures d <= TWO_52 as real * u
  {
    var pr, qr := p as real, q as real;
    assert u > 0.0 by { if u <= 0.0 { MulMono(qr, 0.0, u); } }
    if d > 0.0 {
      MulMono(d, pr, 2.0 * qr);
      assert d * (2.0 * qr) == 2.0 * (d * qr);
      assert d * qr <= TWO_52 as real;
      MulMono(u, TWO_52 as real, d * qr);
      assert u * (d * qr) == d * (u * qr);
    }
  }

  lemma MulMono(a: real, b: real, c: real)
    requires a >= 0.0 && b >= c
    ensures a * b >= a * c
  {
  }

  lemma DivideUnit(d: real, p: real, f: real, u: real, a: real)
    requires d * p == a && u * (p * f) == 1.0
    ensures d == a * f * u
  {
    calc {
      d;
      d * (u * (p * f));
      (d * p) * f * u;
      a * f * u;
    }
  }

  lemma MultipleDown(d: real, a: int, p: int, f: int, q: int, u: real)
    requires d * p as real == a as real && q == p * f && u * q as real == 1.0
    ensures IsMultiple(d, u)
  {
    ProductAsReal(p, f);
    ProductAsReal(a, f);
    DivideUnit(d, p as real, f as real, u, a as real);
    assert IsTimes(d, a * f, u);
  }

  ghost predicate Factor(p: int, q: int, f: int) { q == p * f }

  lemma DownCase(d: real, a: int, p: int, q: int, u: real)
    requires 1 <= q && 1 <= p && a <= TWO_53 && d * p as real == a as real && u * q as real == 1.0
    requires p >= 2 * q || exists f :: Factor(p, q, f)
    ensures IsMultiple(d, u) || d <= TWO_52 as real * u
  {
    if p >= 2 * q {
      SmallDown(d, a, p, u, q);
    } else {
      var f :| Factor(p, q, f);
      MultipleDown(d, a, p, f, q, u);
    }
  }

  lemma Pow2Factor(i: nat, k: nat)
    ensures Pow2(i) >= 2 * Pow2(k) || exists f :: Factor(Pow2(i), Pow2(k), f)
  {
    if i <= k {
      Pow2Add(i, k - i);
      assert Factor(Pow2(i), Pow2(k), Pow2(k - i));
    } else {
      TwicePow2(i, k);
    }
  }

  lemma DoubleDownFromUnitDown(d: real, a: int, i: nat, u: real, k: nat)
    requires ScaledDown(d, a, i) && u * Pow2(k) as real == 1.0
    ensures IsMultiple(d, u) || d <= TWO_52 as real * u
  {
    Pow2Factor(i, k);
    DownCase(d, a, Pow2(i), Pow2(k), u);
  }

  lemma TwicePow2(i: nat, k: nat)
    requires i > k
    ensures Pow2(i) >= 2 * Pow2(k)
  {
    Pow2Add(i - k - 1, k + 1);
    IntMulAtLeast(Pow2(i - k - 1), Pow2(k + 1));
  }

  lemma IntMulAtLeast(a: int, b: int)
    requires a >= 1 && b >= 0
    ensures a * b >= b
  {
  }

  lemma DoubleUpFromUnitDown(d: real, a: int, i: nat, u: real, k: nat)
    requires ScaledUp(d, a, i) && u * Pow2(k) as real == 1.0
    ensures IsMultiple(d, u)
  {
    var j := a * Pow2(i) * Pow2(k);
    ProductAsReal(a * Pow2(i), Pow2(k));
    calc {
      d;
      d * (u * Pow2(k) as real);
      (d * Pow2(k) as real) * u;
      j as real * u;
    }
    assert IsTimes(d, j, u);
  }

  lemma MultipleUp(d: real, a: int, f: int, p: int)
    requires d == (a * (p * f)) as real
    ensures IsMultiple(d, p as real)
  {
    assert a * (p * f) == (a * f) * p;
    ProductAsReal(a * f, p);
    assert IsTimes(d, a * f, p as real);
  }

  lemma SmallUp(d: real, a: int, p: int, q: int)
    requires d == (a * p) as real && a <= TWO_53 && 1 <= p && 2 * p <= q
    ensures d <= TWO_52 as real * q as real
  {
    ProductAsReal(TWO_52, q);
    IntMulMono(a, TWO_53, p, p);
  }

  lemma ScaledUpFromUnitUp(d: real, a: int, i: nat, k: nat)
    requires ScaledUp(d, a, i) && k >= 1
    ensures IsMultiple(d, Pow2(k) as real) || d <= TWO_52 as real * Pow2(k) as real
  {
    if i >= k {
      Pow2Add(k, i - k);
      MultipleUp(d, a, Pow2(i - k), Pow2(k));
    } else {
      TwicePow2(k, i);
      SmallUp(d, a, Pow2(i), Pow2(k));
    }
  }

  lemma ScaledDownFromUnitUp(d: real, a: int, i: nat, k: nat)
    requires ScaledDown(d, a, i) && k >= 1
    ensures d <= TWO_52 as real * Pow2(k) as real
  {
    DivideDown(d, Pow2(i) as real, a as real);
    assert Pow2(k) == 2 * Pow2(k - 1);
    ProductAsReal(TWO_52, Pow2(k));
  }

  lemma IntMulMono(a: int, b: int, p: int, q: int)
    requires a <= b && 1 <= p <= q && b >= 0
    ensures a * p <= b * q
  {
    assert a * p <= b * p <= b * q;
  }

  lemma DivideDown(d: real, p: real, a: real)
    requires d * p == a && p >= 1.0
    ensures d <= a || d <= 0.0
  {
    if d > 0.0 { MulMono(d, p, 1.0); }
  }

  lemma DoubleFromUnit(d: real, u: real)
    requires IsDouble(d) && Unit(u)
    ensures IsMultiple(d, u) || d <= TWO_52 as real * u
  {
    var k: nat :| UnitDown(u, k) || UnitUp(u, k);
    var a: int, i: nat :| ScaledDown(d, a, i) || ScaledUp(d, a, i);
    if UnitDown(u, k) {
      if ScaledDown(d, a, i) { DoubleDownFromUnitDown(d, a, i, u, k); } else { DoubleUpFromUnitDown(d, a, i, u, k); }
    } else {
      if ScaledDown(d, a, i) { ScaledDownFromUnitUp(d, a, i, k); } else { ScaledUpFromUnitUp(d, a, i, k); }
    }
  }

  lemma FartherMultiple(x: real, y: real, u: real, r: real, n: int, d: real, j: int)
    requires u > 0.0 && x == y * u && r == n as real * u && d == j as real * u
    requires Abs(y - n as real) <= Abs(y - j as real)
    ensures Abs(x - r) <= Abs(x - d)
  {
    DistanceInUnits(x, y, u, r, n);
    DistanceInUnits(x, y, u, d, j);
    MulMono(u, Abs(y - j as real), Abs(y - n as real));
  }

  lemma BelowUnits(x: real, y: real, u: real, top: real, d: real)
    requires u > 0.0 && x == y * u && y >= TWO_52 as real && top == TWO_52 as real * u && d <= top
    ensures Abs(x - top) <= Abs(x - d)
  {
    MulMono(u, y, TWO_52 as real);
  }

  /** The number lies between 2^52 and 2^53 units. */
  ghost predicate UnitAround(x: real, u: real, y: real) {
    u > 0.0 && Unit(u) && x == y * u && TWO_52 as real <= y <= TWO_53 as real
  }

  lemma NotCloser(x: real, y: real, u: real, d: real, r: real)
    requires u > 0.0 && x == y * u && y >= TWO_52 as real && r == RoundHalfUp(y) as real * u
    requires IsMultiple(d, u) || d <= TWO_52 as real * u
    ensures Abs(x - r) <= Abs(x - d)
  {
    var n := RoundHalfUp(y);
    if IsMultiple(d, u) {
      var j :| IsTimes(d, j, u);
      RoundIsNearestInteger(y, j);
      FartherMultiple(x, y, u, r, n, d, j);
    } else {
      var top := TWO_52 as real * u;
      RoundIsNearestInteger(y, TWO_52);
      FartherMultiple(x, y, u, r, n, top, TWO_52);
      BelowUnits(x, y, u, top, d);
    }
  }

  lemma NoDoubleCloser(x: real, y: real, u: real, r: real, d: real)
    requires UnitAround(x, u, y) && r == RoundHalfUp(y) as real * u && IsDouble(d)
    ensures Abs(x - r) <= Abs(x - d)
  {
    DoubleFromUnit(d, u);
    NotCloser(x, y, u, d, r);
  }

  /** Rounding to a whole number of units rounds to the nearest double. */
  lemma RoundToUnit(x: real, y: real, u: real, r: real)
    requires UnitAround(x, u, y) && r == RoundHalfUp(y) as real * u
    ensures IsNearest(x, r)
  {
    MultipleIsDouble(RoundHalfUp(y), u, r);
    forall d | IsDouble(d) ensures Abs(x - r) <= Abs(x - d) { NoDoubleCloser(x, y, u, r, d); }
  }

  lemma DistanceInUnits(x: real, y: real, u: real, d: real, n: int)
    requires x == y * u && u > 0.0 && d == n as real * u
    ensures Abs(x - d) == u * Abs(y - n as real)
  {
    assert x - d == u * (y - n as real);
    if y >= n as real { MulMono(u, y - n as real, 0.0); } else { MulMono(u, 0.0, y - n as real); }
  }

  lemma MultipleIsDouble(n: int, u: real, r: real)
    requires Unit(u) && -TWO_53 <= n <= TWO_53 && r == n as real * u
    ensures IsDouble(r)
  {
    var k: nat :| UnitDown(u, k) || UnitUp(u, k);
    if UnitUp(u, k) { MultipleOfUp(n, u, k, r); } else { MultipleOfDown(n, u, k, r); }
  }

  lemma MultipleOfUp(n: int, u: real, k: nat, r: real)
    requires UnitUp(u, k) && -TWO_53 <= n <= TWO_53 && r == n as real * u
    ensures IsDouble(r)
  {
    ProductAsReal(n, Pow2(k));
    DoubleUp(r, n, k);
  }

  lemma MultipleOfDown(n: int, u: real, k: nat, r: real)
    requires UnitDown(u, k) && -TWO_53 <= n <= TWO_53 && r == n as real * u
    ensures IsDouble(r)
  {
    UnitsOfOne(r, n as real, u, Pow2(k) as real);
    DoubleDown(r, n, k);
  }

  lemma DoubleDown(r: real, a: int, k: nat)
    requires -TWO_53 <= a <= TWO_53 && r * Pow2(k) as real == a as real
    ensures IsDouble(r)
  {
    assert ScaledDown(r, a, k);
  }

  lemma DoubleUp(r: real, a: int, k: nat)
    requires -TWO_53 <= a <= TWO_53 && r == (a * Pow2(k)) as real
    ensures IsDouble(r)
  {
    assert ScaledUp(r, a, k);
  }

  lemma UnitsOfOne(r: real, n: real, u: real, p: real)
    requires r == n * u && u * p == 1.0
    ensures r * p == n
  {
    assert (n * u) * p == n * (u * p);
  }

  lemma LessFromProducts(a: real, b: real, c: real)
    requires c > 0.0 && a * c < b * c
    ensures a < b
  {
  }

  lemma HalfShrinks(y: real, top: real)
    requires 0.0 < y < top
    ensures 0 <= (top / (2.0 * y)).Floor < (top / y).Floor
  {
    var q := top / y;
    assert q * y == top;
    LessFromProducts(1.0, q, y);
    assert top / (2.0 * y) == q / 2.0;
  }

  lemma UnitFromScale(x: real, p: real, y: real) returns (u: real)
    requires p >= 1.0 && y == x * p
    ensures u * p == 1.0 && u > 0.0 && x == y * u
  {
    u := 1.0 / p;
    assert u * p == 1.0;
    assert (x * p) * u == x * (u * p);
  }

  lemma DoubleScale(x: real, p: real, q: real, y: real)
    requires y == x * p && q == 2.0 * p
    ensures x * q == 2.0 * y
  {
  }

  lemma FindUnitDown(x: real, k: nat, y: real) returns (u: real, z: real)
    requires 0.0 < y <= TWO_53 as real && y == x * Pow2(k) as real
    ensures UnitAround(x, u, z)
    decreases if y < TWO_52 as real then 1 + (TWO_52 as real / y).Floor else 0
  {
    if y < TWO_52 as real {
      assert Pow2(k + 1) == 2 * Pow2(k);
      DoubleScale(x, Pow2(k) as real, Pow2(k + 1) as real, y);
      HalfShrinks(y, TWO_52 as real);
      u, z := FindUnitDown(x, k + 1, 2.0 * y);
    } else {
      u := UnitFromScale(x, Pow2(k) as real, y);
      z := y;
      assert UnitDown(u, k);
    }
  }

  lemma FindUnitUp(x: real, k: nat, y: real) returns (u: real, z: real)
    requires y >= TWO_52 as real && x == y * Pow2(k) as real
    ensures UnitAround(x, u, z)
    decreases y.Floor
  {
    if y > TWO_53 as real {
      assert Pow2(k + 1) == 2 * Pow2(k);
      u, z := FindUnitUp(x, k + 1, y / 2.0);
    } else {
      u := Pow2(k) as real;
      z := y;
      assert UnitUp(u, k);
    }
  }

  lemma NearestOfPositive(x: real) returns (r: real)
    requires x > 0.0
    ensures IsNearest(x, r)
  {
    var u, y;
    if x <= TWO_53 as real { u, y := FindUnitDown(x, 0, x); } else { u, y := FindUnitUp(x, 0, x); }
    r := RoundHalfUp(y) as real * u;
    RoundToUnit(x, y, u, r);
  }

  /** Every number has a nearest double. */
  lemma NearestExists(x: real)
    ensures exists r :: IsNearest(x, r)
  {
    if x == 0.0 {
      IntegersAreDoubles(0);
      assert IsNearest(x, 0.0);
    } else if x > 0.0 {
      var r := NearestOfPositive(x);
    } else {
      var r := NearestOfPositive(-x);
      NearestNegated(-x, r);
    }
  }

  lemma NegatedDouble(d: real)
    requires IsDouble(d)
    ensures IsDouble(-d)
  {
    var a: int, k: nat :| ScaledDown(d, a, k) || ScaledUp(d, a, k);
    NegatedScaled(d, a, k);
  }

  lemma NegatedScaled(d: real, a: int, k: nat)
    requires ScaledDown(d, a, k) || ScaledUp(d, a, k)
    ensures IsDouble(-d)
  {
    if ScaledDown(d, a, k) {
      DoubleDown(-d, -a, k);
    } else {
      NegatedProduct(a, Pow2(k));
      DoubleUp(-d, -a, k);
    }
  }

  lemma NegatedProduct(a: int, p: int)
    ensures (-a * p) as real == -((a * p) as real)
  {
  }

  lemma NearestNegated(x: real, r: real)
    requires IsNearest(x, r)
    ensures IsNearest(-x, -r)
  {
    NegatedDouble(r);
    forall d | IsDouble(d) ensures Abs(-x - -r) <= Abs(-x - d) {
      NegatedDouble(d);
      assert Abs(x - r) <= Abs(x - -d);
    }
  }

  /** Number(): the double that a decimal is read as. */
  ghost function Number(x: real): (r: real)
    ensures IsNearest(x, r)
  {
    NearestExists(x);
    var r :| IsNearest(x, r);
    r
  }
}
