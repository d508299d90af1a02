/** Shares of a total, rounded up to whole units: decimal arithmetic with 20 decimals
    in quotients, and a comparison of doubles that forgives decimal rounding errors. */
module Shares {
  import opened Doubles

  const DECIMALS: int := 100000000000000000000     // 10^20

  /** Rounding to an integer away from zero. */
  function RoundUp(x: real): (n: int)
    ensures x >= 0.0 ==> x <= n as real < x + 1.0
    ensures x < 0.0 ==> x - 1.0 < n as real <= x
  {
    if x >= 0.0 then -((-x).Floor) else x.Floor
  }

  function Truncate(x: real): int {
    if x >= 0.0 then x.Floor else -((-x).Floor)
  }

  /** Decimal division: the quotient rounded half up (away from zero) to 20 decimals. */
  function Div(a: int, b: int): real
    requires b != 0
  {
    var x := a as real / b as real * DECIMALS as real;
    (if x >= 0.0 then RoundHalfUp(x) else -RoundHalfUp(-x)) as real / DECIMALS as real
  }

  /** The first significant digit. */
  function LeadingDigit(x: real): (d: int)
    requires x > 0.0
    ensures 1 <= d <= 9
    decreases if x >= 10.0 then x.Floor else if x < 1.0 then (1.0 / x).Floor else 0
  {
    if x >= 10.0 then LeadingDigit(x / 10.0)
    else if x < 1.0 then
      InverseShrinks(x);
      LeadingDigit(x * 10.0)
    else x.Floor
  }

  lemma InverseShrinks(x: real)
    requires 0.0 < x < 1.0
    ensures x * 10.0 < 1.0 ==> (1.0 / (x * 10.0)).Floor < (1.0 / x).Floor
  {
    var y := 1.0 / x;
    assert y * x == 1.0;
    assert 1.0 / (x * 10.0) == y / 10.0;
    assert y > 1.0 by { LessFromProducts(1.0, y, x); }
  }

  /** parseInt of a decimal's text, which has an exponent outside 1e-6..1e21. */
  function ParseIntOfText(x: real): int {
    if x == 0.0 then 0
    else if 0.000001 <= Abs(x) < 1000000000000000000000.0 then Truncate(x)
    else if x > 0.0 then LeadingDigit(x) else -LeadingDigit(-x)
  }

  ghost function DecimalShareRoundedUpOf(fraction: real, total: int): real {
    var multiplied := fraction * total as real;
    var n1 := Number(multiplied);
    var n2 := Number(ParseIntOfText(multiplied) as real);
    if n1 == n2 then n1 else Number(RoundUp(multiplied) as real)
  }

  ghost function RatioShareRoundedUpOf(nominator: int, denominator: int, total: int): real
    requires denominator != 0
  {
    DecimalShareRoundedUpOf(Div(nominator, denominator), total)
  }

  ghost function PercentageShareRoundedUpOf(percentage: int, total: int): real {
    DecimalShareRoundedUpOf(Div(percentage, 100), total)
  }

  /** The exact share, rounded up. */
  function Ceiling(n: int, d: int): int
    requires d > 0
  {
    if n % d == 0 then n / d else n / d + 1
  }

  // ------------------------------------------------------ the product, as an integer

  /** The product in units of 10^-20. */
  ghost predicate IsProduct(nominator: nat, denominator: nat, total: nat, m: int) {
    denominator > 0 && Div(nominator, denominator) * total as real * DECIMALS as real == m as real
  }

  lemma HalfAbove(b: real, q: real, x: real, k: real)
    requires b > 0.0 && q - x <= 0.5 && x * b == k
    ensures q * b <= k + 0.5 * b
  {
    MulMono(b, 0.5, q - x);
    Distribute(b, q, x);
  }

  lemma HalfBelow(b: real, q: real, x: real, k: real)
    requires b > 0.0 && q - x >= -0.5 && x * b == k
    ensures q * b >= k - 0.5 * b
  {
    MulMono(b, q - x, -0.5);
    Distribute(b, q, x);
  }

  lemma Distribute(b: real, q: real, x: real)
    ensures b * (q - x) == q * b - x * b
  {
  }

  lemma ScaledQuotient(n: int, d: int)
    requires d > 0 && n >= 0
    ensures var x := n as real / d as real * DECIMALS as real;
      x * d as real == (n * DECIMALS) as real && x >= 0.0
  {
    var y := n as real / d as real;
    assert y * d as real == n as real;
    assert y >= 0.0;
    assert y * DECIMALS as real * d as real == (y * d as real) * DECIMALS as real;
  }

  lemma ErrorAsInteger(product: int, k: int, d: int)
    requires product as real <= k as real + 0.5 * d as real && product as real >= k as real - 0.5 * d as real
    ensures 2 * (product - k) <= d && -2 * (product - k) <= d
  {
  }

  /** Rounding x to an integer is off by at most half a d, in units of 1/d. */
  lemma RoundedUnits(x: real, d: int, k: int, q: int)
    requires d > 0 && x * d as real == k as real && -0.5 <= q as real - x <= 0.5
    ensures 2 * (q * d - k) <= d && -2 * (q * d - k) <= d
  {
    HalfAbove(d as real, q as real, x, k as real);
    HalfBelow(d as real, q as real, x, k as real);
    ProductAsReal(q, d);
    ErrorAsInteger(q * d, k, d);
  }

  lemma RoundedHalfUp(x: real)
    ensures -0.5 <= RoundHalfUp(x) as real - x <= 0.5
  {
  }

  lemma QuotientUnits(nominator: nat, denominator: nat) returns (q: int, e: int)
    requires denominator > 0
    ensures Div(nominator, denominator) * DECIMALS as real == q as real && q >= 0
    ensures e == q * denominator - nominator * DECIMALS && 2 * e <= denominator && -2 * e <= denominator
  {
    var x := nominator as real / denominator as real * DECIMALS as real;
    ScaledQuotient(nominator, denominator);
    q := RoundHalfUp(x);
    e := q * denominator - nominator * DECIMALS;
    RoundedHalfUp(x);
    RoundedUnits(x, denominator, nominator * DECIMALS, q);
    DecimalUnits(q as real);
  }

  lemma DecimalUnits(x: real)
    ensures x / DECIMALS as real * DECIMALS as real == x
  {
  }

  lemma Product(nominator: nat, denominator: nat, total: nat) returns (m: int, e: int)
    requires denominator > 0
    ensures IsProduct(nominator, denominator, total, m) && m >= 0
    ensures e == m * denominator - nominator * total * DECIMALS
    ensures 2 * e <= denominator * total && -2 * e <= denominator * total
    ensures nominator == 0 ==> m == 0
  {
    var q, eq := QuotientUnits(nominator, denominator);
    m := q * total;
    ProductOfUnits(Div(nominator, denominator), q, total);
    e := eq * total;
    ErrorOfProduct(q, eq, nominator, denominator, total);
    ScaledBound(2 * eq, denominator, total);
    ScaledBound(-2 * eq, denominator, total);
    if nominator == 0 {
      ZeroQuotient(q, denominator, eq);
    }
  }

  lemma ProductOfUnits(quotient: real, q: int, t: int)
    requires quotient * DECIMALS as real == q as real
    ensures quotient * t as real * DECIMALS as real == (q * t) as real
  {
    ProductAsReal(q, t);
    assert quotient * t as real * DECIMALS as real == quotient * DECIMALS as real * t as real;
  }

  lemma ErrorOfProduct(q: int, e: int, n: int, d: int, t: int)
    requires e == q * d - n * DECIMALS
    ensures e * t == q * t * d - n * t * DECIMALS
  {
  }

  lemma ScaledBound(e: int, d: int, t: int)
    requires e <= d && t >= 0
    ensures e * t <= d * t
  {
  }

  lemma ZeroQuotient(q: int, denominator: int, e: int)
    requires denominator > 0 && q >= 0 && e == q * denominator && 2 * e <= denominator
    ensures q == 0
  {
    if q >= 1 { IntMulAtLeast(q, denominator); }
  }

  // -------------------------------------------------- what the comparison decides

  /** With a product strictly between two integers and farther from the lower one than
      from some double, the upper integer is returned. */
  lemma UpperReturned(fraction: real, total: int, floor: int, near: real)
    requires var x := fraction * total as real;
      0 <= floor < TWO_52 && floor as real < x < floor as real + 1.0 && IsDouble(near) && Abs(x - near) < x - floor as real
    ensures DecimalShareRoundedUpOf(fraction, total) == floor as real + 1.0
  {
    var x := fraction * total as real;
    IntegersAreDoubles(floor);
    IntegersAreDoubles(floor + 1);
    NearestOfDouble(floor as real + 1.0, Number(floor as real + 1.0));
    assert RoundUp(x) == floor + 1;
    assert Abs(x - Number(x)) <= Abs(x - near);
    assert Number(x) != floor as real;
    if x >= 0.000001 {
      assert ParseIntOfText(x) == floor;
      NearestOfDouble(floor as real, Number(floor as real));
    } else {
      TinyText(x);
    }
  }

  /** The text of a tiny number has an exponent, and its first digit is no neighbour of
      the number. */
  lemma TinyText(x: real)
    requires 0.0 < x < 0.000001
    ensures Number(ParseIntOfText(x) as real) != Number(x)
  {
    var digit := ParseIntOfText(x);
    IntegersAreDoubles(digit);
    IntegersAreDoubles(0);
    NearestOfDouble(digit as real, Number(digit as real));
    assert Abs(x - Number(x)) <= Abs(x - 0.0);
  }

  lemma IntegerReturned(fraction: real, total: int, n: int)
    requires fraction * total as real == n as real && 0 <= n <= TWO_52
    ensures DecimalShareRoundedUpOf(fraction, total) == n as real
  {
    IntegersAreDoubles(n);
    NearestOfDouble(n as real, Number(n as real));
    assert ParseIntOfText(n as real) == n;
  }

  /** A product a little above an integer gives that integer when it is also the nearest
      double, and the next one otherwise. */
  lemma JustAbove(fraction: real, total: int, n: int)
    requires var x := fraction * total as real; 1 <= n <= TWO_52 && n as real < x < n as real + 1.0
    ensures DecimalShareRoundedUpOf(fraction, total) ==
      if Number(fraction * total as real) == n as real then n as real else n as real + 1.0
  {
    var x := fraction * total as real;
    IntegersAreDoubles(n);
    IntegersAreDoubles(n + 1);
    NearestOfDouble(n as real, Number(n as real));
    NearestOfDouble(n as real + 1.0, Number(n as real + 1.0));
    assert RoundUp(x) == n + 1 && ParseIntOfText(x) == n;
  }

  // --------------------------------------------------------------- the rounding bound

  lemma {:induction false} PowerAbove(d: int, k: nat) returns (j: nat)
    requires 1 <= d && Pow2(k) < 2 * d
    ensures d <= Pow2(j) < 2 * d
    decreases 2 * d - Pow2(k)
  {
    if Pow2(k) >= d {
      j := k;
    } else {
      assert Pow2(k + 1) == 2 * Pow2(k);
      j := PowerAbove(d, k + 1);
    }
  }

  lemma ScaledInside(x: real, p: int, top: int)
    requires p >= 1 && 0.0 <= x <= top as real
    ensures 0.0 <= x * p as real <= (top * p) as real
  {
    ProductAsReal(top, p);
    MulMono(p as real, top as real, x);
    MulMono(p as real, x, 0.0);
  }

  lemma ScaledDistance(x: real, near: real, p: int, n: int, y: real)
    requires p >= 1 && near * p as real == n as real && y == x * p as real && -0.5 <= n as real - y <= 0.5
    ensures Abs(x - near) * p as real <= 0.5
  {
    DistanceAbove(x, near, p as real, n as real);
    DistanceBelow(x, near, p as real, n as real);
  }

  lemma DistanceAbove(x: real, near: real, p: real, n: real)
    requires near * p == n && x * p - n <= 0.5
    ensures (x - near) * p <= 0.5
  {
    Distribute(p, x, near);
  }

  lemma DistanceBelow(x: real, near: real, p: real, n: real)
    requires near * p == n && n - x * p <= 0.5
    ensures (near - x) * p <= 0.5
  {
    Distribute(p, near, x);
  }

  /** A double within half a unit of p of x. */
  lemma DoubleNearby(x: real, k: nat, p: int, top: int) returns (near: real)
    requires p == Pow2(k) && 0.0 <= x <= top as real && 0 <= top * p <= TWO_53
    ensures IsDouble(near) && Abs(x - near) * p as real <= 0.5
  {
    var y := x * p as real;
    var n := RoundHalfUp(y);
    near := n as real / p as real;
    assert near * p as real == n as real;
    ScaledInside(x, p, top);
    RoundedBelow(y, top * p);
    assert ScaledDown(near, n, k);
    RoundedHalfUp(y);
    ScaledDistance(x, near, p, n, y);
  }

  lemma RoundedBelow(y: real, top: int)
    requires 0.0 <= y <= top as real
    ensures 0 <= RoundHalfUp(y) <= top
  {
  }

  /** x in units of 10^-20 is m, and lies g units above the integer f. */
  lemma UnitsAbove(x: real, m: int, f: int, g: int)
    requires x * DECIMALS as real == m as real && m == f * DECIMALS + g
    ensures (x - f as real) * DECIMALS as real == g as real
  {
    ProductAsReal(f, DECIMALS);
    assert (x - f as real) * DECIMALS as real == x * DECIMALS as real - f as real * DECIMALS as real;
  }

  lemma HalfADenominator(b: real, d: int, g: int)
    requires d >= 1 && b * DECIMALS as real == g as real && 2 * g * d > DECIMALS
    ensures b * d as real > 0.5
  {
    var c := b * d as real;
    ProductAsReal(g, d);
    assert c * DECIMALS as real == g as real * d as real;
    LessFromProducts(0.5, c, DECIMALS as real);
  }

  lemma NearerThanFloor(a: real, b: real, p: int, d: int, g: int)
    requires a >= 0.0 && b * DECIMALS as real == g as real && a * p as real <= 0.5
    requires 1 <= d <= p && 2 * g * d > DECIMALS
    ensures a < b
  {
    HalfADenominator(b, d, g);
    MulMono(a, p as real, d as real);
    LessFromProducts(a, b, d as real);
  }

  /** Some double is nearer to x than the integer below it. */
  lemma NearDouble(x: real, total: int, f: int, g: int, d: int) returns (near: real)
    requires (x - f as real) * DECIMALS as real == g as real && f as real < x < f as real + 1.0
    requires 0 <= f < total && 1 <= d && total * d <= TWO_52 && 2 * g * d > DECIMALS
    ensures IsDouble(near) && Abs(x - near) < x - f as real
  {
    var k := PowerAbove(d, 0);
    var p, top := Pow2(k), f + 1;
    FactorBound(top, total, p, d);
    Upwards(x, f);
    near := DoubleNearby(x, k, p, top);
    NearerThanBelow(x, near, f, g, d, p);
  }

  lemma NearerThanBelow(x: real, near: real, f: int, g: int, d: int, p: int)
    requires (x - f as real) * DECIMALS as real == g as real && Abs(x - near) * p as real <= 0.5
    requires 1 <= d <= p && 2 * g * d > DECIMALS
    ensures Abs(x - near) < x - f as real
  {
    NearerThanFloor(Abs(x - near), x - f as real, p, d, g);
  }

  lemma Upwards(x: real, f: int)
    requires 0 <= f && f as real < x < f as real + 1.0
    ensures 0.0 <= x <= (f + 1) as real
  {
  }

  lemma FractionalShare(fraction: real, total: int, f: int, g: int, d: int, m: int)
    requires fraction * total as real * DECIMALS as real == m as real && m == f * DECIMALS + g
    requires 0 < g < DECIMALS && 0 <= f < total && 1 <= d && total * d <= TWO_52 && 2 * g * d > DECIMALS
    ensures DecimalShareRoundedUpOf(fraction, total) == f as real + 1.0
  {
    var x := fraction * total as real;
    UnitsAbove(x, m, f, g);
    BetweenIntegers(x - f as real, g);
    var near := NearDouble(x, total, f, g, d);
    TotalBound(total, d);
    UpperReturned(fraction, total, f, near);
  }

  lemma FactorBound(a: int, t: int, p: int, d: int)
    requires 0 <= a <= t && 0 <= p <= 2 * d && t * d <= TWO_52
    ensures 0 <= a * p <= TWO_53
  {
    assert a * p <= t * p <= t * (2 * d);
  }

  lemma BetweenIntegers(b: real, g: int)
    requires b * DECIMALS as real == g as real && 0 < g < DECIMALS
    ensures 0.0 < b < 1.0
  {
    LessFromProducts(0.0, b, DECIMALS as real);
    LessFromProducts(b, 1.0, DECIMALS as real);
  }

  /** The decimal product lies above f, and f is not the double that it is read as. */
  ghost predicate Overshoots(fraction: real, total: int, f: int) {
    fraction * total as real > f as real && Number(fraction * total as real) != f as real
  }

  lemma AboveWhole(x: real, f: int, g: int, m: int)
    requires x * DECIMALS as real == m as real && m == f * DECIMALS + g
    ensures g > 0 <==> x > f as real
  {
    UnitsAbove(x, m, f, g);
    if g > 0 { LessFromProducts(0.0, x - f as real, DECIMALS as real); }
    if x > f as real { MulLess(x - f as real, 0.0, DECIMALS as real); }
  }

  /** The exact share is the integer f, and the product g units off it. */
  lemma WholeShare(fraction: real, total: int, f: int, g: int, m: int)
    requires fraction * total as real * DECIMALS as real == m as real && m == f * DECIMALS + g && m >= 0
    requires 0 <= f <= TWO_52 && -TWO_52 <= 2 * g <= TWO_52 && (f == 0 ==> g == 0)
    ensures g > 0 <==> fraction * total as real > f as real
    ensures DecimalShareRoundedUpOf(fraction, total) ==
      if Overshoots(fraction, total, f) then f as real + 1.0 else f as real
  {
    AboveWhole(fraction * total as real, f, g, m);
    var x := fraction * total as real;
    UnitsAbove(x, m, f, g);
    if g == 0 {
      LessOrEqualFromProducts(x, f as real);
      IntegerReturned(fraction, total, f);
    } else if g > 0 {
      BetweenIntegers(x - f as real, g);
      JustAbove(fraction, total, f);
    } else {
      UnitsAbove(x, m, f - 1, DECIMALS + g);
      BetweenIntegers(x - (f - 1) as real, DECIMALS + g);
      IntegersAreDoubles(f);
      var b := x - (f - 1) as real;
      assert b > 0.5 by { LessFromProducts(0.5, b, DECIMALS as real); }
      UpperReturned(fraction, total, f - 1, f as real);
    }
  }

  lemma LessOrEqualFromProducts(x: real, y: real)
    requires (x - y) * DECIMALS as real == 0.0
    ensures x == y
  {
  }

  lemma NextDoubleIsFar(f: int, d: real, b: real)
    requires 1 <= f <= TWO_52 && IsDouble(d) && d > f as real && b > 0.0 && 2.0 * b * 10000000000000000.0 <= f as real
    ensures d - f as real > 2.0 * b
  {
    GapAboveInteger(f, d);
    if d - f as real < 1.0 {
      LessFromProducts(2.0 * b, d - f as real, TWO_53 as real);
    }
  }

  /** Far from the next double above it, an integer absorbs the decimal error. */
  lemma ErrorAbsorbed(x: real, f: int, g: int)
    requires 1 <= f <= TWO_52 && 0 < g && 2 * g <= 10000 * f
    requires (x - f as real) * DECIMALS as real == g as real
    ensures Number(x) == f as real
  {
    var b := x - f as real;
    assert b > 0.0 by { LessFromProducts(0.0, b, DECIMALS as real); }
    assert 2.0 * b * DECIMALS as real <= 10000.0 * f as real;
    IntegersAreDoubles(f);
    var r := Number(x);
    assert Abs(x - r) <= Abs(x - f as real);
    if r > f as real { NextDoubleIsFar(f, r, b); }
  }

  lemma ShareWithRemainder(nominator: nat, denominator: nat, total: nat)
    requires nominator <= denominator && 0 < denominator && total * denominator <= TWO_52
    requires nominator * total % denominator > 0
    ensures RatioShareRoundedUpOf(nominator, denominator, total) == (nominator * total / denominator + 1) as real
  {
    var f, rem := nominator * total / denominator, nominator * total % denominator;
    ShareOfParts(nominator, denominator, total, f, rem);
  }

  lemma ShareOfParts(nominator: nat, denominator: nat, total: nat, f: int, rem: int)
    requires nominator <= denominator && 0 < denominator && total * denominator <= TWO_52
    requires nominator * total == f * denominator + rem && 0 < rem < denominator
    ensures RatioShareRoundedUpOf(nominator, denominator, total) == (f + 1) as real
  {
    var m, g := FractionalUnits(nominator, denominator, total, f, rem);
    FractionalShare(Div(nominator, denominator), total, f, g, denominator, m);
  }

  lemma FractionalUnits(nominator: nat, denominator: nat, total: nat, f: int, rem: int) returns (m: int, g: int)
    requires nominator <= denominator && 0 < denominator && total * denominator <= TWO_52
    requires nominator * total == f * denominator + rem && 0 < rem < denominator
    ensures IsProduct(nominator, denominator, total, m) && m == f * DECIMALS + g
    ensures 0 <= f < total && 0 < g < DECIMALS && 2 * g * denominator > DECIMALS
  {
    var e: int;
    m, e := Product(nominator, denominator, total);
    g := m - f * DECIMALS;
    SplitProduct(m, e, f, rem, g, nominator * total, denominator);
    QuotientBelow(nominator, denominator, total, f, rem);
    UnitsInside(g, rem, e, denominator);
  }

  lemma WholeUnits(nominator: nat, denominator: nat, total: nat, f: int) returns (m: int, g: int)
    requires nominator <= denominator && 0 < denominator && total * denominator <= TWO_52
    requires f * denominator == nominator * total
    ensures Div(nominator, denominator) * total as real * DECIMALS as real == m as real && m == f * DECIMALS + g && m >= 0
    ensures 0 <= f <= TWO_52 && -TWO_52 <= 2 * g <= TWO_52 && 2 * g <= total && -2 * g <= total
    ensures f == 0 || nominator == 0 ==> f == 0 && g == 0
  {
    var e: int;
    m, e := Product(nominator, denominator, total);
    g := m - f * DECIMALS;
    SplitProduct(m, e, f, 0, g, nominator * total, denominator);
    TotalBound(total, denominator);
    QuotientBelow(nominator, denominator, total, f, 0);
    UnitsSmall(g, e, denominator, total);
    if nominator == 0 { CancelAtMost(f, 0, denominator); }
    if f == 0 { NothingShared(nominator, denominator, total, m, g); }
  }

  lemma LargeRatioAbsorbs(fraction: real, f: int, g: int, m: int, n: nat, d: nat, t: nat)
    requires fraction * t as real * DECIMALS as real == m as real && m == f * DECIMALS + g
    requires 0 < d && n * 10000 >= d && f * d == n * t && 1 <= f <= TWO_52 && 0 < g && 2 * g <= t
    ensures Number(fraction * t as real) == f as real
  {
    var x := fraction * t as real;
    RatioToShare(n, d, t, f);
    UnitsAbove(x, m, f, g);
    ErrorAbsorbed(x, f, g);
  }

  lemma ShareWithoutRemainder(nominator: nat, denominator: nat, total: nat, f: int)
    requires nominator <= denominator && 0 < denominator && total * denominator <= TWO_52
    requires f * denominator == nominator * total
    ensures RatioShareRoundedUpOf(nominator, denominator, total) ==
      if Overshoots(Div(nominator, denominator), total, f) then f as real + 1.0 else f as real
    ensures nominator == 0 || nominator * 10000 >= denominator ==> !Overshoots(Div(nominator, denominator), total, f)
  {
    var fraction := Div(nominator, denominator);
    var m, g := WholeUnits(nominator, denominator, total, f);
    ShareOfUnits(fraction, nominator, denominator, total, f, m, g);
    assert RatioShareRoundedUpOf(nominator, denominator, total) == DecimalShareRoundedUpOf(fraction, total);
  }

  lemma ShareOfUnits(fraction: real, n: nat, d: nat, t: nat, f: int, m: int, g: int)
    requires fraction * t as real * DECIMALS as real == m as real && m == f * DECIMALS + g && m >= 0
    requires 0 < d && f * d == n * t && 2 * g <= t
    requires 0 <= f <= TWO_52 && -TWO_52 <= 2 * g <= TWO_52
    requires f == 0 || n == 0 ==> f == 0 && g == 0
    ensures DecimalShareRoundedUpOf(fraction, t) == if Overshoots(fraction, t, f) then f as real + 1.0 else f as real
    ensures n == 0 || n * 10000 >= d ==> !Overshoots(fraction, t, f)
  {
    WholeShare(fraction, t, f, g, m);
    if g > 0 && n * 10000 >= d { LargeRatioAbsorbs(fraction, f, g, m, n, d, t); }
  }

  /** The rounding bound. While total times denominator is at most 2^52, the share is
      the exact one rounded up, or one more. It is one more if and only if the exact share
      is whole and the decimal product lies above it, too far to be read as it; and it is
      exact when the ratio is zero or at least one to ten thousand. */
  lemma RatioShareBound(nominator: nat, denominator: nat, total: nat)
    requires nominator <= denominator && 0 < denominator && total * denominator <= TWO_52
    ensures var r, exact := RatioShareRoundedUpOf(nominator, denominator, total), Ceiling(nominator * total, denominator);
      && (r == exact as real || r == exact as real + 1.0)
      && (r != exact as real <==>
           nominator * total % denominator == 0 && Overshoots(Div(nominator, denominator), total, exact))
      && (nominator == 0 || nominator * 10000 >= denominator ==> r == exact as real)
  {
    if nominator * total % denominator > 0 {
      ShareWithRemainder(nominator, denominator, total);
    } else {
      ShareWithoutRemainder(nominator, denominator, total, nominator * total / denominator);
    }
  }

  lemma SplitProduct(m: int, e: int, f: int, rem: int, g: int, n: int, d: int)
    requires d > 0 && n == f * d + rem && g == m - f * DECIMALS && e == m * d - n * DECIMALS
    ensures g * d == rem * DECIMALS + e
  {
  }

  lemma TotalBound(t: int, d: int)
    requires 0 <= t && 1 <= d && t * d <= TWO_52
    ensures t <= TWO_52
  {
    assert t * d >= t * 1;
  }

  lemma CancelAtMost(a: int, b: int, d: int)
    requires d > 0 && a * d <= b * d
    ensures a <= b
  {
    if a > b { ScaledBound(b + 1, a, d); }
  }

  lemma CancelLess(a: int, b: int, d: int)
    requires d > 0 && a * d < b * d
    ensures a < b
  {
    if a >= b { ScaledBound(b, a, d); }
  }

  lemma QuotientBelow(n: nat, d: nat, t: nat, f: int, rem: int)
    requires n <= d && 0 < d && f * d + rem == n * t && 0 <= rem < d
    ensures 0 <= f <= t && (rem > 0 ==> f < t)
  {
    ScaledBound(n, d, t);
    assert n * t >= 0;
    if rem > 0 { CancelLess(f, t, d); } else { CancelAtMost(f, t, d); }
    CancelLess(-1, f, d);
  }

  lemma UnitsInside(g: int, rem: int, e: int, d: int)
    requires 0 < rem < d && g * d == rem * DECIMALS + e && -TWO_52 <= 2 * e <= TWO_52
    ensures 0 < g < DECIMALS && 2 * g * d > DECIMALS
  {
    assert rem * DECIMALS >= DECIMALS;
    assert (d - rem) * DECIMALS >= DECIMALS;
    CancelLess(0, g, d);
    CancelLess(g, DECIMALS, d);
  }

  lemma UnitsSmall(g: int, e: int, d: int, t: int)
    requires d > 0 && g * d == e && 2 * e <= d * t && -2 * e <= d * t
    ensures 2 * g <= t && -2 * g <= t
  {
    CancelAtMost(2 * g, t, d);
    CancelAtMost(-2 * g, t, d);
  }

  lemma NothingShared(n: nat, d: nat, t: nat, m: int, g: int)
    requires 0 < d && n * t == 0 && m == g && (n == 0 ==> m == 0) && 2 * g <= t && -2 * g <= t
    ensures g == 0
  {
    if n > 0 { CancelAtMost(t, 0, n); }
  }

  lemma RatioToShare(n: nat, d: nat, t: nat, f: int)
    requires 0 < d && n * 10000 >= d && f * d == n * t
    ensures 10000 * f >= t
  {
    ScaledBound(d, n * 10000, t);
    assert 10000 * f * d == n * 10000 * t;
    CancelAtMost(t, 10000 * f, d);
  }

  /** Whole percentages are exact. */
  lemma PercentageShareIsExact(percentage: nat, total: nat)
    requires percentage <= 100 && total * 100 <= TWO_52
    ensures PercentageShareRoundedUpOf(percentage, total) == Ceiling(percentage * total, 100) as real
  {
    RatioShareBound(percentage, 100, total);
  }

  lemma SmallQuotient()
    ensures Div(1, 6000000) * 6000000 as real == 1.00000000000002
  {
    var x := 1 as real / 6000000 as real * DECIMALS as real;
    assert x * 6000000.0 == DECIMALS as real;
    assert 16666666666667.0 <= x + 0.5 < 16666666666668.0;
    assert RoundHalfUp(x) == 16666666666667;
  }

  lemma Pow2Of52()
    ensures Pow2(52) == TWO_52
  {
    Pow2Add(26, 26);
    Pow2Add(13, 13);
    assert Pow2(13) == 8192;
  }

  lemma CloserDouble(x: real) returns (near: real)
    requires x == 1.00000000000002
    ensures IsDouble(near) && 1.00000000000001 < near < x
  {
    near := (TWO_52 + 90) as real / TWO_52 as real;
    assert near * TWO_52 as real == (TWO_52 + 90) as real;
    Pow2Of52();
    assert ScaledDown(near, TWO_52 + 90, 52);
  }

  lemma SomeDoubleIsCloser(x: real)
    requires x == 1.00000000000002
    ensures Number(x) != 1.0
  {
    var near := CloserDouble(x);
    assert Abs(x - Number(x)) <= Abs(x - near);
  }

  lemma ShareJustAboveOne(fraction: real, total: int)
    requires fraction * total as real == 1.00000000000002
    ensures DecimalShareRoundedUpOf(fraction, total) == 2.0
  {
    SomeDoubleIsCloser(fraction * total as real);
    JustAbove(fraction, total, 1);
  }

  /** For smaller ratios the share can be one too many: one six-millionth of six million
      is two. */
  lemma TinyRatioOvershoots()
    ensures Ceiling(1 * 6000000, 6000000) == 1 && 6000000 * 6000000 <= TWO_52
    ensures RatioShareRoundedUpOf(1, 6000000, 6000000) == 2.0
  {
    SmallQuotient();
    ShareJustAboveOne(Div(1, 6000000), 6000000);
  }
}
