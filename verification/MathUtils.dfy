/** The 18-decimal fixed-point kernel. */
module MathUtils {
  import opened Rounding

  const PRECISE_UNIT: int := 1_000_000_000_000_000_000

  function PreciseMul(a: int, b: int): (r: int)
    ensures a >= 0 && b >= 0 ==> r == a * b / PRECISE_UNIT >= 0
  {
    TruncDiv(a * b, PRECISE_UNIT)
  }

  function PreciseMulCeil(a: int, b: int): (r: int)
    ensures a >= 0 && b >= 0 ==> r == CeilDiv(a * b, PRECISE_UNIT) >= 0
  {
    if a == 0 || b == 0 then 0 else
    TruncDiv(a * b - 1, PRECISE_UNIT) + 1
  }

  function PreciseMulCeilInt(a: int, b: int): int {
    if a == 0 || b == 0 then
      0
    else if (a > 0 && b > 0) || (a < 0 && b < 0) then
      TruncDiv(a * b - 1, PRECISE_UNIT) + 1
    else
      TruncDiv(a * b + 1, PRECISE_UNIT) - 1
  }

  function PreciseDiv(a: int, b: int): (r: int)
    requires b != 0
    ensures a >= 0 && b > 0 ==> r == a * PRECISE_UNIT / b >= 0
  {
    TruncDiv(a * PRECISE_UNIT, b)
  }

  function PreciseDivCeil(a: int, b: int): (r: int)
  {
    if a == 0 || b == 0 then 0 else
    TruncDiv(a * PRECISE_UNIT - 1, b) + 1
  }

  function PreciseDivCeilInt(a: int, b: int): int
    requires b != 0
  {
    var result := TruncDiv(a * PRECISE_UNIT, b);
    if result * b == a * PRECISE_UNIT then
      result
    else if (a > 0 && b > 0) || (a < 0 && b < 0) then
      result + 1
    else
      result - 1
  }

  function DivDown(a: int, b: int): int
    requires b != 0
  {
    var result := TruncDiv(a, b);
    if a < 0 && b > 0 && Mod(a, b) != 0 then
      result - 1
    else if a > 0 && b < 0 && Mod(a, b * -1) != 0 then
      result - 1
    else
      result
  }

  function Min(valueOne: int, valueTwo: int): int {
    if valueOne < valueTwo then valueOne else valueTwo
  }

  lemma DivCeilIsCeil(a: nat, b: nat)
    requires b > 0
    ensures PreciseDivCeil(a, b) == CeilDiv(a * PRECISE_UNIT, b) >= 0
  {
    if a > 0 {
      CeilByPredecessor(a * PRECISE_UNIT, b);
    } else {
      CeilUnique(0, b, 0);
    }
  }

  /** The exact ceiling of a quotient whose divisor may be negative. */
  function CeilOf(n: int, b: int): int
    requires b != 0
  {
    if b > 0 then CeilDiv(n, b) else CeilDiv(-n, -b)
  }

  /** On signed inputs the predecessor formula is exact for a positive quotient of positive numbers, for a negative
      dividend whose predecessor divides, and for two negative numbers unless the dividend or its predecessor
      divides. */
  lemma DivCeilExactIff(a: int, b: int)
    requires b != 0
    ensures var n := a * PRECISE_UNIT;
            PreciseDivCeil(a, b) == CeilOf(n, b) <==>
            if a == 0 then true
            else if b > 0 then a > 0 || (n - 1) % b == 0
            else a < 0 && n % -b != 0 && (n - 1) % -b != 0
  {
    if a != 0 { PredecessorExactIff(a * PRECISE_UNIT, b); }
  }

  lemma PredecessorExactIff(n: int, b: int)
    requires n != 0 && b != 0
    ensures TruncDiv(n - 1, b) + 1 == CeilOf(n, b) <==>
            if b > 0 then n > 0 || (n - 1) % b == 0 else n < 0 && n % -b != 0 && (n - 1) % -b != 0
  {
    var m, d := Abs(n), Abs(b);
    if b > 0 && n > 0 {
      CeilByPredecessor(m, d);
    } else if n < 0 {
      NegatedDivides(m, d);
      NegatedDivides(m + 1, d);
      SuccessorAgainstCeilings(m, d);
    } else {
      FloorMono(m - 1, m, d);
    }
  }

  /** The predecessor of a negative dividend is the successor of its magnitude. */
  lemma SuccessorAgainstCeilings(m: int, d: int)
    requires m >= 0 && d > 0
    ensures -((m + 1) / d) + 1 == CeilDiv(-m, d) <==> (m + 1) % d == 0
    ensures (m + 1) / d + 1 == CeilDiv(m, d) <==> m % d != 0 && (m + 1) % d != 0
  {
    QuotientOfSuccessor(m, d);
    CeilFromFloor(m, d);
  }

  lemma NegatedDivides(x: int, d: int)
    requires d > 0
    ensures (-x) % d == 0 <==> x % d == 0
  {
    FloorOfNegation(x, d);
    DivModIdentity(x, d);
    DivModIdentity(-x, d);
    NegatedRemainder(x / d, x % d, (-x) / d, (-x) % d, d);
  }

  lemma NegatedRemainder(q: int, r: int, q': int, r': int, d: int)
    requires -(q * d + r) == q' * d + r' && q' == -q - (if r == 0 then 0 else 1)
    requires 0 <= r < d && 0 <= r' < d
    ensures r' == 0 <==> r == 0
  {
    MulNegates(q, d);
    MulDistributes(-q, -1, d);
  }

  lemma QuotientOfSuccessor(x: nat, d: int)
    requires d > 0
    ensures (x + 1) / d == x / d + (if (x + 1) % d == 0 then 1 else 0)
  {
    var q, r := x / d, x % d;
    FloorUnique(x + 1, d, if r + 1 == d then q + 1 else q);
  }

  // ----- the two adjunctions -----

  /** Multiplying down and dividing up: the least x whose product reaches y is the quotient rounded up. */
  lemma MulGalois(x: nat, y: nat, b: nat)
    requires b > 0
    ensures PreciseMul(x, b) >= y <==> x >= PreciseDivCeil(y, b)
  {
    DivCeilIsCeil(y, b);
    CeilGalois(y * PRECISE_UNIT, b, x);
  }

  /** Multiplying up and dividing down: the greatest x whose product stays within y is the quotient rounded down. */
  lemma MulCeilGalois(x: nat, y: nat, b: nat)
    requires b > 0
    ensures PreciseMulCeil(x, b) <= y <==> x <= PreciseDiv(y, b)
  {
    FloorGalois(y * PRECISE_UNIT, b, x);
  }

  /** Both round trips are exact for every factor up to one unit. */
  lemma RoundTrips(y: nat, b: nat)
    requires 0 < b <= PRECISE_UNIT
    ensures PreciseMul(PreciseDivCeil(y, b), b) == y
    ensures PreciseMulCeil(PreciseDiv(y, b), b) == y
  {
    var up := PreciseDivCeil(y, b);
    DivCeilIsCeil(y, b);
    CeilBounds(y * PRECISE_UNIT, b);
    FloorUnique(up * b, PRECISE_UNIT, y);
    var down := PreciseDiv(y, b);
    FloorBounds(y * PRECISE_UNIT, b);
    FloorGalois(y * PRECISE_UNIT, b, 0);
    CeilUnique(down * b, PRECISE_UNIT, y);
  }

  /** The first value a factor b > PRECISE_UNIT skips over. */
  function SkippedValue(b: nat): nat
    requires b > PRECISE_UNIT
  {
    CeilDiv(PRECISE_UNIT, b - PRECISE_UNIT)
  }

  lemma SkippedValueIsSkipped(x: nat, b: nat)
    requires b > PRECISE_UNIT
    ensures PreciseMul(x, b) != SkippedValue(b)
  {
    var y := SkippedValue(b);
    if x >= y { MulMono(y, x, b); } else { MulMono(x, y - 1, b); }
  }

  /** ... and for no larger factor: the first round trip is the identity exactly when b <= PRECISE_UNIT. */
  lemma RoundTripExactIff(b: nat)
    requires b > 0
    ensures (forall y: nat :: PreciseMul(PreciseDivCeil(y, b), b) == y) <==> b <= PRECISE_UNIT
  {
    if b <= PRECISE_UNIT {
      forall y: nat ensures PreciseMul(PreciseDivCeil(y, b), b) == y { RoundTrips(y, b); }
    } else {
      var y := SkippedValue(b);
      assert y >= 0 by { CeilGalois(PRECISE_UNIT, b - PRECISE_UNIT, -1); }
      DivCeilIsCeil(y, b);
      SkippedValueIsSkipped(PreciseDivCeil(y, b), b);
    }
  }

  // ----- signed rounding -----

  /** `divDown` is the exact floor of a / b, whatever the signs. */
  lemma DivDownIsFloor(a: int, b: int)
    requires b != 0
    ensures b > 0 ==> DivDown(a, b) * b <= a < (DivDown(a, b) + 1) * b
    ensures b < 0 ==> DivDown(a, b) * b >= a > (DivDown(a, b) + 1) * b
  {
    if b > 0 {
      DivDownPositive(a, b);
      FloorBounds(a, b);
    } else {
      var q := -a / -b;
      DivDownNegative(a, b);
      FloorBounds(-a, -b);
      MulNegates(q, b);
      MulNegates(q + 1, b);
    }
  }

  lemma DivDownPositive(a: int, b: int)
    requires b > 0
    ensures DivDown(a, b) == a / b
  {
    FloorOfNegation(a, b);
  }

  lemma DivDownNegative(a: int, b: int)
    requires b < 0
    ensures DivDown(a, b) == -a / -b
  {
    FloorOfNegation(a, -b);
  }

  /** `preciseMulCeilInt` rounds away from zero: the sign of the product, the ceiling of its magnitude. */
  lemma MulCeilIntAwayFromZero(a: int, b: int)
    ensures Abs(PreciseMulCeilInt(a, b)) == CeilDiv(Abs(a * b), PRECISE_UNIT)
    ensures PreciseMulCeilInt(a, b) > 0 <==> a * b > 0
    ensures PreciseMulCeilInt(a, b) < 0 <==> a * b < 0
  {
  }

  /** `preciseDivCeilInt` rounds away from zero. */
  lemma DivCeilIntAwayFromZero(a: int, b: int)
    requires b != 0
    ensures Abs(PreciseDivCeilInt(a, b)) == CeilDiv(Abs(a) * PRECISE_UNIT, Abs(b))
    ensures PreciseDivCeilInt(a, b) > 0 <==> (a > 0 && b > 0) || (a < 0 && b < 0)
    ensures PreciseDivCeilInt(a, b) < 0 <==> (a > 0 && b < 0) || (a < 0 && b > 0)
  {
    var n := a * PRECISE_UNIT;
    TruncMagnitude(n, b);
    TruncIsExactIff(n, b);
    CeilFromFloor(Abs(n), Abs(b));
  }

  /** The truncated quotient times its divisor gives the dividend back exactly when the magnitudes divide. */
  lemma TruncIsExactIff(n: int, b: int)
    requires b != 0
    ensures TruncDiv(n, b) * b == n <==> Abs(n) % Abs(b) == 0
  {
    DivModIdentity(Abs(n), Abs(b));
    SignedProduct(n, b, Abs(n) / Abs(b), Abs(n) % Abs(b));
  }

  lemma SignedProduct(n: int, b: int, q: int, r: nat)
    requires Abs(n) == q * Abs(b) + r
    ensures (if (n < 0) != (b < 0) then -q else q) * b == n <==> r == 0
  {
    MulNegates(q, b);
  }

  /** The unsigned `preciseMulCeil` is the ceiling of a negative product only when the product misses a multiple by
      one. */
  lemma MulCeilExactIff(a: int, b: int)
    ensures PreciseMulCeil(a, b) == CeilDiv(a * b, PRECISE_UNIT) <==> (a * b >= 0 || (a * b - 1) % PRECISE_UNIT == 0)
  {
    AbsMul(a, b);
  }

  lemma PreciseMulSign(a: int, b: nat)
    ensures a >= 0 ==> PreciseMul(a, b) >= 0
    ensures a <= 0 ==> PreciseMul(a, b) <= 0
    ensures Abs(PreciseMul(a, b)) == Abs(a) * b / PRECISE_UNIT
  {
  }

  lemma PreciseDivSign(a: int, b: nat)
    requires b > 0
    ensures a >= 0 ==> PreciseDiv(a, b) >= 0
    ensures a <= 0 ==> PreciseDiv(a, b) <= 0
    ensures Abs(PreciseDiv(a, b)) == Abs(a) * PRECISE_UNIT / b
  {
  }

  /** Storing a real unit as a virtual one and reading it back with `divDown` is conservative for assets and debts
      alike: it never rounds up, and loses less than one plus multiplier / PRECISE_UNIT. */
  lemma VirtualUnitConservative(unit: int, multiplier: nat)
    requires multiplier > 0
    ensures var back := DivDown(DivDown(unit * PRECISE_UNIT, multiplier) * multiplier, PRECISE_UNIT);
            back <= unit && (unit - back - 1) * PRECISE_UNIT < multiplier
  {
    DivDownPositive(unit * PRECISE_UNIT, multiplier);
    var virtual := unit * PRECISE_UNIT / multiplier;
    FloorBounds(unit * PRECISE_UNIT, multiplier);
    MulDistributes(virtual, 1, multiplier);
  }
}
