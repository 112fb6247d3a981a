/**
 Integer division as the protocol's big-number library performs it, and the floor and ceiling
 functions everything is measured against. Each rounding is characterised by the one inequality
 a proof needs: `FloorGalois` and `CeilGalois`.
 */
module Rounding {

  function Abs(x: int): nat {
    if x < 0 then -x else x
  }

  /** `BigNumber.div`: truncates toward zero. The library throws on a zero divisor. */
  function TruncDiv(a: int, b: int): (q: int)
    requires b != 0
    ensures b > 0 && a >= 0 ==> q == a / b
  {
    var magnitude := Abs(a) / Abs(b);
    if (a < 0) != (b < 0) then -magnitude else magnitude
  }

  /** `BigNumber.mod`: never negative, and defined only for a divisor that is not negative. */
  function Mod(a: int, b: int): (r: int)
    requires b > 0
    ensures 0 <= r < b
  {
    a % b
  }

  /** The exact ceiling of x / d. Dafny's `/` is the exact floor when d > 0. */
  function CeilDiv(x: int, d: int): int
    requires d > 0
  {
    -((-x) / d)
  }

  lemma MulMono(a: int, b: int, c: int)
    requires a <= b && 0 <= c
    ensures a * c <= b * c
  {
  }

  lemma MulCancel(a: int, b: int, c: int)
    requires a * c <= b * c && 0 < c
    ensures a <= b
  {
  }

  lemma MulDistributes(a: int, b: int, c: int)
    ensures (a + b) * c == a * c + b * c
  {
  }

  /** Ratios a / s <= b / t <= c / u compose, cross-multiplied. */
  lemma RatioTransitive(a: nat, s: nat, b: nat, t: nat, c: nat, u: nat)
    requires t > 0 && a * t <= b * s && b * u <= c * t
    ensures a * u <= c * s
  {
  }

  lemma DivModIdentity(x: int, d: int)
    requires d > 0
    ensures x == x / d * d + x % d
  {
  }

  lemma FloorBounds(x: int, d: int)
    requires d > 0
    ensures x / d * d <= x < (x / d + 1) * d
  {
  }

  lemma CeilBounds(x: int, d: int)
    requires d > 0
    ensures (CeilDiv(x, d) - 1) * d < x <= CeilDiv(x, d) * d
  {
  }

  /** Rounding down is the upper adjoint of multiplication. */
  lemma FloorGalois(x: int, d: int, k: int)
    requires d > 0
    ensures k <= x / d <==> k * d <= x
  {
    FloorBounds(x, d);
  }

  /** Rounding up is the lower adjoint of multiplication. */
  lemma CeilGalois(x: int, d: int, k: int)
    requires d > 0
    ensures CeilDiv(x, d) <= k <==> x <= k * d
  {
    FloorGalois(-x, d, -k);
  }

  /** The only integer between the two bounds is the floor. */
  lemma FloorUnique(x: int, d: int, q: int)
    requires d > 0 && q * d <= x < (q + 1) * d
    ensures q == x / d
  {
    FloorGalois(x, d, q);
    FloorGalois(x, d, q + 1);
  }

  lemma CeilUnique(x: int, d: int, q: int)
    requires d > 0 && (q - 1) * d < x <= q * d
    ensures q == CeilDiv(x, d)
  {
    CeilGalois(x, d, q);
    CeilGalois(x, d, q - 1);
  }

  /** The usual way of writing a ceiling with a truncating division. */
  lemma CeilByPredecessor(x: int, d: int)
    requires d > 0 && x > 0
    ensures TruncDiv(x - 1, d) + 1 == CeilDiv(x, d)
  {
    CeilUnique(x, d, (x - 1) / d + 1);
  }

  lemma MulNegates(a: int, b: int)
    ensures -a * b == -(a * b) && a * -b == -(a * b)
  {
  }

  lemma FloorOfNegation(a: int, d: int)
    requires d > 0
    ensures (-a) / d == -(a / d) - (if a % d == 0 then 0 else 1)
  {
    var q, r := a / d, a % d;
    FloorUnique(-a, d, if r == 0 then -q else -q - 1);
  }

  lemma CeilFromFloor(x: nat, d: int)
    requires d > 0
    ensures CeilDiv(x, d) == x / d + (if x % d == 0 then 0 else 1)
    ensures 0 <= x / d && (x > 0 ==> 0 < CeilDiv(x, d))
  {
    FloorOfNegation(x, d);
  }

  lemma FloorMono(x: int, y: int, d: int)
    requires d > 0 && x <= y
    ensures x / d <= y / d
  {
    FloorGalois(y, d, x / d);
  }

  lemma FloorSuperadditive(x: int, y: int, z: int, d: int)
    requires d > 0 && x + y <= z
    ensures x / d + y / d <= z / d
  {
    FloorGalois(z, d, x / d + y / d);
  }

  /** Two roundings down with a scaling between them are superadditive together. */
  lemma NestedFloorsSuperadditive(x: int, y: int, z: int, scale: nat, d: int)
    requires d > 0 && x + y <= z
    ensures x / d * scale / d + y / d * scale / d <= z / d * scale / d
  {
    FloorSuperadditive(x, y, z, d);
    FloorSuperadditive(x / d * scale, y / d * scale, z / d * scale, d);
  }

  lemma FloorOfSum(z: int, x: int, y: int, d: int)
    requires d > 0 && z <= x + y
    ensures z / d <= x / d + CeilDiv(y, d)
  {
    FloorGalois(z, d, x / d + CeilDiv(y, d) + 1);
  }

  /** The truncated quotient: the floor of the magnitudes, with the sign of the exact quotient. */
  lemma TruncMagnitude(a: int, b: int)
    requires b != 0
    ensures Abs(TruncDiv(a, b)) == Abs(a) / Abs(b)
    ensures TruncDiv(a, b) > 0 ==> (a > 0 && b > 0) || (a < 0 && b < 0)
    ensures TruncDiv(a, b) < 0 ==> (a > 0 && b < 0) || (a < 0 && b > 0)
  {
    FloorBounds(Abs(a), Abs(b));
    assert 0 <= Abs(a) / Abs(b) by { FloorGalois(Abs(a), Abs(b), 0); }
    if a == 0 { FloorUnique(0, Abs(b), 0); }
  }

  lemma AbsMul(a: int, b: int)
    ensures Abs(a * b) == Abs(a) * Abs(b)
    ensures (a > 0 && b > 0) || (a < 0 && b < 0) <==> a * b > 0
    ensures (a > 0 && b < 0) || (a < 0 && b > 0) <==> a * b < 0
  {
  }
}
