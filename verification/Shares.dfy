/** The share of a pooled amount that a quantity of tokens stands for: divided by the supply, then multiplied. */
module Shares {
  import opened Rounding
  import opened MathUtils

  function ShareOf(amount: int, totalSupply: int, quantity: int): int
    requires totalSupply != 0
  {
    PreciseMul(PreciseDiv(amount, totalSupply), quantity)
  }

  /** A share is on the side of its amount, never larger than the exact share, and misses it by little. */
  lemma ShareBounds(amount: int, totalSupply: nat, quantity: nat)
    requires 0 < totalSupply && quantity <= totalSupply
    ensures var share := ShareOf(amount, totalSupply, quantity);
            && (amount >= 0 ==> 0 <= share <= amount)
            && (amount <= 0 ==> amount <= share <= 0)
            && Abs(share) * totalSupply <= Abs(amount) * quantity
            && (Abs(amount) * quantity - (Abs(share) + 1) * totalSupply) * PRECISE_UNIT < quantity * totalSupply
  {
    var unit := PreciseDiv(amount, totalSupply);
    var share := ShareOf(amount, totalSupply, quantity);
    PreciseDivSign(amount, totalSupply);
    PreciseMulSign(unit, quantity);
    FloorBounds(Abs(amount) * PRECISE_UNIT, totalSupply);
    ShareArithmetic(Abs(amount), Abs(unit), Abs(share), totalSupply, quantity, PRECISE_UNIT);
  }

  /** A share's magnitude is the amount per token, rounded down, times the quantity, rounded down again. */
  lemma ShareIsTwoFloors(amount: int, totalSupply: nat, quantity: nat, k: int)
    requires 0 < totalSupply
    ensures k <= Abs(ShareOf(amount, totalSupply, quantity))
       <==> k * PRECISE_UNIT <= Abs(amount) * PRECISE_UNIT / totalSupply * quantity
  {
    PreciseDivSign(amount, totalSupply);
    PreciseMulSign(PreciseDiv(amount, totalSupply), quantity);
    FloorGalois(Abs(amount) * PRECISE_UNIT / totalSupply * quantity, PRECISE_UNIT, k);
  }

  lemma ShareArithmetic(b: nat, unit: nat, share: nat, s: nat, q: nat, one: nat)
    requires 0 < s && one > 0
    requires unit * s <= b * one < (unit + 1) * s
    requires share * one <= unit * q < (share + 1) * one
    ensures share * s <= b * q && (q <= s ==> share <= b)
    ensures (b * q - (share + 1) * s) * one < q * s
  {
    MulMono(share * one, unit * q, s);
    MulMono(unit * s, b * one, q);
    ShareIdentity(b, unit, share, s, q, one);
    MulCancel(share * s, b * q, one);
    if q <= s {
      MulMono(q, s, b);
      MulCancel(share, b, s);
    }
    MulMono(b * one + 1, (unit + 1) * s, q);
    MulMono(unit * q + 1, (share + 1) * one, s);
  }

  lemma ShareIdentity(b: int, unit: int, share: int, s: int, q: int, one: int)
    ensures share * one * s == share * s * one && unit * q * s == unit * s * q && b * one * q == b * q * one
    ensures (unit + 1) * s * q == unit * q * s + q * s && (b * one + 1) * q == b * q * one + q
    ensures (unit * q + 1) * s == unit * q * s + s && (share + 1) * one * s == (share + 1) * s * one
    ensures (b * q - (share + 1) * s) * one == b * q * one - (share + 1) * s * one
  {
  }

  function Sum(quantities: seq<nat>): nat {
    if quantities == [] then 0 else quantities[0] + Sum(quantities[1..])
  }

  function SumOfShares(amount: nat, totalSupply: nat, quantities: seq<nat>): int
    requires totalSupply > 0
  {
    if quantities == [] then 0 else
    ShareOf(amount, totalSupply, quantities[0]) + SumOfShares(amount, totalSupply, quantities[1..])
  }

  /** However holders split the supply among themselves, their shares together never exceed the share of their
      total, so never the whole amount. */
  lemma {:induction false} SharesWithinWhole(amount: nat, totalSupply: nat, quantities: seq<nat>)
    requires 0 < totalSupply && Sum(quantities) <= totalSupply
    ensures var together := ShareOf(amount, totalSupply, Sum(quantities));
            0 <= SumOfShares(amount, totalSupply, quantities) <= together <= amount
  {
    ShareBounds(amount, totalSupply, Sum(quantities));
    if quantities != [] {
      var q, rest := quantities[0], quantities[1..];
      SharesWithinWhole(amount, totalSupply, rest);
      ShareBounds(amount, totalSupply, q);
      SharesSuperadditive(amount, totalSupply, q, Sum(rest));
    }
  }

  /** ... and together they miss the exact share of their total by little for each of them. */
  lemma {:induction false} SharesMissLittle(amount: nat, totalSupply: nat, quantities: seq<nat>)
    requires 0 < totalSupply && Sum(quantities) <= totalSupply
    ensures var together := SumOfShares(amount, totalSupply, quantities);
            (amount * Sum(quantities) - (together + |quantities|) * totalSupply) * PRECISE_UNIT
            <= Sum(quantities) * totalSupply
  {
    if quantities != [] {
      var q, rest := quantities[0], quantities[1..];
      SharesMissLittle(amount, totalSupply, rest);
      ShareBounds(amount, totalSupply, q);
      MissesAdd(amount, totalSupply, q, Sum(rest), ShareOf(amount, totalSupply, q),
                SumOfShares(amount, totalSupply, rest), |rest|);
    }
  }

  lemma MissesAdd(amount: int, s: int, q: int, rest: int, share: int, together: int, n: int)
    requires (amount * q - (share + 1) * s) * PRECISE_UNIT <= q * s
    requires (amount * rest - (together + n) * s) * PRECISE_UNIT <= rest * s
    ensures (amount * (q + rest) - (share + together + (n + 1)) * s) * PRECISE_UNIT <= (q + rest) * s
  {
  }

  lemma SharesSuperadditive(amount: nat, totalSupply: nat, q: nat, r: nat)
    requires 0 < totalSupply
    ensures ShareOf(amount, totalSupply, q) + ShareOf(amount, totalSupply, r) <= ShareOf(amount, totalSupply, q + r)
  {
  }
}
