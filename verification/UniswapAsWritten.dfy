/**
 The pool calculators with their comparisons of big-number objects taken literally: `<` and `>` order decimal strings,
 and `==` and `!=` compare object identity, so a freshly computed number never equals the constant zero.
 */
module UniswapAsWritten {
  import opened Wrappers
  import opened Rounding
  import opened MathUtils
  import opened DecimalOrder
  import opened Uniswap

  function MinAsWritten(valueOne: int, valueTwo: int): int {
    if StringLess(valueOne, valueTwo) then valueOne else valueTwo
  }

  /** What a caller can check beforehand: the smaller value, padded with zeros to the length of the larger, does not
      exceed it. */
  predicate PaddingKeepsOrder(x: nat, y: nat) {
    var lo, hi := Min(x, y), x + y - Min(x, y);
    DigitCountMono(lo, hi);
    lo * Pow10(DigitCount(hi) - DigitCount(lo)) <= hi
  }

  /** Taken literally, `min` returns the smaller value exactly for such pairs, and otherwise the larger. */
  lemma MinAsWrittenIff(x: nat, y: nat)
    ensures MinAsWritten(x, y) == Min(x, y) <==> PaddingKeepsOrder(x, y)
  {
    if x < y {
      StringOrderAgreesIff(x, y);
    } else if y < x {
      StringOrderAgreesIff(y, x);
    }
  }

  /** The branch on a zero supply is never taken, so an empty pool divides by zero. */
  method CalculateLPTokensIssuedAsWritten(pool: Pool, amountOne: nat, amountTwo: nat) returns (liquidity: Option<int>)
    ensures liquidity == None <==> pool.reserve0 == 0 || pool.reserve1 == 0
    ensures pool.Live() ==>
              var x := amountOne * pool.totalSupply / pool.reserve0;
              var y := amountTwo * pool.totalSupply / pool.reserve1;
              && x >= 0 && y >= 0
              && (WithinShare(liquidity.value, pool, amountOne, amountTwo) <==> PaddingKeepsOrder(x, y))
  {
    if pool.reserve0 == 0 || pool.reserve1 == 0 {
      liquidity := None;
    } else {
      var x := TruncDiv(amountOne * pool.totalSupply, pool.reserve0);
      var y := TruncDiv(amountTwo * pool.totalSupply, pool.reserve1);
      liquidity := Some(MinAsWritten(x, y));
      if pool.Live() {
        LiquidityIsNatural(pool, amountOne, amountTwo);
        MinAsWrittenIff(x, y);
        LiquidityIsLargestWithinShare(pool, amountOne, amountTwo, liquidity.value);
      }
    }
  }

  /** Nine against ten: the string "10" comes before "9", and the deposit is credited with ten. */
  lemma LPTokensAsWrittenCanDilute()
    ensures var pool := Pool(MINIMUM_LIQUIDITY, MINIMUM_LIQUIDITY, MINIMUM_LIQUIDITY);
            && 9 * pool.totalSupply / pool.reserve0 == 9 && 10 * pool.totalSupply / pool.reserve1 == 10
            && MinAsWritten(9, 10) == 10 && LiquidityFor(pool, 9, 10) == 9
            && !WithinShare(10, pool, 9, 10)
  {
  }

  // ----- the square root -----

  /** Strings of at least two digits: the search can never leave the number of digits it started with. */
  lemma HalvingKeepsDigits(x: nat, z: nat)
    requires z < 2 * x + 2 && x < z && z >= 10 && StringLess(x, z)
    ensures DigitCount(x) == DigitCount(z)
  {
    StringOrderAgreesIff(x, z);
    PaddingIsTenfold(x, DigitCount(z) - DigitCount(x));
  }

  lemma PaddingIsTenfold(x: nat, k: nat)
    ensures k > 0 ==> x * Pow10(k) >= 10 * x
  {
  }

  /** A number as long as value, of at least two digits, is above its root. */
  lemma SameLengthAboveRoot(value: nat, z: nat)
    requires value >= 10 && DigitCount(z) == DigitCount(value)
    ensures z >= 10 && z * z > value
  {
    DigitCountBounds(value);
    DigitCountBounds(z);
  }

  lemma OneDigitOrder(a: nat, b: nat)
    requires a < 10 && b < 10
    ensures StringLess(a, b) <==> a < b
  {
    SameLengthOrder(a, b);
  }

  /** Taken literally, the search returns the root for one to nine and for no other number: not for zero, and for no
      number of two digits or more. */
  method SqrtAsWritten(value: nat) returns (z: nat)
    ensures IsSqrt(z, value) <==> 1 <= value <= 9
  {
    z := value;
    if StringLess(3, value) {
      var x := value / 2 + 1;
      if value < 10 { OneDigitOrder(3, value); HalfAboveRoot(value); } else { SameLengthAboveRoot(value, value); }
      while StringLess(x, z)
        invariant 0 < x && 0 < z <= value
        invariant value < 10 ==> z == value || x == (value / z + z) / 2
        invariant value < 10 ==> 3 < value && x < 10 && (z == value ==> x < z)
        invariant value < 10 ==> value < (x + 1) * (x + 1) && value < (z + 1) * (z + 1)
        invariant value >= 10 ==> DigitCount(z) == DigitCount(value) && z >= 10 && x < z < 2 * x + 2
        decreases z
      {
        if value < 10 {
          OneDigitOrder(x, z);
        } else {
          HalvingKeepsDigits(x, z);
          SameLengthAboveRoot(value, x);
        }
        z := x;
        NewtonStepAboveRoot(value, x);
        FloorGalois(value, x, 1);
        FloorGalois(value, x, value + 1);
        MulMono(1, x, value + 1);
        if value >= 10 { NewtonStepDescends(value, x); }
        x := TruncDiv(TruncDiv(value, x) + x, 2);
      }
      if value < 10 {
        OneDigitOrder(x, z);
        if z * z > value { NewtonStepDescends(value, z); }
      } else {
        SameLengthAboveRoot(value, z);
      }
    } else {
      z := 1;
      if value < 10 { OneDigitOrder(3, value); }
    }
  }
}
