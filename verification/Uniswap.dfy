/**
 Constant-product pool calculators, with every comparison of big numbers read as a numeric one, the way
 `mathUtils.min` compares them. `UniswapAsWritten` models what the language makes of the comparisons as written.
 */
module Uniswap {
  import opened Wrappers
  import opened Rounding
  import opened MathUtils
  import opened Shares

  const MINIMUM_LIQUIDITY: int := 1000

  // ----- integer square root -----

  ghost predicate IsSqrt(z: int, value: int) {
    0 <= z && z * z <= value < (z + 1) * (z + 1)
  }

  /** Newton's step from any positive z lands no lower than the root. */
  lemma NewtonStepAboveRoot(value: nat, z: nat)
    requires z > 0
    ensures var x := (value / z + z) / 2; value < (x + 1) * (x + 1)
  {
    var q := value / z;
    FloorBounds(value, z);
    MeanBounds(q + 1, z, (q + z) / 2 + 1);
  }

  lemma MeanBounds(a: nat, b: nat, mean: nat)
    requires a + b <= 2 * mean
    ensures a * b <= mean * mean
  {
  }

  /** ... and strictly lower than a z above the root. */
  lemma NewtonStepDescends(value: nat, z: nat)
    requires z > 0 && z * z > value
    ensures (value / z + z) / 2 < z
  {
  }

  method Sqrt(value: int) returns (z: int)
    ensures value >= 0 ==> IsSqrt(z, value)
    ensures value < 0 ==> z == 1
  {
    z := value;
    if value > 3 {
      var x := value / 2 + 1;
      HalfAboveRoot(value);
      while x < z
        invariant 0 < x && value < (x + 1) * (x + 1)
        invariant 0 < z && value < (z + 1) * (z + 1)
        invariant z < value ==> x == (value / z + z) / 2
        invariant z <= value && (z == value ==> x < z)
        decreases z
      {
        z := x;
        FloorGalois(value, x, 1);
        NewtonStepAboveRoot(value, x);
        x := (value / x + x) / 2;
      }
      if z * z > value { NewtonStepDescends(value, z); }
    } else if value != 0 {
      z := 1;
    }
  }

  lemma RootIsUnique(z: nat, y: nat, value: nat)
    requires IsSqrt(z, value) && IsSqrt(y, value)
    ensures z == y
  {
    if z < y { MeanBounds(z + 1, z + 1, y); }
    if y < z { MeanBounds(y + 1, y + 1, z); }
  }

  lemma HalfAboveRoot(value: nat)
    requires value > 3
    ensures value < (value / 2 + 2) * (value / 2 + 2)
    ensures value < (value + 1) * (value + 1)
  {
  }

  // ----- minting pool tokens -----

  datatype Pool = Pool(reserve0: nat, reserve1: nat, totalSupply: nat) {
    predicate Live() {
      reserve0 > 0 && reserve1 > 0 && totalSupply > 0
    }
  }

  /** A mint of this size is backed by the amounts paid in, on both sides of the pool. */
  ghost predicate WithinShare(liquidity: int, pool: Pool, amountOne: nat, amountTwo: nat) {
    && liquidity * pool.reserve0 <= amountOne * pool.totalSupply
    && liquidity * pool.reserve1 <= amountTwo * pool.totalSupply
  }

  function LiquidityFor(pool: Pool, amountOne: nat, amountTwo: nat): (liquidity: nat)
    requires pool.Live()
  {
    LiquidityIsNatural(pool, amountOne, amountTwo);
    Min(amountOne * pool.totalSupply / pool.reserve0, amountTwo * pool.totalSupply / pool.reserve1)
  }

  lemma LiquidityIsNatural(pool: Pool, amountOne: nat, amountTwo: nat)
    requires pool.Live()
    ensures amountOne * pool.totalSupply / pool.reserve0 >= 0
    ensures amountTwo * pool.totalSupply / pool.reserve1 >= 0
  {
  }

  lemma LiquidityIsLargestWithinShare(pool: Pool, amountOne: nat, amountTwo: nat, k: int)
    requires pool.Live()
    ensures WithinShare(k, pool, amountOne, amountTwo) <==> k <= LiquidityFor(pool, amountOne, amountTwo)
  {
    FloorGalois(amountOne * pool.totalSupply, pool.reserve0, k);
    FloorGalois(amountTwo * pool.totalSupply, pool.reserve1, k);
  }

  /** The first mint takes the root of the product less the locked minimum, a later one the largest amount within
      its share. An empty reserve under a positive supply divides by zero. */
  method CalculateLPTokensIssued(pool: Pool, amountOne: nat, amountTwo: nat) returns (liquidity: Option<int>)
    ensures liquidity == None <==> pool.totalSupply > 0 && !pool.Live()
    ensures pool.totalSupply == 0 ==> IsSqrt(liquidity.value + MINIMUM_LIQUIDITY, amountOne * amountTwo)
    ensures pool.totalSupply == 0 && amountOne * amountTwo == 4_000_000 ==> liquidity == Some(1000)
    ensures pool.Live() ==> forall k :: WithinShare(k, pool, amountOne, amountTwo) <==> k <= liquidity.value
  {
    if pool.totalSupply == 0 {
      var root := Sqrt(amountOne * amountTwo);
      liquidity := Some(root - MINIMUM_LIQUIDITY);
      if amountOne * amountTwo == 4_000_000 { RootIsUnique(root, 2000, 4_000_000); }
    } else if pool.reserve0 == 0 || pool.reserve1 == 0 {
      liquidity := None;
    } else {
      liquidity := Some(Min(
                          TruncDiv(amountOne * pool.totalSupply, pool.reserve0),
                          TruncDiv(amountTwo * pool.totalSupply, pool.reserve1)));
      LiquidityIsNatural(pool, amountOne, amountTwo);
      forall k ensures WithinShare(k, pool, amountOne, amountTwo) <==> k <= liquidity.value {
        LiquidityIsLargestWithinShare(pool, amountOne, amountTwo, k);
      }
    }
  }

  function AddLiquidity(pool: Pool, amountOne: nat, amountTwo: nat): (p: Pool)
    requires pool.Live()
    ensures p.Live()
  {
    var liquidity := LiquidityFor(pool, amountOne, amountTwo);
    Pool(pool.reserve0 + amountOne, pool.reserve1 + amountTwo, pool.totalSupply + liquidity)
  }

  /** A deposit adds its amounts to the reserves and mints the most tokens within its share. */
  lemma DepositMintsShare(pool: Pool, amountOne: nat, amountTwo: nat, k: int)
    requires pool.Live()
    ensures var next := AddLiquidity(pool, amountOne, amountTwo);
            && next.reserve0 == pool.reserve0 + amountOne && next.reserve1 == pool.reserve1 + amountTwo
            && (k <= next.totalSupply - pool.totalSupply <==> WithinShare(k, pool, amountOne, amountTwo))
  {
    LiquidityIsLargestWithinShare(pool, amountOne, amountTwo, k);
  }

  /** One deposit leaves the reserves behind each pool token no smaller. */
  lemma DepositNeverDilutes(pool: Pool, amountOne: nat, amountTwo: nat)
    requires pool.Live()
    ensures var next := AddLiquidity(pool, amountOne, amountTwo);
            && pool.reserve0 * next.totalSupply <= next.reserve0 * pool.totalSupply
            && pool.reserve1 * next.totalSupply <= next.reserve1 * pool.totalSupply
  {
  }

  function AddAll(pool: Pool, deposits: seq<(nat, nat)>): (p: Pool)
    requires pool.Live()
    ensures p.Live()
    decreases |deposits|
  {
    if deposits == [] then pool else
    AddAll(AddLiquidity(pool, deposits[0].0, deposits[0].1), deposits[1..])
  }

  /** A run is its deposits: two runs in turn are one, and a run of one deposit is that deposit. */
  lemma {:induction false} RunIsItsDeposits(pool: Pool, deposits: seq<(nat, nat)>, more: seq<(nat, nat)>)
    requires pool.Live()
    ensures AddAll(pool, deposits + more) == AddAll(AddAll(pool, deposits), more)
    ensures |deposits| == 1 ==> AddAll(pool, deposits) == AddLiquidity(pool, deposits[0].0, deposits[0].1)
    decreases |deposits|
  {
    if deposits == [] {
      assert deposits + more == more;
    } else {
      assert (deposits + more)[1..] == deposits[1..] + more;
      RunIsItsDeposits(AddLiquidity(pool, deposits[0].0, deposits[0].1), deposits[1..], more);
    }
  }

  /** Over every run of deposits the reserves behind one pool token never fall, on either side. */
  lemma {:induction false} DepositsNeverDilute(pool: Pool, deposits: seq<(nat, nat)>)
    requires pool.Live()
    ensures var end := AddAll(pool, deposits);
            && pool.reserve0 * end.totalSupply <= end.reserve0 * pool.totalSupply
            && pool.reserve1 * end.totalSupply <= end.reserve1 * pool.totalSupply
    decreases |deposits|
  {
    if deposits != [] {
      var (a, b) := deposits[0];
      var next, end := AddLiquidity(pool, a, b), AddAll(pool, deposits);
      DepositNeverDilutes(pool, a, b);
      DepositsNeverDilute(next, deposits[1..]);
      var s, s', s'' := pool.totalSupply, next.totalSupply, end.totalSupply;
      RatioTransitive(pool.reserve0, s, next.reserve0, s', end.reserve0, s'');
      RatioTransitive(pool.reserve1, s, next.reserve1, s', end.reserve1, s'');
    }
  }

  /** ... so the product of the reserves per token squared never falls either. */
  lemma DepositsNeverLowerInvariant(pool: Pool, deposits: seq<(nat, nat)>)
    requires pool.Live()
    ensures var end := AddAll(pool, deposits);
            (pool.reserve0 * end.totalSupply) * (pool.reserve1 * end.totalSupply)
            <= (end.reserve0 * pool.totalSupply) * (end.reserve1 * pool.totalSupply)
  {
    var end := AddAll(pool, deposits);
    DepositsNeverDilute(pool, deposits);
    var a, b := pool.reserve0 * end.totalSupply, pool.reserve1 * end.totalSupply;
    MulMono(a, end.reserve0 * pool.totalSupply, b);
    MulMono(b, end.reserve1 * pool.totalSupply, end.reserve0 * pool.totalSupply);
  }

  // ----- the tokens behind staked pool tokens -----

  /** The two reserves' shares of a staked balance. */
  function TokensInReserve(pool: Pool, staked: int): (int, int)
    requires pool.totalSupply != 0
  {
    (PreciseMul(PreciseDiv(pool.reserve0, pool.totalSupply), staked),
     PreciseMul(PreciseDiv(pool.reserve1, pool.totalSupply), staked))
  }

  function TotalInReserve(pool: Pool, stakes: seq<nat>): (int, int)
    requires pool.totalSupply != 0
  {
    if stakes == [] then (0, 0) else
    var (first, rest) := (TokensInReserve(pool, stakes[0]), TotalInReserve(pool, stakes[1..]));
    (first.0 + rest.0, first.1 + rest.1)
  }

  /** The tokens attributed to any number of stakers together never exceed the pool's reserves. */
  lemma StakersWithinReserves(pool: Pool, stakes: seq<nat>)
    requires 0 < pool.totalSupply && Sum(stakes) <= pool.totalSupply
    ensures var (one, two) := TotalInReserve(pool, stakes); 0 <= one <= pool.reserve0 && 0 <= two <= pool.reserve1
    // and little of their exact shares is left over
    ensures var (one, two), staked := TotalInReserve(pool, stakes), Sum(stakes);
            && (pool.reserve0 * staked - (one + |stakes|) * pool.totalSupply) * PRECISE_UNIT
               <= staked * pool.totalSupply
            && (pool.reserve1 * staked - (two + |stakes|) * pool.totalSupply) * PRECISE_UNIT
               <= staked * pool.totalSupply
  {
    TotalIsSumOfShares(pool, stakes);
    SharesMissLittle(pool.reserve0, pool.totalSupply, stakes);
    SharesMissLittle(pool.reserve1, pool.totalSupply, stakes);
    SharesWithinWhole(pool.reserve0, pool.totalSupply, stakes);
    SharesWithinWhole(pool.reserve1, pool.totalSupply, stakes);
  }

  lemma {:induction false} TotalIsSumOfShares(pool: Pool, stakes: seq<nat>)
    requires 0 < pool.totalSupply
    ensures TotalInReserve(pool, stakes)
         == (SumOfShares(pool.reserve0, pool.totalSupply, stakes),
             SumOfShares(pool.reserve1, pool.totalSupply, stakes))
  {
    if stakes != [] { TotalIsSumOfShares(pool, stakes[1..]); }
  }

  // ----- rebalancing two assets -----

  datatype Asset = One | Two

  /** The value of an amount of asset two in terms of asset one. */
  function ValueInOne(amountTwo: int, price: int): int
    requires price != 0
  {
    PreciseDiv(amountTwo, price)
  }

  /** The two balances after selling at the given price without friction. */
  function AfterSwap(balanceOne: int, balanceTwo: int, price: int, quantity: int, sold: Asset): (int, int)
    requires price != 0
  {
    match sold
    case One => (balanceOne - quantity, balanceTwo + PreciseMul(quantity, price))
    case Two => (balanceOne + PreciseDiv(quantity, price), balanceTwo - quantity)
  }

  method CalculateRebalanceQuantity(sellTokenQuantity: int, balanceOne: nat, balanceTwo: nat, price: nat)
    returns (quantityToSell: int, assetToSell: Asset, assetToBuy: Asset)
    requires price != 0
    ensures assetToSell != assetToBuy
    ensures assetToSell == One <==> balanceOne * price > balanceTwo * PRECISE_UNIT
    // at the exact price the two sides then differ by what the roundings keep
    ensures sellTokenQuantity <= 0 && assetToSell == One ==>
              && balanceTwo * PRECISE_UNIT - (balanceOne - 2 * quantityToSell) * price < price
              && (balanceOne - 2 * quantityToSell) * price - balanceTwo * PRECISE_UNIT <= price
    ensures sellTokenQuantity <= 0 && assetToSell == Two ==>
              0 <= (balanceTwo - 2 * quantityToSell) * PRECISE_UNIT - balanceOne * price
                < 2 * (price + PRECISE_UNIT)
    ensures sellTokenQuantity > 0 ==> quantityToSell == sellTokenQuantity
    // the quantity is held, the overweight side is not underweight after the swap, and little of the gap is left
    ensures sellTokenQuantity <= 0 ==>
              0 <= quantityToSell <= (if assetToSell == One then balanceOne else balanceTwo)
    ensures sellTokenQuantity <= 0 ==>
              var (one, two) := AfterSwap(balanceOne, balanceTwo, price, quantityToSell, assetToSell);
              var gap := one - ValueInOne(two, price);
              if assetToSell == One then
                0 <= gap && (gap - 2) * price < PRECISE_UNIT
              else
                gap <= 0 && (-gap - 3) * price < 2 * PRECISE_UNIT
  {
    var valueTwo := PreciseDiv(balanceTwo, price);
    if balanceOne > valueTwo {
      quantityToSell := TruncDiv(balanceOne - valueTwo, 2);
      assetToSell, assetToBuy := One, Two;
      ExactGapOne(balanceOne, balanceTwo, price);
      SellingOne(balanceOne, balanceTwo, price);
    } else {
      quantityToSell := PreciseMul(TruncDiv(valueTwo - balanceOne, 2), price);
      assetToSell, assetToBuy := Two, One;
      ExactGapTwo(balanceOne, balanceTwo, price);
      SellingTwo(balanceOne, balanceTwo, price);
    }
    if sellTokenQuantity > 0 {
      quantityToSell := sellTokenQuantity;
    }
  }

  lemma ExactGapOne(balanceOne: nat, balanceTwo: nat, price: nat)
    requires price > 0 && balanceOne > ValueInOne(balanceTwo, price)
    ensures balanceOne * price > balanceTwo * PRECISE_UNIT
    ensures var quantity := (balanceOne - ValueInOne(balanceTwo, price)) / 2;
            && balanceTwo * PRECISE_UNIT - (balanceOne - 2 * quantity) * price < price
            && (balanceOne - 2 * quantity) * price - balanceTwo * PRECISE_UNIT <= price
  {
    var v := ValueInOne(balanceTwo, price);
    var rest := balanceOne - 2 * ((balanceOne - v) / 2);
    FloorBounds(balanceTwo * PRECISE_UNIT, price);
    MulMono(v + 1, balanceOne, price);
    MulMono(v, rest, price);
    MulMono(rest, v + 1, price);
    MulDistributes(v, 1, price);
  }

  lemma ExactGapTwo(balanceOne: nat, balanceTwo: nat, price: nat)
    requires price > 0 && balanceOne <= ValueInOne(balanceTwo, price)
    ensures balanceOne * price <= balanceTwo * PRECISE_UNIT
    ensures var quantity := PreciseMul((ValueInOne(balanceTwo, price) - balanceOne) / 2, price);
            0 <= (balanceTwo - 2 * quantity) * PRECISE_UNIT - balanceOne * price < 2 * (price + PRECISE_UNIT)
  {
    var v := ValueInOne(balanceTwo, price);
    var half := (v - balanceOne) / 2;
    FloorBounds(balanceTwo * PRECISE_UNIT, price);
    FloorBounds(half * price, PRECISE_UNIT);
    MulMono(balanceOne, v, price);
    MulDistributes(v, 1, price);
    MulMono(2 * half, v - balanceOne, price);
    MulMono(v - balanceOne - 1, 2 * half, price);
    MulDistributes(v - balanceOne, balanceOne, price);
    MulDistributes(v - balanceOne, -1, price);
  }

  lemma SellingOne(balanceOne: nat, balanceTwo: nat, price: nat)
    requires price > 0 && balanceOne > ValueInOne(balanceTwo, price)
    ensures var quantity := (balanceOne - ValueInOne(balanceTwo, price)) / 2;
            var (one, two) := AfterSwap(balanceOne, balanceTwo, price, quantity, One);
            var gap := one - ValueInOne(two, price);
            0 <= quantity <= balanceOne && 0 <= gap && (gap - 2) * price < PRECISE_UNIT
  {
    var v := ValueInOne(balanceTwo, price);
    var quantity := (balanceOne - v) / 2;
    var bought := PreciseMul(quantity, price);
    var v' := ValueInOne(balanceTwo + bought, price);
    FloorBounds(balanceTwo * PRECISE_UNIT, price);
    FloorBounds(quantity * price, PRECISE_UNIT);
    FloorBounds((balanceTwo + bought) * PRECISE_UNIT, price);
    SellOneArithmetic(balanceOne, balanceTwo * PRECISE_UNIT, bought * PRECISE_UNIT, price, v, v', quantity,
                      PRECISE_UNIT);
  }

  lemma SellOneArithmetic(one: nat, two: nat, bought: nat, price: nat, v: nat, v': nat, q: nat, unit: nat)
    requires price > 0 && v < one && q == (one - v) / 2
    requires v * price <= two < (v + 1) * price
    requires bought <= q * price < bought + unit
    requires v' * price <= two + bought < (v' + 1) * price
    ensures v' <= one - q && (one - q - v' - 2) * price < unit
  {
    if v' > v + q { MulMono(v + q + 1, v', price); }
    MulMono(one - q - v' - 2, v + q - v' - 1, price);
  }

  lemma SellingTwo(balanceOne: nat, balanceTwo: nat, price: nat)
    requires price > 0 && balanceOne <= ValueInOne(balanceTwo, price)
    ensures var quantity := PreciseMul((ValueInOne(balanceTwo, price) - balanceOne) / 2, price);
            var (one, two) := AfterSwap(balanceOne, balanceTwo, price, quantity, Two);
            var gap := ValueInOne(two, price) - one;
            0 <= quantity <= balanceTwo && 0 <= gap && (gap - 3) * price < 2 * PRECISE_UNIT
  {
    var v := ValueInOne(balanceTwo, price);
    var half := (v - balanceOne) / 2;
    var quantity := PreciseMul(half, price);
    FloorBounds(balanceTwo * PRECISE_UNIT, price);
    FloorBounds(quantity * PRECISE_UNIT, price);
    MulMono(half, v, price);
    var v' := ValueInOne(balanceTwo - quantity, price);
    FloorBounds((balanceTwo - quantity) * PRECISE_UNIT, price);
    SellTwoArithmetic(balanceOne, balanceTwo * PRECISE_UNIT, quantity * PRECISE_UNIT, price, v, v', half,
                      PreciseDiv(quantity, price), PRECISE_UNIT);
  }

  lemma SellTwoArithmetic(one: nat, two: nat, sold: nat, price: nat, v: nat, v': nat, half: nat, bought: nat,
                          unit: nat)
    requires price > 0 && one <= v && half == (v - one) / 2
    requires v * price <= two < (v + 1) * price
    requires sold <= half * price < sold + unit
    requires bought * price <= sold < (bought + 1) * price
    requires v' * price <= two - sold < (v' + 1) * price
    ensures one + bought <= v' && (v' - one - bought - 3) * price < 2 * unit
  {
    MulCancel(bought, half, price);
    MulDistributes(v - half, half, price);
    if v' < v - half { MulMono(v' + 1, v - half, price); }
    var gap := v' - one - bought;
    MulMono(gap - 3, v' - bought - v + 2 * half - 2, price);
    SellTwoIdentity(price, v, v', half, bought);
  }

  lemma SellTwoIdentity(price: int, v: int, v': int, half: int, bought: int)
    ensures (v' - bought - v + 2 * half - 2) * price
         == v' * price - (bought + 1) * price - (v + 1) * price + 2 * (half * price)
  {
  }
}
