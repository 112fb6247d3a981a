/**
 The stepwise auction prices, with their 256-bit arithmetic and its overflow guards. The exponential and the logarithm
 are arbitrary functions of which only their order and one value are known.
 */
module PriceAdapters {
  import opened Wrappers
  import opened Rounding

  const WAD: int := 1_000_000_000_000_000_000
  const MAX_EXP_ARG: int := 100 * WAD
  const MAX_LOG_ARG: int := 0x3FFFFFFF_FFFFFFFF_FFFFFFFF_FFFFFFFF_FFFFFFFF_FFFFFFFF_FFFFFFFF_FFFFFFFF
  const MAX_INT256: int := 2 * MAX_LOG_ARG + 1
  const MAX_UINT256: int := 2 * MAX_INT256 + 1

  /** An auction's first price, its bounds and its direction. */
  datatype Range = Range(initialPrice: nat, isDecreasing: bool, maxPrice: nat, minPrice: nat) {
    predicate Valid() {
      initialPrice > 0 && minPrice <= initialPrice <= maxPrice <= MAX_UINT256
    }

    function BoundaryPrice(): nat {
      if isDecreasing then minPrice else maxPrice
    }

    /** The guarded tail all adapters end with. */
    function Apply(priceChange: int): int {
      if isDecreasing then
        if priceChange > initialPrice then minPrice
        else if initialPrice - priceChange > minPrice then initialPrice - priceChange else minPrice
      else
        if priceChange > MAX_UINT256 - initialPrice then maxPrice
        else if initialPrice + priceChange < maxPrice then initialPrice + priceChange else maxPrice
    }

    /** The price formula: the first price moved by the change, kept within the bounds, in unbounded integers. */
    function Clamp(priceChange: int): int {
      if isDecreasing then
        if initialPrice - priceChange > minPrice then initialPrice - priceChange else minPrice
      else
        if initialPrice + priceChange < maxPrice then initialPrice + priceChange else maxPrice
    }

    /** The first price is no later one: prices fall in a decreasing auction and rise in an increasing one. */
    predicate InOrder(earlier: int, later: int) {
      if isDecreasing then earlier >= later else earlier <= later
    }

    predicate Within(price: int) {
      minPrice <= price <= maxPrice
    }
  }

  /** A price is at least what it falls to and its lower bound, or at most what it rises to and its upper bound; the
      boundary is the bound it moves to. */
  lemma ClampIsNearest(range: Range, priceChange: int, k: int)
    ensures range.isDecreasing ==>
              && range.BoundaryPrice() == range.minPrice
              && (k <= range.Clamp(priceChange) <==> k <= range.minPrice || k + priceChange <= range.initialPrice)
    ensures !range.isDecreasing ==>
              && range.BoundaryPrice() == range.maxPrice
              && (range.Clamp(priceChange) <= k <==> range.maxPrice <= k || range.initialPrice + priceChange <= k)
  {
  }

  // ----- linear -----

  function LinearPrice(range: Range, slope: nat, bucketSize: nat, timeElapsed: nat): Option<int> {
    if !(range.Valid() && slope > 0 && bucketSize > 0) then None else
    var bucket := timeElapsed / bucketSize;
    if bucket > MAX_UINT256 / slope then Some(range.BoundaryPrice()) else
    Some(range.Apply(bucket * slope))
  }

  /** The overflow guards compute exactly the clamped formula of every elapsed time. */
  lemma LinearPriceIsClamp(range: Range, slope: nat, bucketSize: nat, timeElapsed: nat)
    requires range.Valid() && 0 < slope && bucketSize > 0
    ensures LinearPrice(range, slope, bucketSize, timeElapsed)
         == Some(range.Clamp(timeElapsed / bucketSize * slope))
  {
    var bucket := timeElapsed / bucketSize;
    FloorGalois(MAX_UINT256, slope, bucket);
  }

  /** Over time the price moves one way and stays within its bounds. */
  lemma LinearPriceMonotone(range: Range, slope: nat, bucketSize: nat, earlier: nat, later: nat)
    requires range.Valid() && 0 < slope && bucketSize > 0 && earlier <= later
    ensures var first := LinearPrice(range, slope, bucketSize, earlier);
            var second := LinearPrice(range, slope, bucketSize, later);
            && first.Some? && second.Some? && range.InOrder(first.value, second.value)
            && range.Within(first.value) && range.Within(second.value)
  {
    LinearPriceIsClamp(range, slope, bucketSize, earlier);
    LinearPriceIsClamp(range, slope, bucketSize, later);
    FloorMono(earlier, later, bucketSize);
    FloorGalois(earlier, bucketSize, 0);
    MulMono(0, earlier / bucketSize, slope);
    MulMono(earlier / bucketSize, later / bucketSize, slope);
  }

  // ----- exponential -----

  /** The argument of the curve before it is cast: the coefficient times the number of whole buckets. */
  function CurveArgument(timeCoefficient: nat, bucketSize: nat, timeElapsed: nat): int
    requires bucketSize > 0
  {
    timeCoefficient * (timeElapsed / bucketSize)
  }

  /** The argument stays the same from the start of a bucket to the next. */
  lemma CurveArgumentIsSteps(timeCoefficient: nat, bucketSize: nat, timeElapsed: nat, bucket: nat)
    requires bucketSize > 0 && bucket * bucketSize <= timeElapsed < (bucket + 1) * bucketSize
    ensures CurveArgument(timeCoefficient, bucketSize, timeElapsed) == timeCoefficient * bucket
  {
    FloorUnique(timeElapsed, bucketSize, bucket);
  }

  /** The conversion of an unsigned word to a signed one, which wraps. */
  function ToInt256(x: int): int {
    if x > MAX_INT256 then x - MAX_UINT256 - 1 else x
  }

  ghost predicate IsExp(exp: int -> nat) {
    exp(0) == WAD && forall x, y :: x <= y ==> exp(x) <= exp(y)
  }

  function ExponentialPrice(range: Range, scalingFactor: nat, timeCoefficient: nat, bucketSize: nat, timeElapsed: nat,
                            exp: int -> nat): Option<int>
  {
    if !(range.Valid() && scalingFactor > 0 && timeCoefficient > 0 && bucketSize > 0) then None else
    var timeBucket := timeElapsed / bucketSize;
    if timeBucket > MAX_UINT256 / timeCoefficient then Some(range.BoundaryPrice()) else
    ExponentialAt(range, scalingFactor, CurveArgument(timeCoefficient, bucketSize, timeElapsed), exp)
  }

  /** The price at an unsigned argument. A zero exponential divides by zero, and a change below zero underflows. */
  function ExponentialAt(range: Range, scalingFactor: nat, argument: int, exp: int -> nat): Option<int> {
    var expArgument := ToInt256(argument);
    if expArgument > MAX_EXP_ARG then Some(range.BoundaryPrice()) else
    var expExpression := exp(expArgument);
    if expExpression == 0 then None else
    if scalingFactor > MAX_UINT256 / expExpression then Some(range.BoundaryPrice()) else
    if scalingFactor * expExpression < WAD then None else
    Some(range.Apply(scalingFactor * expExpression - WAD))
  }

  /** An argument that fits an unsigned word and not a signed one is cast to a negative number. */
  predicate CastWraps(argument: int) {
    MAX_INT256 < argument <= MAX_UINT256
  }

  lemma CurveArgumentOrder(timeCoefficient: nat, bucketSize: nat, earlier: nat, later: nat)
    requires bucketSize > 0 && earlier <= later
    ensures 0 <= CurveArgument(timeCoefficient, bucketSize, earlier)
              <= CurveArgument(timeCoefficient, bucketSize, later)
  {
    FloorMono(earlier, later, bucketSize);
    FloorGalois(earlier, bucketSize, 0);
    MulMono(0, earlier / bucketSize, timeCoefficient);
    MulMono(earlier / bucketSize, later / bucketSize, timeCoefficient);
  }

  lemma CurveArgumentGuard(timeCoefficient: nat, bucketSize: nat, timeElapsed: nat)
    requires timeCoefficient > 0 && bucketSize > 0
    ensures 0 <= CurveArgument(timeCoefficient, bucketSize, timeElapsed)
    ensures timeElapsed / bucketSize <= MAX_UINT256 / timeCoefficient
       <==> CurveArgument(timeCoefficient, bucketSize, timeElapsed) <= MAX_UINT256
  {
    FloorGalois(MAX_UINT256, timeCoefficient, timeElapsed / bucketSize);
  }

  /** The price in unbounded integers: the boundary past the largest argument or word, and the clamped formula
      before. */
  function GuardedExponentialPrice(range: Range, scalingFactor: nat, argument: int, exp: int -> nat): int {
    if argument > MAX_EXP_ARG || scalingFactor * exp(argument) > MAX_UINT256 then range.BoundaryPrice()
    else range.Clamp(scalingFactor * exp(argument) - WAD)
  }

  /** Whenever the cast does not wrap the code computes the guarded price; where it wraps, the call throws exactly
      when the scaled exponential of the wrapped argument is below one. */
  lemma ExponentialPriceExact(range: Range, scalingFactor: nat, timeCoefficient: nat, bucketSize: nat, timeElapsed: nat,
                              exp: int -> nat)
    requires range.Valid() && scalingFactor > 0 && timeCoefficient > 0 && bucketSize > 0 && IsExp(exp)
    ensures var price := ExponentialPrice(range, scalingFactor, timeCoefficient, bucketSize, timeElapsed, exp);
            var argument := CurveArgument(timeCoefficient, bucketSize, timeElapsed);
            && (!CastWraps(argument) ==> price == Some(GuardedExponentialPrice(range, scalingFactor, argument, exp)))
            && (price == None <==> CastWraps(argument) && scalingFactor * exp(ToInt256(argument)) < WAD)
  {
    var argument := CurveArgument(timeCoefficient, bucketSize, timeElapsed);
    CurveArgumentGuard(timeCoefficient, bucketSize, timeElapsed);
    if argument <= MAX_UINT256 { ExponentialAtExact(range, scalingFactor, argument, exp); }
  }

  lemma ExponentialAtExact(range: Range, scalingFactor: nat, argument: nat, exp: int -> nat)
    requires range.Valid() && scalingFactor > 0 && argument <= MAX_UINT256 && IsExp(exp)
    ensures var price := ExponentialAt(range, scalingFactor, argument, exp);
            && (!CastWraps(argument) ==> price == Some(GuardedExponentialPrice(range, scalingFactor, argument, exp)))
            && (price == None <==> CastWraps(argument) && scalingFactor * exp(ToInt256(argument)) < WAD)
  {
    var e := exp(ToInt256(argument));
    if e > 0 { FloorGalois(MAX_UINT256, e, scalingFactor); }
  }

  /** The word guard looks at the change before one is taken off it, so it can answer with the boundary a little too
      early: before the largest argument the guarded price is the clamped formula exactly when the change fits a
      word, or the formula has reached the boundary by then. */
  lemma GuardedIsFormulaIff(range: Range, scalingFactor: nat, argument: int, exp: int -> nat)
    requires range.Valid() && argument <= MAX_EXP_ARG
    ensures var scaled := scalingFactor * exp(argument);
            GuardedExponentialPrice(range, scalingFactor, argument, exp) == range.Clamp(scaled - WAD)
            <==> || scaled <= MAX_UINT256
                 || (if range.isDecreasing then range.initialPrice + WAD <= range.minPrice + scaled
                     else range.maxPrice + WAD <= range.initialPrice + scaled)
  {
  }

  /** Falling from the largest word by one word less one: the formula stops just short of one, the code at zero. */
  lemma GuardAnswersEarly(exp: int -> nat)
    requires exp(0) == WAD
    ensures var range := Range(MAX_UINT256, true, MAX_UINT256, 0);
            var scalingFactor := MAX_UINT256 / WAD + 1;
            GuardedExponentialPrice(range, scalingFactor, 0, exp) == 0 < range.Clamp(scalingFactor * exp(0) - WAD)
  {
  }

  /** Over time, as far as the cast does not wrap, the price moves one way and stays within its bounds. */
  lemma ExponentialPriceMonotone(range: Range, scalingFactor: nat, timeCoefficient: nat, bucketSize: nat,
                                 earlier: nat, later: nat, exp: int -> nat)
    requires range.Valid() && scalingFactor > 0 && timeCoefficient > 0 && bucketSize > 0 && IsExp(exp)
    requires earlier <= later
    requires !CastWraps(CurveArgument(timeCoefficient, bucketSize, earlier))
    requires !CastWraps(CurveArgument(timeCoefficient, bucketSize, later))
    ensures var first := ExponentialPrice(range, scalingFactor, timeCoefficient, bucketSize, earlier, exp);
            var second := ExponentialPrice(range, scalingFactor, timeCoefficient, bucketSize, later, exp);
            && first.Some? && second.Some? && range.InOrder(first.value, second.value)
            && range.Within(first.value) && range.Within(second.value)
  {
    ExponentialPriceExact(range, scalingFactor, timeCoefficient, bucketSize, earlier, exp);
    ExponentialPriceExact(range, scalingFactor, timeCoefficient, bucketSize, later, exp);
    CurveArgumentOrder(timeCoefficient, bucketSize, earlier, later);
    GuardedExponentialOrder(range, scalingFactor, CurveArgument(timeCoefficient, bucketSize, earlier),
                            CurveArgument(timeCoefficient, bucketSize, later), exp);
  }

  lemma GuardedExponentialOrder(range: Range, scalingFactor: nat, x: nat, y: nat, exp: int -> nat)
    requires range.Valid() && scalingFactor > 0 && IsExp(exp) && x <= y
    ensures var first := GuardedExponentialPrice(range, scalingFactor, x, exp);
            var second := GuardedExponentialPrice(range, scalingFactor, y, exp);
            range.InOrder(first, second) && range.Within(first) && range.Within(second)
  {
    MulMono(exp(x), exp(y), scalingFactor);
    MulMono(1, scalingFactor, exp(x));
  }

  // ----- logarithmic -----

  ghost predicate IsLn(ln: int -> int) {
    ln(WAD) == 0 && forall x, y :: 0 < x <= y ==> ln(x) <= ln(y)
  }

  function ToUint256(x: int): int {
    if x < 0 then x + MAX_UINT256 + 1 else x
  }

  /** The logarithm throws on an argument that is not positive. */
  function LogarithmicPrice(range: Range, scalingFactor: nat, timeCoefficient: nat, bucketSize: nat, timeElapsed: nat,
                            ln: int -> int): Option<int>
  {
    if !(range.Valid() && scalingFactor > 0 && timeCoefficient > 0 && bucketSize > 0) then None else
    var timeBucket := timeElapsed / bucketSize;
    if timeBucket > MAX_UINT256 / timeCoefficient then Some(range.BoundaryPrice()) else
    LogarithmAt(range, scalingFactor, CurveArgument(timeCoefficient, bucketSize, timeElapsed), ln)
  }

  function LogarithmAt(range: Range, scalingFactor: nat, argument: int, ln: int -> int): Option<int>
    requires scalingFactor > 0
  {
    var lnArgument := ToInt256(argument);
    if lnArgument > MAX_LOG_ARG then Some(range.BoundaryPrice()) else
    if lnArgument + WAD <= 0 then None else
    var lnExpression := ToUint256(ln(lnArgument + WAD));
    if lnExpression > MAX_UINT256 / scalingFactor then Some(range.BoundaryPrice()) else
    Some(range.Apply(scalingFactor * lnExpression))
  }

  function ClampedLogarithmicPrice(range: Range, scalingFactor: nat, argument: int, ln: int -> int): int {
    if argument > MAX_LOG_ARG then range.BoundaryPrice() else range.Clamp(scalingFactor * ln(argument + WAD))
  }

  /** The guards compute exactly the clamped formula whenever the cast does not wrap; the call throws exactly when
      it wraps to an argument whose successor by one is not positive. */
  lemma LogarithmicPriceExact(range: Range, scalingFactor: nat, timeCoefficient: nat, bucketSize: nat, timeElapsed: nat,
                              ln: int -> int)
    requires range.Valid() && scalingFactor > 0 && timeCoefficient > 0 && bucketSize > 0 && IsLn(ln)
    ensures var price := LogarithmicPrice(range, scalingFactor, timeCoefficient, bucketSize, timeElapsed, ln);
            var argument := CurveArgument(timeCoefficient, bucketSize, timeElapsed);
            && (!CastWraps(argument) ==> price == Some(ClampedLogarithmicPrice(range, scalingFactor, argument, ln)))
            && (price == None <==> CastWraps(argument) && ToInt256(argument) + WAD <= 0)
  {
    var argument := CurveArgument(timeCoefficient, bucketSize, timeElapsed);
    CurveArgumentGuard(timeCoefficient, bucketSize, timeElapsed);
    if argument <= MAX_UINT256 { LogarithmAtExact(range, scalingFactor, argument, ln); }
  }

  lemma LogarithmAtExact(range: Range, scalingFactor: nat, argument: nat, ln: int -> int)
    requires range.Valid() && scalingFactor > 0 && argument <= MAX_UINT256 && IsLn(ln)
    ensures var price := LogarithmAt(range, scalingFactor, argument, ln);
            && (!CastWraps(argument) ==> price == Some(ClampedLogarithmicPrice(range, scalingFactor, argument, ln)))
            && (price == None <==> CastWraps(argument) && ToInt256(argument) + WAD <= 0)
  {
    if argument <= MAX_LOG_ARG {
      var l := ln(argument + WAD);
      assert l >= ln(WAD);
      FloorGalois(MAX_UINT256, scalingFactor, l);
      ChangeIsNatural(l, scalingFactor);
    }
  }

  lemma ChangeIsNatural(l: int, scalingFactor: nat)
    requires l >= 0
    ensures scalingFactor * l >= 0 && l * scalingFactor == scalingFactor * l
  {
  }

  /** Later arguments give later prices, all of them within the bounds. */
  lemma ClampedLogarithmOrder(range: Range, scalingFactor: nat, x: nat, y: nat, ln: int -> int)
    requires range.Valid() && IsLn(ln) && x <= y
    ensures var first := ClampedLogarithmicPrice(range, scalingFactor, x, ln);
            var second := ClampedLogarithmicPrice(range, scalingFactor, y, ln);
            range.InOrder(first, second) && range.Within(first) && range.Within(second)
  {
    ChangeIsNatural(ln(x + WAD), scalingFactor);
    MulMono(ln(x + WAD), ln(y + WAD), scalingFactor);
  }

  /** Over time, as far as the cast does not wrap, the price moves one way and stays within its bounds. */
  lemma LogarithmicPriceMonotone(range: Range, scalingFactor: nat, timeCoefficient: nat, bucketSize: nat,
                                 earlier: nat, later: nat, ln: int -> int)
    requires range.Valid() && scalingFactor > 0 && timeCoefficient > 0 && bucketSize > 0 && IsLn(ln)
    requires earlier <= later
    requires !CastWraps(CurveArgument(timeCoefficient, bucketSize, earlier))
    requires !CastWraps(CurveArgument(timeCoefficient, bucketSize, later))
    ensures var first := LogarithmicPrice(range, scalingFactor, timeCoefficient, bucketSize, earlier, ln);
            var second := LogarithmicPrice(range, scalingFactor, timeCoefficient, bucketSize, later, ln);
            && first.Some? && second.Some? && range.InOrder(first.value, second.value)
            && range.Within(first.value) && range.Within(second.value)
  {
    LogarithmicPriceExact(range, scalingFactor, timeCoefficient, bucketSize, earlier, ln);
    LogarithmicPriceExact(range, scalingFactor, timeCoefficient, bucketSize, later, ln);
    CurveArgumentOrder(timeCoefficient, bucketSize, earlier, later);
    ClampedLogarithmOrder(range, scalingFactor, CurveArgument(timeCoefficient, bucketSize, earlier),
                             CurveArgument(timeCoefficient, bucketSize, later), ln);
  }

  // ----- the limits -----

  /** The linear adapter throws on its parameters alone; and so do the others, beside what their curves throw on. */
  lemma ParametersChecked(range: Range, slope: nat, timeCoefficient: nat, bucketSize: nat, timeElapsed: nat,
                          exp: int -> nat, ln: int -> int)
    ensures LinearPrice(range, slope, bucketSize, timeElapsed).Some?
       <==> range.Valid() && slope > 0 && bucketSize > 0
    ensures ExponentialPrice(range, slope, timeCoefficient, bucketSize, timeElapsed, exp).Some? ==>
              range.Valid() && slope > 0 && timeCoefficient > 0 && bucketSize > 0
    ensures LogarithmicPrice(range, slope, timeCoefficient, bucketSize, timeElapsed, ln).Some? ==>
              range.Valid() && slope > 0 && timeCoefficient > 0 && bucketSize > 0
  {
  }

  /** A hundred is the last argument of the exponential and 2^254 - 1 that of the logarithm, and 2^255 is the first
      word that is cast to a negative one. */
  lemma ArgumentLimits(range: Range, exp: int -> nat, ln: int -> int)
    requires range.Valid()
    requires exp(100_000_000_000_000_000_000) == 3_000_000_000_000_000_000
    requires exp(100_000_000_000_000_000_001) == 3_000_000_000_000_000_000
    requires ln(0x3FFFFFFF_FFFFFFFF_FFFFFFFF_FFFFFFFF_FFFFFFFF_FFFFFFFF_FFFFFFFF_FFFFFFFF + WAD) == 5
    ensures ExponentialAt(range, 2, 100_000_000_000_000_000_000, exp) == Some(range.Clamp(5_000_000_000_000_000_000))
    ensures ExponentialAt(range, 2, 100_000_000_000_000_000_001, exp) == Some(range.BoundaryPrice())
    ensures LogarithmAt(range, 3, 0x3FFFFFFF_FFFFFFFF_FFFFFFFF_FFFFFFFF_FFFFFFFF_FFFFFFFF_FFFFFFFF_FFFFFFFF, ln)
         == Some(range.Clamp(15))
    ensures LogarithmAt(range, 3, 0x40000000_00000000_00000000_00000000_00000000_00000000_00000000_00000000, ln)
         == Some(range.BoundaryPrice())
    ensures ToInt256(0x80000000_00000000_00000000_00000000_00000000_00000000_00000000_00000000)
         == -0x80000000_00000000_00000000_00000000_00000000_00000000_00000000_00000000
    ensures ToInt256(0x7FFFFFFF_FFFFFFFF_FFFFFFFF_FFFFFFFF_FFFFFFFF_FFFFFFFF_FFFFFFFF_FFFFFFFF)
         == 0x7FFFFFFF_FFFFFFFF_FFFFFFFF_FFFFFFFF_FFFFFFFF_FFFFFFFF_FFFFFFFF_FFFFFFFF
  {
  }

  // ----- when a call throws -----

  /** Where the cast wraps the order is lost: with a bucket a second long, a price that is at its boundary after the
      first second is followed by a call that throws after the next. */
  lemma WrappedCastThrows(range: Range, exp: int -> nat, ln: int -> int)
    requires range.Valid() && IsExp(exp) && exp(-MAX_INT256 - 1) < WAD
    ensures ExponentialPrice(range, 1, MAX_LOG_ARG + 1, 1, 1, exp) == Some(range.BoundaryPrice())
    ensures ExponentialPrice(range, 1, MAX_LOG_ARG + 1, 1, 2, exp) == None
    ensures LogarithmicPrice(range, 1, MAX_LOG_ARG + 1, 1, 1, ln) == Some(range.BoundaryPrice())
    ensures LogarithmicPrice(range, 1, MAX_LOG_ARG + 1, 1, 2, ln) == None
  {
  }

  /** The first bucket whose argument does not fit a signed word. */
  function FirstWrapped(timeCoefficient: nat): (bucket: nat)
    requires timeCoefficient > 0
    ensures bucket > 0
  {
    MAX_INT256 / timeCoefficient + 1
  }

  lemma FirstWrappedIsFirst(timeCoefficient: nat, bucket: nat)
    requires timeCoefficient > 0
    ensures timeCoefficient * bucket > MAX_INT256 <==> bucket >= FirstWrapped(timeCoefficient)
    ensures bucket >= FirstWrapped(timeCoefficient) ==>
              timeCoefficient * FirstWrapped(timeCoefficient) <= timeCoefficient * bucket
  {
    FloorGalois(MAX_INT256, timeCoefficient, bucket);
    if bucket >= FirstWrapped(timeCoefficient) { MulMono(FirstWrapped(timeCoefficient), bucket, timeCoefficient); }
  }

  /** A bucket is reached by some elapsed word exactly when its start fits one. */
  lemma BucketReached(bucketSize: nat, bucket: nat)
    requires bucketSize > 0
    ensures bucket * bucketSize / bucketSize == bucket
    ensures forall timeElapsed: nat :: timeElapsed <= MAX_UINT256 && timeElapsed / bucketSize >= bucket ==>
                                         bucket * bucketSize <= MAX_UINT256
  {
    FloorUnique(bucket * bucketSize, bucketSize, bucket);
    forall timeElapsed: nat | timeElapsed <= MAX_UINT256 && timeElapsed / bucketSize >= bucket
      ensures bucket * bucketSize <= MAX_UINT256
    {
      FloorGalois(timeElapsed, bucketSize, bucket);
    }
  }

  /** The first wrapped bucket is reached, and its argument still fits a word. */
  predicate WrapReached(timeCoefficient: nat, bucketSize: nat)
    requires timeCoefficient > 0
  {
    && FirstWrapped(timeCoefficient) * bucketSize <= MAX_UINT256
    && timeCoefficient * FirstWrapped(timeCoefficient) <= MAX_UINT256
  }

  /** What wraps wraps no lower than the first wrapped bucket's argument does. */
  lemma WrapsFromFirst(timeCoefficient: nat, bucketSize: nat, timeElapsed: nat)
    requires timeCoefficient > 0 && bucketSize > 0 && timeElapsed <= MAX_UINT256
    requires CastWraps(CurveArgument(timeCoefficient, bucketSize, timeElapsed))
    ensures WrapReached(timeCoefficient, bucketSize)
    ensures MAX_INT256 < timeCoefficient * FirstWrapped(timeCoefficient)
              <= CurveArgument(timeCoefficient, bucketSize, timeElapsed)
  {
    FloorGalois(timeElapsed, bucketSize, 0);
    var bucket := timeElapsed / bucketSize;
    FirstWrappedIsFirst(timeCoefficient, bucket);
    FirstWrappedIsFirst(timeCoefficient, FirstWrapped(timeCoefficient));
    BucketReached(bucketSize, FirstWrapped(timeCoefficient));
  }

  lemma FirstWrappedTime(timeCoefficient: nat, bucketSize: nat) returns (timeElapsed: nat)
    requires timeCoefficient > 0 && bucketSize > 0 && WrapReached(timeCoefficient, bucketSize)
    ensures timeElapsed <= MAX_UINT256
    ensures CurveArgument(timeCoefficient, bucketSize, timeElapsed) == timeCoefficient * FirstWrapped(timeCoefficient)
    ensures CastWraps(CurveArgument(timeCoefficient, bucketSize, timeElapsed))
  {
    FirstWrappedIsFirst(timeCoefficient, FirstWrapped(timeCoefficient));
    BucketReached(bucketSize, FirstWrapped(timeCoefficient));
    timeElapsed := FirstWrapped(timeCoefficient) * bucketSize;
  }

  /** A logarithmic price can be asked for at every elapsed word exactly when no bucket is reached that wraps, or the
      first one that does wraps to an argument within one of zero. */
  lemma LogarithmNeverThrowsIff(range: Range, scalingFactor: nat, timeCoefficient: nat, bucketSize: nat,
                                ln: int -> int)
    requires range.Valid() && scalingFactor > 0 && timeCoefficient > 0 && bucketSize > 0 && IsLn(ln)
    ensures (forall timeElapsed: nat :: timeElapsed <= MAX_UINT256 ==>
               LogarithmicPrice(range, scalingFactor, timeCoefficient, bucketSize, timeElapsed, ln).Some?)
       <==> || !WrapReached(timeCoefficient, bucketSize)
            || timeCoefficient * FirstWrapped(timeCoefficient) > MAX_UINT256 + 1 - WAD
  {
    forall timeElapsed: nat | timeElapsed <= MAX_UINT256
      ensures LogarithmicPrice(range, scalingFactor, timeCoefficient, bucketSize, timeElapsed, ln).None? ==>
                && WrapReached(timeCoefficient, bucketSize)
                && timeCoefficient * FirstWrapped(timeCoefficient) <= MAX_UINT256 + 1 - WAD
    {
      LogarithmicPriceExact(range, scalingFactor, timeCoefficient, bucketSize, timeElapsed, ln);
      if LogarithmicPrice(range, scalingFactor, timeCoefficient, bucketSize, timeElapsed, ln).None? {
        WrapsFromFirst(timeCoefficient, bucketSize, timeElapsed);
      }
    }
    if WrapReached(timeCoefficient, bucketSize) {
      var first := FirstWrappedTime(timeCoefficient, bucketSize);
      LogarithmicPriceExact(range, scalingFactor, timeCoefficient, bucketSize, first, ln);
      assert timeCoefficient * FirstWrapped(timeCoefficient) > MAX_UINT256 + 1 - WAD
        <==> LogarithmicPrice(range, scalingFactor, timeCoefficient, bucketSize, first, ln).Some?;
    }
  }

  /** An exponential price can be asked for at every elapsed word exactly when no bucket is reached that wraps, or the
      scaled exponential of the first wrapped argument is one or more. */
  lemma ExponentialNeverThrowsIff(range: Range, scalingFactor: nat, timeCoefficient: nat, bucketSize: nat,
                                  exp: int -> nat)
    requires range.Valid() && scalingFactor > 0 && timeCoefficient > 0 && bucketSize > 0 && IsExp(exp)
    ensures (forall timeElapsed: nat :: timeElapsed <= MAX_UINT256 ==>
               ExponentialPrice(range, scalingFactor, timeCoefficient, bucketSize, timeElapsed, exp).Some?)
       <==> || !WrapReached(timeCoefficient, bucketSize)
            || scalingFactor * exp(ToInt256(timeCoefficient * FirstWrapped(timeCoefficient))) >= WAD
  {
    forall timeElapsed: nat | timeElapsed <= MAX_UINT256
      ensures ExponentialPrice(range, scalingFactor, timeCoefficient, bucketSize, timeElapsed, exp).None? ==>
                && WrapReached(timeCoefficient, bucketSize)
                && scalingFactor * exp(ToInt256(timeCoefficient * FirstWrapped(timeCoefficient))) < WAD
    {
      ExponentialPriceExact(range, scalingFactor, timeCoefficient, bucketSize, timeElapsed, exp);
      if ExponentialPrice(range, scalingFactor, timeCoefficient, bucketSize, timeElapsed, exp).None? {
        WrapsFromFirst(timeCoefficient, bucketSize, timeElapsed);
        MulMono(exp(ToInt256(timeCoefficient * FirstWrapped(timeCoefficient))),
                exp(ToInt256(CurveArgument(timeCoefficient, bucketSize, timeElapsed))), scalingFactor);
      }
    }
    if WrapReached(timeCoefficient, bucketSize) {
      var first := FirstWrappedTime(timeCoefficient, bucketSize);
      ExponentialPriceExact(range, scalingFactor, timeCoefficient, bucketSize, first, exp);
      assert scalingFactor * exp(ToInt256(timeCoefficient * FirstWrapped(timeCoefficient))) >= WAD
        <==> ExponentialPrice(range, scalingFactor, timeCoefficient, bucketSize, first, exp).Some?;
    }
  }

  // ----- when prices are in order at every elapsed word -----

  predicate Ordered(range: Range, earlier: Option<int>, later: Option<int>) {
    && earlier.Some? && later.Some? && range.InOrder(earlier.value, later.value)
    && range.Within(earlier.value) && range.Within(later.value)
  }

  /** Order can be lost where no call throws: a price at its lowest after the first second is back near its start
      after the next. */
  lemma WrappedPriceOutOfOrder(exp: int -> nat)
    requires IsExp(exp) && exp(-2) >= WAD - 10
    ensures var range := Range(10 * WAD, true, 10 * WAD, WAD);
            var second := ExponentialPrice(range, 2, MAX_INT256, 1, 2, exp);
            && ExponentialPrice(range, 2, MAX_INT256, 1, 1, exp) == Some(WAD)
            && second.Some? && second.value >= 9 * WAD
  {
    assert exp(-2) <= exp(0);
  }

  function BeforeWrap(timeCoefficient: nat, bucketSize: nat): nat
    requires timeCoefficient > 0
  {
    (FirstWrapped(timeCoefficient) - 1) * bucketSize
  }

  function AtWrap(timeCoefficient: nat, bucketSize: nat): nat
    requires timeCoefficient > 0
  {
    FirstWrapped(timeCoefficient) * bucketSize
  }

  /** The arguments on both sides of the wrap. */
  lemma WrapArguments(timeCoefficient: nat, bucketSize: nat)
    requires timeCoefficient > 0 && bucketSize > 0 && WrapReached(timeCoefficient, bucketSize)
    ensures BeforeWrap(timeCoefficient, bucketSize) <= AtWrap(timeCoefficient, bucketSize) <= MAX_UINT256
    ensures CurveArgument(timeCoefficient, bucketSize, BeforeWrap(timeCoefficient, bucketSize))
         == timeCoefficient * (FirstWrapped(timeCoefficient) - 1) <= MAX_INT256
    ensures CurveArgument(timeCoefficient, bucketSize, AtWrap(timeCoefficient, bucketSize))
         == timeCoefficient * FirstWrapped(timeCoefficient)
    ensures CastWraps(CurveArgument(timeCoefficient, bucketSize, AtWrap(timeCoefficient, bucketSize)))
  {
    var first := FirstWrapped(timeCoefficient);
    MulMono(first - 1, first, bucketSize);
    FirstWrappedIsFirst(timeCoefficient, first);
    FirstWrappedIsFirst(timeCoefficient, first - 1);
    BucketReached(bucketSize, first);
    BucketReached(bucketSize, first - 1);
  }

  /** A time whose argument does not wrap yet is no later than the last such time, bucket by bucket. */
  lemma UpToWrap(timeCoefficient: nat, bucketSize: nat, timeElapsed: nat)
    requires timeCoefficient > 0 && bucketSize > 0
    requires CurveArgument(timeCoefficient, bucketSize, timeElapsed) <= MAX_INT256
    ensures 0 <= timeElapsed / bucketSize * bucketSize <= BeforeWrap(timeCoefficient, bucketSize)
    ensures CurveArgument(timeCoefficient, bucketSize, timeElapsed / bucketSize * bucketSize)
         == CurveArgument(timeCoefficient, bucketSize, timeElapsed)
  {
    FloorGalois(timeElapsed, bucketSize, 0);
    var bucket := timeElapsed / bucketSize;
    FirstWrappedIsFirst(timeCoefficient, bucket);
    MulMono(bucket, FirstWrapped(timeCoefficient) - 1, bucketSize);
    FloorUnique(bucket * bucketSize, bucketSize, bucket);
    MulMono(0, bucket, bucketSize);
  }

  /** At every two elapsed words the later price is the later one in the auction's direction. */
  ghost predicate InOrderThroughout(range: Range, price: nat -> Option<int>) {
    forall earlier: nat, later: nat :: earlier <= later <= MAX_UINT256 ==> Ordered(range, price(earlier), price(later))
  }

  /** Across the one step on which the cast begins to wrap, if that is reached. */
  predicate InOrderOverWrap(range: Range, timeCoefficient: nat, bucketSize: nat, price: nat -> Option<int>)
    requires timeCoefficient > 0
  {
    WrapReached(timeCoefficient, bucketSize) ==>
      Ordered(range, price(BeforeWrap(timeCoefficient, bucketSize)), price(AtWrap(timeCoefficient, bucketSize)))
  }

  // ----- the exponential's order -----

  function ExponentialCurve(range: Range, scalingFactor: nat, timeCoefficient: nat, bucketSize: nat,
                            exp: int -> nat): nat -> Option<int>
  {
    (timeElapsed: nat) => ExponentialPrice(range, scalingFactor, timeCoefficient, bucketSize, timeElapsed, exp)
  }

  /** Past the cast, wrapped arguments keep their order, as far as the first of them does not throw. */
  lemma WrappedExponentialOrder(range: Range, scalingFactor: nat, x: nat, y: nat, exp: int -> nat)
    requires range.Valid() && scalingFactor > 0 && IsExp(exp) && CastWraps(x) && CastWraps(y) && x <= y
    requires ExponentialAt(range, scalingFactor, x, exp).Some?
    ensures Ordered(range, ExponentialAt(range, scalingFactor, x, exp), ExponentialAt(range, scalingFactor, y, exp))
  {
    var e, f := exp(ToInt256(x)), exp(ToInt256(y));
    assert e <= f;
    MulMono(e, f, scalingFactor);
    FloorGalois(MAX_UINT256, e, scalingFactor);
    FloorGalois(MAX_UINT256, f, scalingFactor);
  }

  lemma ExponentialPairInOrder(range: Range, scalingFactor: nat, timeCoefficient: nat, bucketSize: nat,
                               earlier: nat, later: nat, exp: int -> nat)
    requires range.Valid() && scalingFactor > 0 && timeCoefficient > 0 && bucketSize > 0 && IsExp(exp)
    requires earlier <= later <= MAX_UINT256
    requires InOrderOverWrap(range, timeCoefficient, bucketSize,
                             ExponentialCurve(range, scalingFactor, timeCoefficient, bucketSize, exp))
    ensures Ordered(range,
                    ExponentialPrice(range, scalingFactor, timeCoefficient, bucketSize, earlier, exp),
                    ExponentialPrice(range, scalingFactor, timeCoefficient, bucketSize, later, exp))
  {
    var x := CurveArgument(timeCoefficient, bucketSize, earlier);
    var y := CurveArgument(timeCoefficient, bucketSize, later);
    CurveArgumentOrder(timeCoefficient, bucketSize, earlier, later);
    CurveArgumentGuard(timeCoefficient, bucketSize, earlier);
    CurveArgumentGuard(timeCoefficient, bucketSize, later);
    if !CastWraps(x) && !CastWraps(y) {
      ExponentialPriceMonotone(range, scalingFactor, timeCoefficient, bucketSize, earlier, later, exp);
    } else {
      WrapsFromFirst(timeCoefficient, bucketSize, if CastWraps(x) then earlier else later);
      WrapArguments(timeCoefficient, bucketSize);
      var before, at := BeforeWrap(timeCoefficient, bucketSize), AtWrap(timeCoefficient, bucketSize);
      var first := CurveArgument(timeCoefficient, bucketSize, at);
      CurveArgumentGuard(timeCoefficient, bucketSize, at);
      if CastWraps(x) {
        WrappedExponentialOrder(range, scalingFactor, first, x, exp);
        if CastWraps(y) { WrappedExponentialOrder(range, scalingFactor, x, y, exp); }
      } else {
        UpToWrap(timeCoefficient, bucketSize, earlier);
        var start := earlier / bucketSize * bucketSize;
        CurveArgumentGuard(timeCoefficient, bucketSize, start);
        ExponentialPriceMonotone(range, scalingFactor, timeCoefficient, bucketSize, start, before, exp);
        WrappedExponentialOrder(range, scalingFactor, first, y, exp);
      }
    }
  }

  /** Exponential prices are in order and within their bounds at every elapsed word exactly when they are over the
      wrap. */
  lemma ExponentialInOrderIff(range: Range, scalingFactor: nat, timeCoefficient: nat, bucketSize: nat,
                              exp: int -> nat)
    requires range.Valid() && scalingFactor > 0 && timeCoefficient > 0 && bucketSize > 0 && IsExp(exp)
    ensures var curve := ExponentialCurve(range, scalingFactor, timeCoefficient, bucketSize, exp);
            InOrderThroughout(range, curve) <==> InOrderOverWrap(range, timeCoefficient, bucketSize, curve)
  {
    var curve := ExponentialCurve(range, scalingFactor, timeCoefficient, bucketSize, exp);
    if WrapReached(timeCoefficient, bucketSize) { WrapArguments(timeCoefficient, bucketSize); }
    if InOrderOverWrap(range, timeCoefficient, bucketSize, curve) {
      forall earlier: nat, later: nat | earlier <= later <= MAX_UINT256
        ensures Ordered(range, curve(earlier), curve(later))
      {
        ExponentialPairInOrder(range, scalingFactor, timeCoefficient, bucketSize, earlier, later, exp);
      }
    }
  }

  /** For a coefficient that fits a signed word the price before the wrap is at its boundary, so the one after must
      be: its scaled exponential is too large for a word, or is one and the distance to the boundary. */
  lemma ExponentialOverWrapIff(range: Range, scalingFactor: nat, timeCoefficient: nat, bucketSize: nat,
                               exp: int -> nat)
    requires range.Valid() && scalingFactor > 0 && 0 < timeCoefficient <= MAX_INT256 && bucketSize > 0 && IsExp(exp)
    requires WrapReached(timeCoefficient, bucketSize)
    ensures var curve := ExponentialCurve(range, scalingFactor, timeCoefficient, bucketSize, exp);
            var scaled := scalingFactor * exp(ToInt256(timeCoefficient * FirstWrapped(timeCoefficient)));
            InOrderOverWrap(range, timeCoefficient, bucketSize, curve)
            <==> || scaled > MAX_UINT256
                 || scaled - WAD >= Abs(range.initialPrice - range.BoundaryPrice())
  {
    var before, at := BeforeWrap(timeCoefficient, bucketSize), AtWrap(timeCoefficient, bucketSize);
    WrapArguments(timeCoefficient, bucketSize);
    CurveArgumentGuard(timeCoefficient, bucketSize, before);
    CurveArgumentGuard(timeCoefficient, bucketSize, at);
    PastLargestBeforeWrap(timeCoefficient);
    WrappedAtBoundaryIff(range, scalingFactor, timeCoefficient * FirstWrapped(timeCoefficient), exp);
  }

  lemma WrappedAtBoundaryIff(range: Range, scalingFactor: nat, argument: nat, exp: int -> nat)
    requires range.Valid() && scalingFactor > 0 && IsExp(exp) && CastWraps(argument)
    ensures var scaled := scalingFactor * exp(ToInt256(argument));
            Ordered(range, Some(range.BoundaryPrice()), ExponentialAt(range, scalingFactor, argument, exp))
            <==> scaled > MAX_UINT256 || scaled - WAD >= Abs(range.initialPrice - range.BoundaryPrice())
  {
    var e := exp(ToInt256(argument));
    if e > 0 { FloorGalois(MAX_UINT256, e, scalingFactor); }
  }

  /** The last argument that does not wrap is past half the signed words. */
  lemma PastLargestBeforeWrap(timeCoefficient: nat)
    requires 0 < timeCoefficient <= MAX_INT256
    ensures timeCoefficient * (FirstWrapped(timeCoefficient) - 1) > MAX_LOG_ARG > MAX_EXP_ARG
  {
    FirstWrappedIsFirst(timeCoefficient, FirstWrapped(timeCoefficient));
    FirstWrappedIsFirst(timeCoefficient, 1);
    MulDistributes(FirstWrapped(timeCoefficient) - 1, 1, timeCoefficient);
    MulMono(1, FirstWrapped(timeCoefficient) - 1, timeCoefficient);
  }

  // ----- the logarithm's order -----

  function LogarithmicCurve(range: Range, scalingFactor: nat, timeCoefficient: nat, bucketSize: nat,
                            ln: int -> int): nat -> Option<int>
  {
    (timeElapsed: nat) => LogarithmicPrice(range, scalingFactor, timeCoefficient, bucketSize, timeElapsed, ln)
  }

  /** Where the first wrapped logarithm does not throw, no second argument wraps. */
  lemma OneWrappedLogarithm(timeCoefficient: nat, bucketSize: nat, timeElapsed: nat)
    requires timeCoefficient > 0 && bucketSize > 0 && timeElapsed <= MAX_UINT256
    requires timeCoefficient * FirstWrapped(timeCoefficient) > MAX_UINT256 + 1 - WAD
    requires CastWraps(CurveArgument(timeCoefficient, bucketSize, timeElapsed))
    ensures WrapReached(timeCoefficient, bucketSize)
    ensures CurveArgument(timeCoefficient, bucketSize, timeElapsed) == timeCoefficient * FirstWrapped(timeCoefficient)
  {
    var first := FirstWrapped(timeCoefficient);
    WrapsFromFirst(timeCoefficient, bucketSize, timeElapsed);
    FirstWrappedIsFirst(timeCoefficient, first - 1);
    var bucket := timeElapsed / bucketSize;
    FloorGalois(timeElapsed, bucketSize, 0);
    FirstWrappedIsFirst(timeCoefficient, bucket);
    SecondMultiple(timeCoefficient, first, bucket);
  }

  lemma SecondMultiple(d: nat, first: nat, bucket: nat)
    requires first > 0 && d * (first - 1) <= MAX_INT256 && d * first > MAX_UINT256 + 1 - WAD
    requires bucket >= first && d * bucket <= MAX_UINT256
    ensures bucket == first
  {
    MulDistributes(first - 1, 1, d);
    MulDistributes(first, 1, d);
    if bucket > first { MulMono(first + 1, bucket, d); }
  }

  lemma LogarithmicPairInOrder(range: Range, scalingFactor: nat, timeCoefficient: nat, bucketSize: nat,
                               earlier: nat, later: nat, ln: int -> int)
    requires range.Valid() && scalingFactor > 0 && timeCoefficient > 0 && bucketSize > 0 && IsLn(ln)
    requires earlier <= later <= MAX_UINT256
    requires InOrderOverWrap(range, timeCoefficient, bucketSize,
                             LogarithmicCurve(range, scalingFactor, timeCoefficient, bucketSize, ln))
    ensures Ordered(range,
                    LogarithmicPrice(range, scalingFactor, timeCoefficient, bucketSize, earlier, ln),
                    LogarithmicPrice(range, scalingFactor, timeCoefficient, bucketSize, later, ln))
  {
    var x := CurveArgument(timeCoefficient, bucketSize, earlier);
    var y := CurveArgument(timeCoefficient, bucketSize, later);
    CurveArgumentOrder(timeCoefficient, bucketSize, earlier, later);
    CurveArgumentGuard(timeCoefficient, bucketSize, earlier);
    CurveArgumentGuard(timeCoefficient, bucketSize, later);
    if !CastWraps(x) && !CastWraps(y) {
      LogarithmicPriceMonotone(range, scalingFactor, timeCoefficient, bucketSize, earlier, later, ln);
    } else {
      var wrapped := if CastWraps(x) then earlier else later;
      WrapsFromFirst(timeCoefficient, bucketSize, wrapped);
      WrapArguments(timeCoefficient, bucketSize);
      var before, at := BeforeWrap(timeCoefficient, bucketSize), AtWrap(timeCoefficient, bucketSize);
      CurveArgumentGuard(timeCoefficient, bucketSize, at);
      LogarithmicPriceExact(range, scalingFactor, timeCoefficient, bucketSize, at, ln);
      OneWrappedLogarithm(timeCoefficient, bucketSize, wrapped);
      if CastWraps(x) {
        if CastWraps(y) { OneWrappedLogarithm(timeCoefficient, bucketSize, later); }
      } else {
        UpToWrap(timeCoefficient, bucketSize, earlier);
        var start := earlier / bucketSize * bucketSize;
        CurveArgumentGuard(timeCoefficient, bucketSize, start);
        LogarithmicPriceMonotone(range, scalingFactor, timeCoefficient, bucketSize, start, before, ln);
      }
    }
  }

  /** Logarithmic prices are in order and within their bounds at every elapsed word exactly when they are over the
      wrap. */
  lemma LogarithmInOrderIff(range: Range, scalingFactor: nat, timeCoefficient: nat, bucketSize: nat, ln: int -> int)
    requires range.Valid() && scalingFactor > 0 && timeCoefficient > 0 && bucketSize > 0 && IsLn(ln)
    ensures var curve := LogarithmicCurve(range, scalingFactor, timeCoefficient, bucketSize, ln);
            InOrderThroughout(range, curve) <==> InOrderOverWrap(range, timeCoefficient, bucketSize, curve)
  {
    var curve := LogarithmicCurve(range, scalingFactor, timeCoefficient, bucketSize, ln);
    if WrapReached(timeCoefficient, bucketSize) { WrapArguments(timeCoefficient, bucketSize); }
    if InOrderOverWrap(range, timeCoefficient, bucketSize, curve) {
      forall earlier: nat, later: nat | earlier <= later <= MAX_UINT256
        ensures Ordered(range, curve(earlier), curve(later))
      {
        LogarithmicPairInOrder(range, scalingFactor, timeCoefficient, bucketSize, earlier, later, ln);
      }
    }
  }

  /** A logarithm that is a signed word and negative below one is a huge word, so with a scaling factor above one the
      price over the wrap is at its boundary or the call throws: in order exactly when it does not throw. */
  lemma LogarithmOverWrapIff(range: Range, scalingFactor: nat, timeCoefficient: nat, bucketSize: nat, ln: int -> int)
    requires range.Valid() && scalingFactor > 1 && timeCoefficient > 0 && bucketSize > 0 && IsLn(ln)
    requires forall x :: 0 < x < WAD ==> -MAX_INT256 - 1 <= ln(x) < 0
    requires WrapReached(timeCoefficient, bucketSize)
    ensures InOrderOverWrap(range, timeCoefficient, bucketSize,
                            LogarithmicCurve(range, scalingFactor, timeCoefficient, bucketSize, ln))
       <==> timeCoefficient * FirstWrapped(timeCoefficient) > MAX_UINT256 + 1 - WAD
  {
    var before, at := BeforeWrap(timeCoefficient, bucketSize), AtWrap(timeCoefficient, bucketSize);
    WrapArguments(timeCoefficient, bucketSize);
    CurveArgumentGuard(timeCoefficient, bucketSize, before);
    CurveArgumentGuard(timeCoefficient, bucketSize, at);
    LogarithmicPriceMonotone(range, scalingFactor, timeCoefficient, bucketSize, before, before, ln);
    FloorGalois(MAX_UINT256, scalingFactor, MAX_INT256 + 1);
    MulMono(2, scalingFactor, MAX_INT256 + 1);
  }
}
