/** Streaming fees: how much supply one accrual mints, and what it does to position units. */
module FeeModule {
  import opened Rounding
  import opened MathUtils

  const ONE_YEAR_IN_SECONDS: int := 31557600

  function StreamingFee(previousAccrueTimestamp: int, recentAccrueTimestamp: int, accrualRate: int): int {
    TruncDiv((recentAccrueTimestamp - previousAccrueTimestamp) * accrualRate, ONE_YEAR_IN_SECONDS)
  }

  function StreamingFeeInflationAmount(inflationPercent: int, totalSupply: int): int
    requires inflationPercent != PRECISE_UNIT
  {
    TruncDiv(inflationPercent * totalSupply, PRECISE_UNIT - inflationPercent)
  }

  function PostFeeUnit(unit: int, inflationPercent: int): int {
    if unit >= 0 then
      PreciseMul(unit, PRECISE_UNIT - inflationPercent)
    else
      PreciseMulCeilInt(unit, PRECISE_UNIT - inflationPercent)
  }

  method GetPostFeePositionUnits(preFeeUnits: seq<int>, inflationPercent: int) returns (newUnits: seq<int>)
    ensures newUnits == PostFeeUnits(preFeeUnits, inflationPercent)
    ensures inflationPercent <= PRECISE_UNIT ==>
              forall i :: 0 <= i < |preFeeUnits| ==>
                            newUnits[i] == DivDown(preFeeUnits[i] * (PRECISE_UNIT - inflationPercent), PRECISE_UNIT)
  {
    newUnits := [];
    for i := 0 to |preFeeUnits|
      invariant newUnits == PostFeeUnits(preFeeUnits[..i], inflationPercent)
    {
      if preFeeUnits[i] >= 0 {
        newUnits := newUnits + [PreciseMul(preFeeUnits[i], PRECISE_UNIT - inflationPercent)];
      } else {
        newUnits := newUnits + [PreciseMulCeilInt(preFeeUnits[i], PRECISE_UNIT - inflationPercent)];
      }
    }
    assert preFeeUnits[..|preFeeUnits|] == preFeeUnits;
    forall i | 0 <= i < |preFeeUnits| && inflationPercent <= PRECISE_UNIT
      ensures newUnits[i] == DivDown(preFeeUnits[i] * (PRECISE_UNIT - inflationPercent), PRECISE_UNIT)
    {
      PostFeeUnitIsFloorIff(preFeeUnits[i], inflationPercent);
    }
  }

  function PostFeeUnits(units: seq<int>, inflationPercent: int): seq<int> {
    seq(|units|, i requires 0 <= i < |units| => PostFeeUnit(units[i], inflationPercent))
  }

  /** The two branches on the sign of a unit are one floor as long as the fee stays within one unit, and otherwise
      only by divisibility. */
  lemma PostFeeUnitIsFloorIff(unit: int, inflationPercent: int)
    ensures PostFeeUnit(unit, inflationPercent) == DivDown(unit * (PRECISE_UNIT - inflationPercent), PRECISE_UNIT)
       <==> (inflationPercent <= PRECISE_UNIT || unit * (PRECISE_UNIT - inflationPercent) % PRECISE_UNIT == 0)
  {
    var kept := PRECISE_UNIT - inflationPercent;
    AbsMul(unit, kept);
    DivDownPositive(unit * kept, PRECISE_UNIT);
  }

  // ----- one accrual -----

  function SupplyAfterFee(supply: nat, fee: nat): (s: nat)
    requires fee < PRECISE_UNIT
    ensures s >= supply
  {
    FloorGalois(fee * supply, PRECISE_UNIT - fee, 0);
    supply + StreamingFeeInflationAmount(fee, supply)
  }

  /** The minted amount is the greatest integer whose share of the enlarged supply is at most the fee. */
  lemma InflationIsLargestWithinFee(fee: nat, supply: nat, amount: int)
    requires fee < PRECISE_UNIT
    ensures amount <= StreamingFeeInflationAmount(fee, supply)
       <==> amount * PRECISE_UNIT <= fee * (supply + amount)
  {
    var kept := PRECISE_UNIT - fee;
    InflationIdentity(PRECISE_UNIT, fee, supply, amount);
    MulMono(0, fee, supply);
    assert StreamingFeeInflationAmount(fee, supply) == fee * supply / kept;
    FloorGalois(fee * supply, kept, amount);
  }

  lemma InflationIdentity(one: int, fee: int, supply: int, amount: int)
    ensures amount * (one - fee) == amount * one - fee * amount
    ensures fee * (supply + amount) == fee * supply + fee * amount
  {
  }

  /** The new supply is the old one divided by the kept fraction, rounded down. */
  lemma SupplyGalois(supply: nat, fee: nat, k: int)
    requires fee < PRECISE_UNIT
    ensures k <= SupplyAfterFee(supply, fee) <==> k * (PRECISE_UNIT - fee) <= supply * PRECISE_UNIT
  {
    InflationIsLargestWithinFee(fee, supply, k - supply);
    assert k * (PRECISE_UNIT - fee) == k * PRECISE_UNIT - fee * k;
  }

  /** Accruing two fees in turn mints no more than accruing their sum. */
  lemma TwoFeesWithinSum(supply: nat, fee1: nat, fee2: nat, fee: nat)
    requires fee1 + fee2 <= fee < PRECISE_UNIT
    ensures SupplyAfterFee(SupplyAfterFee(supply, fee1), fee2) <= SupplyAfterFee(supply, fee)
  {
    var s1 := SupplyAfterFee(supply, fee1);
    var s2 := SupplyAfterFee(s1, fee2);
    SupplyGalois(supply, fee1, s1);
    SupplyGalois(s1, fee2, s2);
    SupplyGalois(supply, fee, s2);
    KeptProduct(fee1, fee2, fee, PRECISE_UNIT);
    GrowthComposes(supply, s1, s2, PRECISE_UNIT - fee1, PRECISE_UNIT - fee2, PRECISE_UNIT - fee, PRECISE_UNIT);
  }

  lemma KeptProduct(fee1: nat, fee2: nat, fee: nat, one: nat)
    requires fee1 + fee2 <= fee <= one
    ensures (one - fee) * one <= (one - fee1) * (one - fee2)
  {
    MulMono(0, fee1, fee2);
    MulMono(fee1 + fee2, fee, one);
  }

  lemma GrowthComposes(s0: nat, s1: nat, s2: nat, kept1: nat, kept2: nat, kept: nat, one: nat)
    requires one > 0 && kept * one <= kept1 * kept2
    requires s1 * kept1 <= s0 * one && s2 * kept2 <= s1 * one
    ensures s2 * kept <= s0 * one
  {
  }

  // ----- a fee period cut into sub-periods -----

  function Last(start: int, times: seq<int>): int {
    if times == [] then start else times[|times| - 1]
  }

  ghost predicate InOrder(start: int, times: seq<int>)
    decreases |times|
  {
    times != [] ==> start <= times[0] && InOrder(times[0], times[1..])
  }

  lemma {:induction false} StartBeforeLast(start: int, times: seq<int>)
    requires InOrder(start, times)
    ensures start <= Last(start, times)
    ensures times != [] ==> Last(start, times) == Last(times[0], times[1..])
    decreases |times|
  {
    if times != [] { StartBeforeLast(times[0], times[1..]); }
  }

  /** The fee is the rate's share of the elapsed part of a year, rounded down. */
  lemma StreamingFeeIsFloor(start: int, end: int, rate: nat, k: int)
    requires start <= end
    ensures k <= StreamingFee(start, end, rate) <==> k * ONE_YEAR_IN_SECONDS <= (end - start) * rate
  {
  }

  /** A year of 31557600 seconds takes the whole rate. */
  lemma WholeYearTakesRate(start: int, rate: nat)
    ensures StreamingFee(start, start + 31557600, rate) == rate
  {
    FloorUnique(31557600 * rate, ONE_YEAR_IN_SECONDS, rate);
  }

  lemma StreamingFeeSuperadditive(t0: int, t1: int, t2: int, rate: nat)
    requires t0 <= t1 <= t2
    ensures 0 <= StreamingFee(t0, t1, rate)
    ensures 0 <= StreamingFee(t1, t2, rate)
    ensures StreamingFee(t0, t1, rate) + StreamingFee(t1, t2, rate) <= StreamingFee(t0, t2, rate)
  {
    var a, b := (t1 - t0) * rate, (t2 - t1) * rate;
    assert a + b == (t2 - t0) * rate;
    MulMono(0, t1 - t0, rate);
    MulMono(0, t2 - t1, rate);
  }

  /** The supply after accruing at each of the given times in turn. */
  ghost function AccrueAt(supply: nat, rate: nat, start: int, times: seq<int>): nat
    requires InOrder(start, times)
    requires StreamingFee(start, Last(start, times), rate) < PRECISE_UNIT
    decreases |times|
  {
    if times == [] then supply else
    StartBeforeLast(start, times);
    StartBeforeLast(times[0], times[1..]);
    StreamingFeeSuperadditive(start, times[0], Last(start, times), rate);
    AccrueAt(SupplyAfterFee(supply, StreamingFee(start, times[0], rate)), rate, times[0], times[1..])
  }

  /** Accruing once divides the supply by what the fee keeps, rounded down. */
  lemma AccrueOnceDivides(supply: nat, rate: nat, start: int, end: int, k: int)
    requires start <= end && StreamingFee(start, end, rate) < PRECISE_UNIT
    ensures InOrder(start, [end])
    ensures k <= AccrueAt(supply, rate, start, [end])
       <==> k * (PRECISE_UNIT - (end - start) * rate / ONE_YEAR_IN_SECONDS) <= supply * PRECISE_UNIT
  {
    StreamingFeeSuperadditive(start, end, end, rate);
    assert [end][1..] == [];
    FloorGalois((end - start) * rate, ONE_YEAR_IN_SECONDS, 0);
    MulMono(0, end - start, rate);
    SupplyGalois(supply, StreamingFee(start, end, rate), k);
  }

  /** The parts of a period are in order, and the fee of each is within the fee of the whole. */
  lemma {:induction false} PartsInOrder(start: int, times: seq<int>, later: seq<int>)
    requires InOrder(start, times + later)
    ensures InOrder(start, times) && InOrder(Last(start, times), later)
    ensures Last(Last(start, times), later) == Last(start, times + later)
    ensures start <= Last(start, times) <= Last(start, times + later)
    decreases |times|
  {
    if times == [] {
      assert times + later == later;
      StartBeforeLast(start, later);
    } else {
      assert (times + later)[1..] == times[1..] + later;
      PartsInOrder(times[0], times[1..], later);
      StartBeforeLast(times[0], times[1..]);
    }
  }

  lemma PartsWithinFee(rate: nat, start: int, times: seq<int>, later: seq<int>)
    requires InOrder(start, times + later)
    requires StreamingFee(start, Last(start, times + later), rate) < PRECISE_UNIT
    ensures InOrder(start, times) && InOrder(Last(start, times), later)
    ensures StreamingFee(start, Last(start, times), rate) < PRECISE_UNIT
    ensures StreamingFee(Last(start, times), Last(Last(start, times), later), rate) < PRECISE_UNIT
  {
    PartsInOrder(start, times, later);
    StreamingFeeSuperadditive(start, Last(start, times), Last(start, times + later), rate);
  }

  /** Accruing at some times and then at later ones is accruing at all of them. */
  lemma {:induction false} AccrueInTurn(supply: nat, rate: nat, start: int, times: seq<int>, later: seq<int>)
    requires InOrder(start, times + later)
    requires StreamingFee(start, Last(start, times + later), rate) < PRECISE_UNIT
    ensures InOrder(start, times) && InOrder(Last(start, times), later)
    ensures StreamingFee(start, Last(start, times), rate) < PRECISE_UNIT
    ensures StreamingFee(Last(start, times), Last(Last(start, times), later), rate) < PRECISE_UNIT
    ensures AccrueAt(supply, rate, start, times + later)
         == AccrueAt(AccrueAt(supply, rate, start, times), rate, Last(start, times), later)
    decreases |times|
  {
    PartsWithinFee(rate, start, times, later);
    if times == [] {
      assert times + later == later;
    } else {
      var all := times + later;
      assert all[0] == times[0] && all[1..] == times[1..] + later;
      var next := AccrueFirst(supply, rate, start, all);
      var same := AccrueFirst(supply, rate, start, times);
      AccrueInTurn(next, rate, times[0], times[1..], later);
      StartBeforeLast(start, times);
    }
  }

  lemma AccrueFirst(supply: nat, rate: nat, start: int, times: seq<int>) returns (next: nat)
    requires times != [] && InOrder(start, times)
    requires StreamingFee(start, Last(start, times), rate) < PRECISE_UNIT
    ensures InOrder(times[0], times[1..])
    ensures 0 <= StreamingFee(start, times[0], rate) < PRECISE_UNIT
    ensures StreamingFee(times[0], Last(times[0], times[1..]), rate) < PRECISE_UNIT
    ensures next == SupplyAfterFee(supply, StreamingFee(start, times[0], rate))
    ensures AccrueAt(supply, rate, start, times) == AccrueAt(next, rate, times[0], times[1..])
  {
    StartBeforeLast(start, times);
    StartBeforeLast(times[0], times[1..]);
    StreamingFeeSuperadditive(start, times[0], Last(start, times), rate);
    next := SupplyAfterFee(supply, StreamingFee(start, times[0], rate));
  }

  /** Cutting a period into pieces never mints more than accruing once over the whole, with no rounding slack. */
  lemma {:induction false} CuttingPeriodNeverMintsMore(supply: nat, rate: nat, start: int, times: seq<int>)
    requires InOrder(start, times)
    requires StreamingFee(start, Last(start, times), rate) < PRECISE_UNIT
    ensures 0 <= StreamingFee(start, Last(start, times), rate)
    ensures AccrueAt(supply, rate, start, times)
         <= SupplyAfterFee(supply, StreamingFee(start, Last(start, times), rate))
    decreases |times|
  {
    if times != [] {
      var middle, end := times[0], Last(start, times);
      StartBeforeLast(middle, times[1..]);
      StreamingFeeSuperadditive(start, middle, end, rate);
      var fee1, fee2 := StreamingFee(start, middle, rate), StreamingFee(middle, end, rate);
      CuttingPeriodNeverMintsMore(SupplyAfterFee(supply, fee1), rate, middle, times[1..]);
      TwoFeesWithinSum(supply, fee1, fee2, StreamingFee(start, end, rate));
    }
  }

  // ----- the value of a position over a run of accruals -----

  datatype Fund = Fund(supply: nat, units: seq<int>)

  function Accrue(fund: Fund, fee: nat): Fund
    requires fee < PRECISE_UNIT
  {
    Fund(SupplyAfterFee(fund.supply, fee), PostFeeUnits(fund.units, fee))
  }

  predicate ValidFees(fees: seq<nat>) {
    forall i :: 0 <= i < |fees| ==> fees[i] < PRECISE_UNIT
  }

  function AccrueAll(fund: Fund, fees: seq<nat>): Fund
    requires ValidFees(fees)
    decreases |fees|
  {
    if fees == [] then fund else AccrueAll(Accrue(fund, fees[0]), fees[1..])
  }

  /** A run is its accruals: two runs in turn are one. */
  lemma {:induction false} RunIsItsAccruals(fund: Fund, fees: seq<nat>, more: seq<nat>)
    requires ValidFees(fees) && ValidFees(more)
    ensures AccrueAll(fund, fees + more) == AccrueAll(AccrueAll(fund, fees), more)
    decreases |fees|
  {
    if fees == [] {
      assert fees + more == more;
    } else {
      assert (fees + more)[1..] == fees[1..] + more;
      RunIsItsAccruals(Accrue(fund, fees[0]), fees[1..], more);
    }
  }

  /** One accrual divides the supply by what the fee keeps and cuts every unit to that fraction, both rounded down. */
  lemma OneAccrual(fund: Fund, fee: nat, i: nat, k: int)
    requires fee < PRECISE_UNIT && i < |fund.units|
    ensures var next, kept := AccrueAll(fund, [fee]), PRECISE_UNIT - fee;
            && |next.units| == |fund.units|
            && (k <= next.supply <==> k * kept <= fund.supply * PRECISE_UNIT)
            && (k <= next.units[i] <==> k * PRECISE_UNIT <= fund.units[i] * kept)
  {
    var kept := PRECISE_UNIT - fee;
    assert AccrueAll(fund, [fee]) == Accrue(fund, fee) by { assert [fee][1..] == []; }
    SupplyGalois(fund.supply, fee, k);
    PostFeeUnitIsFloorIff(fund.units[i], fee);
    DivDownPositive(fund.units[i] * kept, PRECISE_UNIT);
    FloorGalois(fund.units[i] * kept, PRECISE_UNIT, k);
  }

  /** One accrual keeps the sign of a unit, and never raises what an asset unit stands for. */
  lemma AssetValueNeverGrows(supply: nat, unit: nat, fee: nat)
    requires fee < PRECISE_UNIT
    ensures 0 <= PostFeeUnit(unit, fee)
    ensures PostFeeUnit(unit, fee) * SupplyAfterFee(supply, fee) <= unit * supply
  {
    var kept, s := PRECISE_UNIT - fee, SupplyAfterFee(supply, fee);
    MulMono(s * kept, supply * PRECISE_UNIT, unit);
  }

  /** One accrual understates a debt unit's total by less than the unit, and never raises the unit itself. */
  lemma DebtValueLoss(supply: nat, unit: int, fee: nat)
    requires fee < PRECISE_UNIT && unit < 0
    ensures unit <= PostFeeUnit(unit, fee) < 0
    ensures PostFeeUnit(unit, fee) * SupplyAfterFee(supply, fee) < unit * supply - unit
  {
    var debt, kept, s := -unit, PRECISE_UNIT - fee, SupplyAfterFee(supply, fee);
    var newDebt := -PostFeeUnit(unit, fee);
    PostFeeDebt(unit, fee);
    SupplyGalois(supply, fee, s + 1);
    ProductAbove(debt, supply, newDebt, s + 1, kept, PRECISE_UNIT);
    DebtLossArithmetic(debt, newDebt, supply, s);
  }

  lemma DebtLossArithmetic(debt: int, newDebt: int, supply: int, s: int)
    requires newDebt <= debt && debt * supply < newDebt * (s + 1)
    ensures -newDebt * s < -debt * supply + debt
  {
  }

  /** A debt's unit shrinks to the kept fraction, rounded up. */
  lemma PostFeeDebt(unit: int, fee: nat)
    requires fee < PRECISE_UNIT && unit < 0
    ensures PostFeeUnit(unit, fee) == -CeilDiv(-unit * (PRECISE_UNIT - fee), PRECISE_UNIT) < 0
  {
  }

  lemma ProductAbove(x: int, y: int, x': int, y': int, kept: int, one: int)
    requires x > 0 && y' > 0 && one > 0
    requires x * kept <= x' * one && y * one < y' * kept
    ensures x * y < x' * y'
  {
  }

  /** Over every run of accruals no asset's total ever grows. */
  lemma {:induction false} AssetValueOverRun(fund: Fund, fees: seq<nat>, i: nat)
    requires ValidFees(fees)
    requires i < |fund.units| && fund.units[i] >= 0
    ensures |AccrueAll(fund, fees).units| == |fund.units|
    ensures var end := AccrueAll(fund, fees);
            0 <= end.units[i] && end.units[i] * end.supply <= fund.units[i] * fund.supply
    decreases |fees|
  {
    if fees != [] {
      AssetValueNeverGrows(fund.supply, fund.units[i], fees[0]);
      var next := Accrue(fund, fees[0]);
      AssetValueOverRun(next, fees[1..], i);
    }
  }

  /** Over every run of n accruals a debt's total is understated by less than n times its unit. */
  lemma {:induction false} DebtValueOverRun(fund: Fund, fees: seq<nat>, i: nat)
    requires ValidFees(fees) && fees != []
    requires i < |fund.units| && fund.units[i] < 0
    ensures |AccrueAll(fund, fees).units| == |fund.units|
    ensures var end := AccrueAll(fund, fees);
            var unit := fund.units[i];
            unit <= end.units[i] < 0 && end.units[i] * end.supply < unit * fund.supply - |fees| * unit
    decreases |fees|
  {
    var unit, next, rest := fund.units[i], Accrue(fund, fees[0]), fees[1..];
    DebtValueLoss(fund.supply, unit, fees[0]);
    if rest == [] {
      assert AccrueAll(next, rest) == next;
    } else {
      DebtValueOverRun(next, rest, i);
      var end := AccrueAll(next, rest);
      DebtRunArithmetic(unit, next.units[i], |rest|, end.units[i] * end.supply, next.units[i] * next.supply,
                        unit * fund.supply);
    }
  }

  lemma DebtRunArithmetic(unit: int, nextUnit: int, n: nat, end: int, next: int, start: int)
    requires unit <= nextUnit && end < next - n * nextUnit && next < start - unit
    ensures end < start - (n + 1) * unit
  {
  }
}
