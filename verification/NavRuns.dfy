/** Runs of net-asset-value issues and redeems over one fund. */
module NavRuns {
  import opened Wrappers
  import opened Rounding
  import opened MathUtils
  import opened NavIssuance

  /** `unit` is the reserve asset's position unit, `reserve` the amount of it really held. */
  datatype Fund = Fund(supply: int, unit: int, multiplier: int, reserve: int) {
    /** The reserve the position unit accounts for. */
    function Tracked(): int {
      PreciseMul(supply, unit)
    }

    predicate Backed() {
      supply >= 0 && multiplier >= 0 && reserve >= 0 && Tracked() <= reserve
    }
  }

  datatype Action =
    | Issue(valuation: nat, baseUnits: nat, reserveQuantity: nat, fees: Fees)
    | Redeem(valuation: nat, baseUnits: nat, setQuantity: nat, fees: Fees)
  {
    /** The change in the reserve held. */
    function ReserveChange(): int {
      match this
      case Issue(_, _, quantity, fees) => PostFeeQuantity(quantity, fees.manager, fees.protocol)
      case Redeem(valuation, baseUnits, quantity, fees) =>
        -ReserveTakenOut(quantity, valuation, baseUnits, fees.premium)
    }
  }

  /** One call. It throws on a zero divisor, on burning the last token, and on paying out more than is held. */
  function Step(fund: Fund, action: Action): Option<Fund> {
    match action
    case Issue(valuation, baseUnits, quantity, fees) =>
      if baseUnits == 0 then None else
      var deposit := NormalizedDeposit(baseUnits, quantity, fees);
      if IssueDenominator(fund.supply, valuation, deposit) == 0 then None else
      var supply := fund.supply + IssueQuantity(fund.supply, valuation, deposit);
      var multiplier := IssuePositionMultiplier(fund.multiplier, fund.supply, supply);
      if supply == 0 || multiplier == 0 then None else
      var unit := IssuePositionUnit(fund.unit, quantity, fund.supply, supply, multiplier,
                                    fees.manager, fees.protocol);
      Some(Fund(supply, unit, multiplier, fund.reserve + action.ReserveChange()))
    case Redeem(valuation, baseUnits, quantity, fees) =>
      var supply := fund.supply - quantity;
      if supply <= 0 || fund.reserve + action.ReserveChange() < 0 then None else
      var multiplier := RedeemPositionMultiplier(fund.multiplier, fund.supply, supply);
      if multiplier == 0 then None else
      var unit := RedeemPositionUnit(fund.unit, quantity, valuation, baseUnits, fund.supply, supply, multiplier,
                                     fees.premium);
      Some(Fund(supply, unit, multiplier, fund.reserve + action.ReserveChange()))
  }

  function Run(fund: Fund, actions: seq<Action>): Option<Fund>
    decreases |actions|
  {
    if actions == [] then Some(fund) else
    match Step(fund, actions[0])
    case None => None
    case Some(next) => Run(next, actions[1..])
  }

  /** The redeemer's payout is at most what leaves the set, so the fee remainder is never negative. */
  lemma PayoutWithinReserveTaken(quantity: nat, valuation: nat, baseUnits: nat, fees: Fees)
    requires fees.Valid()
    ensures 0 <= ReserveRedeemQuantity(quantity, valuation, baseUnits, fees)
         <= ReserveTakenOut(quantity, valuation, baseUnits, fees.premium)
  {
    var notional := RedeemNotional(quantity, valuation, fees.premium);
    RedeemNotionalIsFloor(quantity, valuation, fees.premium);
    PostFeeBounds(notional, fees.manager, fees.protocol);
    var postFee := PostFeeQuantity(notional, fees.manager, fees.protocol);
    MulMono(postFee, notional, baseUnits);
    FloorMono(postFee * baseUnits, notional * baseUnits, PRECISE_UNIT);
  }

  /** A step leaves supply and multiplier positive, and their product no larger and little smaller. */
  lemma StepSupplyAndMultiplier(fund: Fund, action: Action)
    requires fund.Backed() && action.fees.Valid()
    ensures Step(fund, action).Some? ==>
              var next := Step(fund, action).value;
              && next.supply > 0 && next.multiplier > 0
              && next.multiplier * next.supply <= fund.multiplier * fund.supply
              && (fund.multiplier * fund.supply - next.multiplier * next.supply) * PRECISE_UNIT
               < fund.multiplier * next.supply + PRECISE_UNIT * next.supply
  {
    if Step(fund, action).Some? {
      var next := Step(fund, action).value;
      match action
      case Issue(valuation, baseUnits, quantity, fees) =>
        IssueIsFair(fund.supply, valuation, baseUnits, quantity, fees);
        IssueMultiplierBounds(fund.multiplier, fund.supply, next.supply);
      case Redeem(valuation, baseUnits, quantity, fees) =>
        RedeemMultiplierBounds(fund.multiplier, fund.supply, next.supply);
    }
  }

  /** A call goes through exactly when nothing divides by zero, a token is left, the reserve covers what leaves it,
      and the multiplier does not round down to nothing. */
  lemma StepSucceedsIff(fund: Fund, action: Action)
    requires fund.Backed() && action.fees.Valid()
    ensures match action
            case Issue(valuation, baseUnits, quantity, fees) =>
              Step(fund, action).Some? <==>
                && baseUnits > 0
                && var (q, q') := NormalizedDeposit(baseUnits, quantity, fees);
                   var net := fund.supply * valuation / PRECISE_UNIT;
                   && net + q - q' != 0
                   && var supply := fund.supply + IssueQuantity(fund.supply, valuation, (q, q'));
                      supply > 0 && PRECISE_UNIT <= fund.multiplier * (fund.supply * PRECISE_UNIT / supply)
            case Redeem(valuation, baseUnits, quantity, fees) =>
              Step(fund, action).Some? <==>
                && quantity < fund.supply
                && ReserveTakenOut(quantity, valuation, baseUnits, fees.premium) <= fund.reserve
                && PRECISE_UNIT
                   <= fund.multiplier * (fund.supply * PRECISE_UNIT / (fund.supply - quantity))
  {
    match action
    case Issue(valuation, baseUnits, quantity, fees) =>
      if baseUnits > 0 {
        var deposit := NormalizedDeposit(baseUnits, quantity, fees);
        if IssueDenominator(fund.supply, valuation, deposit) != 0 {
          IssueIsFair(fund.supply, valuation, baseUnits, quantity, fees);
          var supply := fund.supply + IssueQuantity(fund.supply, valuation, deposit);
          if supply > 0 { IssueMultiplierIsFloor(fund.multiplier, fund.supply, supply); }
        }
      }
    case Redeem(valuation, baseUnits, quantity, fees) =>
      if quantity < fund.supply { RedeemMultiplierIsFloor(fund.multiplier, fund.supply, fund.supply - quantity); }
  }

  lemma IssueMultiplierIsFloor(multiplier: nat, supply: nat, currentSupply: nat)
    requires supply <= currentSupply && currentSupply > 0
    ensures IssuePositionMultiplier(multiplier, supply, currentSupply)
         == multiplier * (supply * PRECISE_UNIT / currentSupply) / PRECISE_UNIT >= 0
    ensures IssuePositionMultiplier(multiplier, supply, currentSupply) == 0
       <==> multiplier * (supply * PRECISE_UNIT / currentSupply) < PRECISE_UNIT
  {
    var x := (currentSupply - supply) * PRECISE_UNIT;
    DivCeilIsCeil(currentSupply - supply, currentSupply);
    CeilBounds(x, currentSupply);
    MulDistributes(currentSupply - supply, supply, PRECISE_UNIT);
    FloorUnique(supply * PRECISE_UNIT, currentSupply, PRECISE_UNIT - CeilDiv(x, currentSupply));
    FloorGalois(supply * PRECISE_UNIT, currentSupply, 0);
    FloorGalois(multiplier * (supply * PRECISE_UNIT / currentSupply), PRECISE_UNIT, 1);
  }

  lemma RedeemMultiplierIsFloor(multiplier: nat, supply: nat, currentSupply: nat)
    requires 0 < currentSupply <= supply
    ensures RedeemPositionMultiplier(multiplier, supply, currentSupply)
         == multiplier * (supply * PRECISE_UNIT / currentSupply) / PRECISE_UNIT >= 0
    ensures RedeemPositionMultiplier(multiplier, supply, currentSupply) == 0
       <==> multiplier * (supply * PRECISE_UNIT / currentSupply) < PRECISE_UNIT
  {
    var x := (supply - currentSupply) * PRECISE_UNIT;
    FloorBounds(x, currentSupply);
    MulDistributes(supply - currentSupply, currentSupply, PRECISE_UNIT);
    MulDistributes(x / currentSupply, PRECISE_UNIT, currentSupply);
    FloorUnique(supply * PRECISE_UNIT, currentSupply, PRECISE_UNIT + x / currentSupply);
    FloorGalois(supply * PRECISE_UNIT, currentSupply, 0);
    FloorGalois(multiplier * (supply * PRECISE_UNIT / currentSupply), PRECISE_UNIT, 1);
  }

  /** An issue mints the buyer's share of the deposit and dilutes no holder; a redeem burns its quantity. */
  lemma StepSharesFairly(fund: Fund, action: Action)
    requires fund.Backed() && action.fees.Valid() && Step(fund, action).Some?
    ensures var next := Step(fund, action).value;
            match action
            case Issue(valuation, baseUnits, quantity, fees) =>
              var (q, q') := NormalizedDeposit(baseUnits, quantity, fees);
              var net, minted := fund.supply * valuation / PRECISE_UNIT, next.supply - fund.supply;
              && 0 <= minted && minted * (net + q - q') <= q' * fund.supply / PRECISE_UNIT * PRECISE_UNIT
                                                           < (minted + 1) * (net + q - q')
              && 0 <= q' * next.supply - minted * (net + q) < PRECISE_UNIT + (net + q - q')
              && net * next.supply <= (net + q) * fund.supply
            case Redeem(_, _, quantity, _) => next.supply == fund.supply - quantity
  {
    if action.Issue? {
      var (q, q') := NormalizedDeposit(action.baseUnits, action.reserveQuantity, action.fees);
      DepositOrder(action.baseUnits, action.reserveQuantity, action.fees);
      IssueIsFair(fund.supply, action.valuation, action.baseUnits, action.reserveQuantity, action.fees);
      FloorBounds(PreciseMul(q', fund.supply) * PRECISE_UNIT, IssueDenominator(fund.supply, action.valuation, (q, q')));
    }
  }

  /** An issue adds the deposit after fees to the reserve, a redeem takes the notional after the premium out of it. */
  lemma StepMovesReserve(fund: Fund, action: Action, k: int)
    requires fund.Backed() && action.fees.Valid() && Step(fund, action).Some?
    ensures var change := Step(fund, action).value.reserve - fund.reserve;
            match action
            case Issue(_, _, quantity, fees) =>
              var kept := quantity * (PRECISE_UNIT - fees.manager - fees.protocol);
              kept <= change * PRECISE_UNIT < kept + 2 * PRECISE_UNIT
            case Redeem(valuation, baseUnits, quantity, fees) =>
              k <= -change <==>
                k * PRECISE_UNIT
                <= valuation * quantity / PRECISE_UNIT * (PRECISE_UNIT - fees.premium) / PRECISE_UNIT * baseUnits
  {
    match action
    case Issue(_, _, quantity, fees) => PostFeeBounds(quantity, fees.manager, fees.protocol);
    case Redeem(valuation, baseUnits, quantity, fees) =>
      ReserveTakenOutIsLargest(quantity, valuation, baseUnits, fees.premium, k);
  }

  /** One step keeps the tracked reserve within the reserve held. The unit accounts for no more than was tracked and
      what the reserve gained or lost, and for nearly all of it, so the invariant is not met by writing units off. */
  lemma StepKeepsBacking(fund: Fund, action: Action)
    requires fund.Backed() && action.fees.Valid()
    ensures Step(fund, action).Some? ==>
              var next := Step(fund, action).value;
              var owed := fund.Tracked() + next.reserve - fund.reserve;
              && next.Backed()
              && (owed <= 0 ==> next.Tracked() <= 0)
              && (owed >= 0 ==>
                    && next.Tracked() <= owed
                    && (owed - next.Tracked() - 1) * PRECISE_UNIT * next.multiplier
                       < 2 * next.supply * next.multiplier + next.supply * PRECISE_UNIT)
  {
    if Step(fund, action).Some? {
      var next := Step(fund, action).value;
      var owed := fund.Tracked() + action.ReserveChange();
      StepSupplyAndMultiplier(fund, action);
      assert next.unit == RealUnitOnContract(PreciseDiv(owed, next.supply), next.multiplier);
      if action.Issue? {
        PostFeeBounds(action.reserveQuantity, action.fees.manager, action.fees.protocol);
      }
      if owed >= 0 { NewUnitBacked(owed, next.supply, next.multiplier); }
      if owed <= 0 { NegativeNumerator(owed, next.supply, next.multiplier); }
    }
  }

  /** After a call the multiplier is scaled by what supply is left or grown to, and the unit is what is owed per
      token less what its conversion loses. */
  lemma StepIsExact(fund: Fund, action: Action)
    requires fund.Backed() && action.fees.Valid() && Step(fund, action).Some?
    ensures var next := Step(fund, action).value;
            && next.supply > 0 && next.multiplier > 0
            && next.multiplier == fund.multiplier * (fund.supply * PRECISE_UNIT / next.supply) / PRECISE_UNIT
            && var owed := fund.Tracked() + next.reserve - fund.reserve;
               owed >= 0 ==>
                 var exact := owed * PRECISE_UNIT / next.supply;
                 next.unit == exact - CeilDiv(exact * next.multiplier % PRECISE_UNIT, next.multiplier)
  {
    var next := Step(fund, action).value;
    StepSupplyAndMultiplier(fund, action);
    match action {
      case Issue(valuation, baseUnits, quantity, fees) =>
        IssueIsFair(fund.supply, valuation, baseUnits, quantity, fees);
        IssueMultiplierIsFloor(fund.multiplier, fund.supply, next.supply);
      case Redeem(_, _, _, _) =>
        RedeemMultiplierIsFloor(fund.multiplier, fund.supply, next.supply);
    }
    var owed := fund.Tracked() + next.reserve - fund.reserve;
    if owed >= 0 {
      FloorGalois(owed * PRECISE_UNIT, next.supply, 0);
      RealUnitExact(owed * PRECISE_UNIT / next.supply, next.multiplier);
    }
  }

  /** A run is its steps: two runs in turn are one, and a run of one call is that call. */
  lemma {:induction false} RunIsItsSteps(fund: Fund, actions: seq<Action>, more: seq<Action>)
    ensures Run(fund, actions + more)
         == match Run(fund, actions) case None => None case Some(end) => Run(end, more)
    ensures |actions| == 1 ==> Run(fund, actions) == Step(fund, actions[0])
    decreases |actions|
  {
    if actions == [] {
      assert actions + more == more;
    } else {
      assert (actions + more)[1..] == actions[1..] + more;
      match Step(fund, actions[0]) {
        case None =>
        case Some(next) => RunIsItsSteps(next, actions[1..], more);
      }
    }
  }

  predicate ValidFees(actions: seq<Action>) {
    forall i :: 0 <= i < |actions| ==> actions[i].fees.Valid()
  }

  /** Over every run that does not throw, the reserve stays backed and multiplier times supply never grows. */
  lemma {:induction false} RunKeepsBacking(fund: Fund, actions: seq<Action>)
    requires fund.Backed() && ValidFees(actions)
    ensures Run(fund, actions).Some? ==>
              var end := Run(fund, actions).value;
              && end.Backed()
              && end.multiplier * end.supply <= fund.multiplier * fund.supply
    decreases |actions|
  {
    if actions != [] && Step(fund, actions[0]).Some? {
      StepSupplyAndMultiplier(fund, actions[0]);
      StepKeepsBacking(fund, actions[0]);
      RunKeepsBacking(Step(fund, actions[0]).value, actions[1..]);
    }
  }
}
