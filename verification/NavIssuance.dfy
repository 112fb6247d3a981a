/** Issuing and redeeming at net asset value: quantities, position units and the position multiplier. */
module NavIssuance {
  import opened Rounding
  import opened MathUtils
  import opened Shares

  // ----- the calculators -----

  function PostFeeQuantity(quantity: int, managerFee: int, protocolFee: int): int {
    quantity - PreciseMul(quantity, managerFee) - PreciseMul(quantity, protocolFee)
  }

  /** Fee percentages of one call; together they never exceed the whole. */
  datatype Fees = Fees(manager: nat, protocol: nat, premium: nat) {
    predicate Valid() {
      manager + protocol <= PRECISE_UNIT && premium <= PRECISE_UNIT
    }
  }

  /** The deposit of an issue in the set's own units, after fees and after fees and premium. */
  function NormalizedDeposit(baseUnits: int, reserveQuantity: int, fees: Fees): (int, int)
    requires baseUnits != 0
  {
    var subFees := PostFeeQuantity(reserveQuantity, fees.manager, fees.protocol);
    var subFeesAndPremium := subFees - PreciseMul(subFees, fees.premium);
    (PreciseDiv(subFees, baseUnits), PreciseDiv(subFeesAndPremium, baseUnits))
  }

  function IssueDenominator(supply: int, valuation: int, deposit: (int, int)): int {
    PreciseMul(supply, valuation) + deposit.0 - deposit.1
  }

  function IssueQuantity(supply: int, valuation: int, deposit: (int, int)): int
    requires IssueDenominator(supply, valuation, deposit) != 0
  {
    PreciseDiv(PreciseMul(deposit.1, supply), IssueDenominator(supply, valuation, deposit))
  }

  function IssuePositionMultiplier(previousMultiplier: int, previousSupply: int, currentSupply: int): int {
    var inflation := PreciseDivCeil(currentSupply - previousSupply, currentSupply);
    PreciseMul(previousMultiplier, PRECISE_UNIT - inflation)
  }

  function RedeemPositionMultiplier(previousMultiplier: int, previousSupply: int, currentSupply: int): int
    requires currentSupply != 0
  {
    var deflation := PreciseDiv(previousSupply - currentSupply, currentSupply);
    PreciseMul(previousMultiplier, PRECISE_UNIT + deflation)
  }

  /** A real unit after its conversion to a virtual unit and back. */
  function RealUnitOnContract(unit: int, multiplier: int): int
    requires multiplier != 0
  {
    PreciseDiv(PreciseMul(unit, multiplier), multiplier)
  }

  function IssuePositionUnit(previousUnits: int, issueQuantity: int, previousSupply: int, currentSupply: int,
                             newMultiplier: int, managerFee: int, protocolFee: int): int
    requires currentSupply != 0 && newMultiplier != 0
  {
    var issueQuantitySubFees := PostFeeQuantity(issueQuantity, managerFee, protocolFee);
    var numerator := PreciseMul(previousSupply, previousUnits) + issueQuantitySubFees;
    RealUnitOnContract(PreciseDiv(numerator, currentSupply), newMultiplier)
  }

  /** The notional a redeemer is owed before fees, in the set's own units: valuation times quantity, less the
      premium. */
  function RedeemNotional(quantity: int, valuation: int, premium: int): int {
    var totalNotional := PreciseMul(valuation, quantity);
    totalNotional - PreciseMulCeil(totalNotional, premium)
  }

  function ReserveRedeemQuantity(quantity: int, valuation: int, baseUnits: int, fees: Fees): int {
    var notional := RedeemNotional(quantity, valuation, fees.premium);
    PreciseMul(PostFeeQuantity(notional, fees.manager, fees.protocol), baseUnits)
  }

  /** What leaves the set on a redeem: the redeemer's payout and the fees together. */
  function ReserveTakenOut(quantity: int, valuation: int, baseUnits: int, premium: int): int {
    PreciseMul(RedeemNotional(quantity, valuation, premium), baseUnits)
  }

  function RedeemPositionUnit(previousUnits: int, quantity: int, valuation: int, baseUnits: int, previousSupply: int,
                              currentSupply: int, newMultiplier: int, premium: int): int
    requires currentSupply != 0 && newMultiplier != 0
  {
    var totalReserveBalance := ReserveTakenOut(quantity, valuation, baseUnits, premium);
    var numerator := PreciseMul(previousSupply, previousUnits) - totalReserveBalance;
    RealUnitOnContract(PreciseDiv(numerator, currentSupply), newMultiplier)
  }

  // ----- rounding facts about the calculators -----

  /** The post-fee quantity lies within two of the exact value, on the payer's side. */
  lemma PostFeeBounds(quantity: nat, managerFee: nat, protocolFee: nat)
    requires managerFee + protocolFee <= PRECISE_UNIT
    ensures var exact := quantity * (PRECISE_UNIT - managerFee - protocolFee);
            var postFee := PostFeeQuantity(quantity, managerFee, protocolFee);
            exact <= postFee * PRECISE_UNIT <= exact + 2 * (PRECISE_UNIT - 1)
    ensures 0 <= PostFeeQuantity(quantity, managerFee, protocolFee) <= quantity
  {
  }

  /** A larger quantity can leave less after fees, but never by more than one. */
  lemma PostFeeDropsAtMostOne(x: nat, y: nat, managerFee: nat, protocolFee: nat)
    requires x <= y && managerFee + protocolFee <= PRECISE_UNIT
    ensures PostFeeQuantity(x, managerFee, protocolFee) <= PostFeeQuantity(y, managerFee, protocolFee) + 1
  {
    MulMono(x, y, PRECISE_UNIT - managerFee - protocolFee);
  }

  /** The post-fee quantity is monotone exactly when at most one of the two fees is charged. */
  lemma PostFeeMonotoneIff(managerFee: nat, protocolFee: nat)
    requires managerFee + protocolFee <= PRECISE_UNIT
    ensures (forall x: nat, y: nat :: x <= y ==>
               PostFeeQuantity(x, managerFee, protocolFee) <= PostFeeQuantity(y, managerFee, protocolFee))
       <==> managerFee == 0 || protocolFee == 0
  {
    if managerFee == 0 || protocolFee == 0 {
      forall x: nat, y: nat | x <= y
        ensures PostFeeQuantity(x, managerFee, protocolFee) <= PostFeeQuantity(y, managerFee, protocolFee)
      {
        FeeGrowsNoFaster(x, y, managerFee);
        FeeGrowsNoFaster(x, y, protocolFee);
      }
    } else {
      // both fees step up together on the last unit before a whole one
      FeeBelowWhole(managerFee);
      FeeBelowWhole(protocolFee);
      assert PostFeeQuantity(PRECISE_UNIT - 1, managerFee, protocolFee)
           > PostFeeQuantity(PRECISE_UNIT, managerFee, protocolFee);
    }
  }

  lemma FeeGrowsNoFaster(x: nat, y: nat, fee: nat)
    requires x <= y && fee <= PRECISE_UNIT
    ensures PreciseMul(y, fee) - PreciseMul(x, fee) <= y - x
  {
  }

  lemma FeeBelowWhole(fee: nat)
    requires 0 < fee <= PRECISE_UNIT
    ensures PreciseMul(PRECISE_UNIT - 1, fee) == fee - 1 && PreciseMul(PRECISE_UNIT, fee) == fee
  {
  }

  lemma PostFeeNotMonotone()
    ensures var half := PRECISE_UNIT / 2; PostFeeQuantity(1, half, half) == PostFeeQuantity(2, half, half) + 1
  {
  }

  /** Subtracting a ceiling leaves an exact floor of the kept fraction. */
  lemma RedeemNotionalIsFloor(quantity: nat, valuation: nat, premium: nat)
    requires premium <= PRECISE_UNIT
    ensures RedeemNotional(quantity, valuation, premium)
         == valuation * quantity / PRECISE_UNIT * (PRECISE_UNIT - premium) / PRECISE_UNIT
    ensures 0 <= RedeemNotional(quantity, valuation, premium) <= valuation * quantity / PRECISE_UNIT
  {
  }

  /** What leaves the set is the greatest amount within the notional after the premium, in the reserve's own units. */
  lemma ReserveTakenOutIsLargest(quantity: nat, valuation: nat, baseUnits: nat, premium: nat, k: int)
    requires premium <= PRECISE_UNIT
    ensures k <= ReserveTakenOut(quantity, valuation, baseUnits, premium)
       <==> k * PRECISE_UNIT
            <= valuation * quantity / PRECISE_UNIT * (PRECISE_UNIT - premium) / PRECISE_UNIT * baseUnits
  {
    RedeemNotionalIsFloor(quantity, valuation, premium);
    FloorGalois(RedeemNotional(quantity, valuation, premium) * baseUnits, PRECISE_UNIT, k);
  }

  /** Beside the payout just the fees leave the set, in the reserve's own units and rounded. */
  lemma FeesLeaveWithPayout(quantity: nat, valuation: nat, baseUnits: nat, fees: Fees)
    requires fees.Valid()
    ensures var n := valuation * quantity / PRECISE_UNIT * (PRECISE_UNIT - fees.premium) / PRECISE_UNIT;
            var taken := (n * fees.manager / PRECISE_UNIT + n * fees.protocol / PRECISE_UNIT) * baseUnits;
            taken / PRECISE_UNIT
            <= ReserveTakenOut(quantity, valuation, baseUnits, fees.premium)
               - ReserveRedeemQuantity(quantity, valuation, baseUnits, fees)
            <= CeilDiv(taken, PRECISE_UNIT)
  {
    RedeemNotionalIsFloor(quantity, valuation, fees.premium);
    var n := RedeemNotional(quantity, valuation, fees.premium);
    var postFee := PostFeeQuantity(n, fees.manager, fees.protocol);
    var taken := n - postFee;
    PostFeeBounds(n, fees.manager, fees.protocol);
    MulDistributes(postFee, taken, baseUnits);
    FloorOfSum(n * baseUnits, postFee * baseUnits, taken * baseUnits, PRECISE_UNIT);
    FloorSuperadditive(postFee * baseUnits, taken * baseUnits, n * baseUnits, PRECISE_UNIT);
  }

  /** The conversion to a virtual unit and back loses exactly the remainder of the virtual unit, in units rounded
      up. */
  lemma RealUnitExact(unit: nat, multiplier: nat)
    requires multiplier > 0
    ensures RealUnitOnContract(unit, multiplier)
         == unit - CeilDiv(unit * multiplier % PRECISE_UNIT, multiplier)
  {
    var v, r := unit * multiplier / PRECISE_UNIT, unit * multiplier % PRECISE_UNIT;
    DivModIdentity(unit * multiplier, PRECISE_UNIT);
    CeilBounds(r, multiplier);
    FloorUnique(v * PRECISE_UNIT, multiplier, unit - CeilDiv(r, multiplier));
  }

  /** The conversion to a virtual unit and back never rounds up, and loses less than one plus PRECISE_UNIT /
      multiplier. */
  lemma RealUnitBounds(unit: nat, multiplier: nat)
    requires multiplier > 0
    ensures 0 <= RealUnitOnContract(unit, multiplier) <= unit
    ensures (unit - RealUnitOnContract(unit, multiplier) - 1) * multiplier < PRECISE_UNIT
  {
  }

  lemma RealUnitOfNegative(unit: int, multiplier: nat)
    requires multiplier > 0 && unit <= 0
    ensures RealUnitOnContract(unit, multiplier) <= 0
  {
    AbsMul(unit, multiplier);
    TruncMagnitude(unit * multiplier, PRECISE_UNIT);
    TruncMagnitude(PreciseMul(unit, multiplier) * PRECISE_UNIT, multiplier);
  }

  /** When the numerator is not negative, the new unit times the new supply never stands for more than it, and for
      little less. */
  lemma NewUnitBacked(numerator: nat, supply: nat, multiplier: nat)
    requires supply > 0 && multiplier > 0
    ensures var unit := RealUnitOnContract(PreciseDiv(numerator, supply), multiplier);
            && 0 <= PreciseMul(supply, unit) <= numerator
            && (numerator - PreciseMul(supply, unit) - 1) * PRECISE_UNIT * multiplier
             < 2 * supply * multiplier + supply * PRECISE_UNIT
  {
    var exact := PreciseDiv(numerator, supply);
    var unit := RealUnitOnContract(exact, multiplier);
    FloorBounds(numerator * PRECISE_UNIT, supply);
    RealUnitBounds(exact, multiplier);
    MulMono(unit, exact, supply);
    UnitLoss(numerator, PreciseMul(supply, unit), exact, unit, supply, multiplier, PRECISE_UNIT);
  }

  lemma UnitLoss(numerator: nat, tracked: nat, exact: nat, unit: nat, supply: nat, multiplier: nat, one: nat)
    requires supply > 0 && multiplier > 0
    requires numerator * one < (exact + 1) * supply
    requires (exact - unit - 1) * multiplier < one
    requires supply * unit < (tracked + 1) * one
    ensures (numerator - tracked - 1) * one * multiplier < 2 * supply * multiplier + supply * one
  {
  }

  /** A negative numerator never leaves a positive unit. */
  lemma NegativeNumerator(numerator: int, supply: nat, multiplier: nat)
    requires numerator <= 0 && supply > 0 && multiplier > 0
    ensures PreciseMul(supply, RealUnitOnContract(PreciseDiv(numerator, supply), multiplier)) <= 0
  {
    var exact := PreciseDiv(numerator, supply);
    RealUnitOfNegative(exact, multiplier);
  }

  // ----- issuing is fair to existing holders -----

  /** Two normalized amounts are the kept fractions of a deposit, but for the rounding of fees, premium and
      quotient. */
  predicate KeptFractions(q: int, q': int, baseUnits: int, kept: int, left: int) {
    && q * baseUnits <= kept + 2 * PRECISE_UNIT
    && kept < (q + 1) * baseUnits
    && q' * baseUnits * PRECISE_UNIT <= (kept + 2 * PRECISE_UNIT) * left + PRECISE_UNIT * PRECISE_UNIT
    && kept * left < (q' + 1) * baseUnits * PRECISE_UNIT
  }

  /** What is left of a deposit after fees, and after fees and premium, on both sides. */
  lemma DepositBounds(baseUnits: nat, reserveQuantity: nat, fees: Fees)
    requires baseUnits > 0 && fees.Valid()
    ensures var (q, q') := NormalizedDeposit(baseUnits, reserveQuantity, fees);
            && 0 <= q' <= q
            && KeptFractions(q, q', baseUnits, reserveQuantity * (PRECISE_UNIT - fees.manager - fees.protocol),
                             PRECISE_UNIT - fees.premium)
  {
    var subFees := PostFeeQuantity(reserveQuantity, fees.manager, fees.protocol);
    DepositOrder(baseUnits, reserveQuantity, fees);
    PostFeeBounds(reserveQuantity, fees.manager, fees.protocol);
    QuotientsKeepFractions(baseUnits, subFees, fees.premium,
                           reserveQuantity * (PRECISE_UNIT - fees.manager - fees.protocol));
  }

  lemma QuotientsKeepFractions(baseUnits: nat, subFees: nat, premium: nat, kept: int)
    requires baseUnits > 0 && premium <= PRECISE_UNIT
    requires kept <= subFees * PRECISE_UNIT <= kept + 2 * PRECISE_UNIT
    ensures var less := subFees - PreciseMul(subFees, premium);
            KeptFractions(PreciseDiv(subFees, baseUnits), PreciseDiv(less, baseUnits), baseUnits, kept,
                          PRECISE_UNIT - premium)
  {
    AfterPremium(subFees, premium);
    var less := subFees - PreciseMul(subFees, premium);
    ScaledQuotient(subFees, baseUnits);
    ScaledQuotient(less, baseUnits);
    DepositArithmetic(kept, PRECISE_UNIT - premium, subFees, less, PreciseDiv(subFees, baseUnits),
                      PreciseDiv(less, baseUnits), baseUnits);
  }

  lemma DepositArithmetic(kept: int, left: nat, subFees: int, less: int, q: int, q': int, baseUnits: nat)
    requires kept <= subFees * PRECISE_UNIT <= kept + 2 * PRECISE_UNIT
    requires subFees * left <= less * PRECISE_UNIT < subFees * left + PRECISE_UNIT
    requires q * baseUnits <= subFees * PRECISE_UNIT < (q + 1) * baseUnits
    requires q' * baseUnits <= less * PRECISE_UNIT < (q' + 1) * baseUnits
    ensures KeptFractions(q, q', baseUnits, kept, left)
  {
    MulMono(kept, subFees * PRECISE_UNIT, left);
    MulMono(subFees * PRECISE_UNIT, kept + 2 * PRECISE_UNIT, left);
    assert subFees * PRECISE_UNIT * left == subFees * left * PRECISE_UNIT;
  }

  lemma ScaledQuotient(x: nat, d: nat)
    requires d > 0
    ensures 0 <= PreciseDiv(x, d) && PreciseDiv(x, d) * d <= x * PRECISE_UNIT < (PreciseDiv(x, d) + 1) * d
  {
    FloorBounds(x * PRECISE_UNIT, d);
    FloorGalois(x * PRECISE_UNIT, d, 0);
  }

  lemma AfterPremium(quantity: nat, premium: nat)
    requires premium <= PRECISE_UNIT
    ensures var less := quantity - PreciseMul(quantity, premium);
            0 <= less && quantity * (PRECISE_UNIT - premium) <= less * PRECISE_UNIT
                         < quantity * (PRECISE_UNIT - premium) + PRECISE_UNIT
  {
    PremiumWithin(quantity, premium);
    FloorBounds(quantity * premium, PRECISE_UNIT);
    MulDistributes(PRECISE_UNIT - premium, premium, quantity);
  }

  lemma DepositOrder(baseUnits: nat, reserveQuantity: nat, fees: Fees)
    requires baseUnits > 0 && fees.Valid()
    ensures var (q, q') := NormalizedDeposit(baseUnits, reserveQuantity, fees); 0 <= q' <= q
  {
    var subFees := PostFeeQuantity(reserveQuantity, fees.manager, fees.protocol);
    PostFeeBounds(reserveQuantity, fees.manager, fees.protocol);
    MulMono(fees.premium, PRECISE_UNIT, subFees);
    FloorGalois(subFees * fees.premium, PRECISE_UNIT, subFees + 1);
    var less := subFees - PreciseMul(subFees, fees.premium);
    FloorMono(less * PRECISE_UNIT, subFees * PRECISE_UNIT, baseUnits);
  }

  /** The buyer never receives more than the premium-reduced deposit's share of the enlarged set, and loses less
      than one unit plus the denominator to rounding. So the value behind every existing token does not fall. */
  lemma IssueIsFair(supply: nat, valuation: nat, baseUnits: nat, reserveQuantity: nat, fees: Fees)
    requires baseUnits > 0 && fees.Valid()
    requires IssueDenominator(supply, valuation, NormalizedDeposit(baseUnits, reserveQuantity, fees)) != 0
    ensures var (q, q') := NormalizedDeposit(baseUnits, reserveQuantity, fees);
            var net := PreciseMul(supply, valuation);
            var issued := IssueQuantity(supply, valuation, (q, q'));
            && issued >= 0
            && issued * (net + q) <= q' * (supply + issued)
            && q' * (supply + issued) - issued * (net + q) < PRECISE_UNIT + (net + q - q')
            && net * (supply + issued) <= (net + q) * supply
  {
    var (q, q') := NormalizedDeposit(baseUnits, reserveQuantity, fees);
    DepositOrder(baseUnits, reserveQuantity, fees);
    var net, d := PreciseMul(supply, valuation), IssueDenominator(supply, valuation, (q, q'));
    var numerator, issued := PreciseMul(q', supply), IssueQuantity(supply, valuation, (q, q'));
    FloorBounds(numerator * PRECISE_UNIT, d);
    IssueArithmetic(net, q, q', supply, issued, d, q' * supply);
  }

  lemma IssueArithmetic(net: nat, q: nat, q': nat, supply: nat, issued: nat, d: nat, share: nat)
    requires q' <= q && d == net + q - q' && share == q' * supply
    requires issued * d <= share < (issued + 1) * d + PRECISE_UNIT
    ensures issued * (net + q) <= q' * (supply + issued)
    ensures q' * (supply + issued) - issued * (net + q) < PRECISE_UNIT + d
    ensures net * (supply + issued) <= (net + q) * supply
  {
  }

  /** A deposit redeemed straight back never pays out more than was deposited, nor more than was left of it after fees
      and premium, at any valuation under which the enlarged set is worth no more than the old set and the deposit. */
  lemma DepositRedeemedNeverProfits(supply: nat, valuation: nat, baseUnits: nat, reserveQuantity: nat, fees: Fees,
                                    newValuation: nat, redeemFees: Fees)
    requires baseUnits > 0 && fees.Valid() && redeemFees.Valid()
    requires IssueDenominator(supply, valuation, NormalizedDeposit(baseUnits, reserveQuantity, fees)) != 0
    requires var deposit := NormalizedDeposit(baseUnits, reserveQuantity, fees);
             newValuation * (supply + IssueQuantity(supply, valuation, deposit))
             <= (PreciseMul(supply, valuation) + deposit.0) * PRECISE_UNIT
    ensures var issued := IssueQuantity(supply, valuation, NormalizedDeposit(baseUnits, reserveQuantity, fees));
            var subFees := PostFeeQuantity(reserveQuantity, fees.manager, fees.protocol);
            ReserveRedeemQuantity(issued, newValuation, baseUnits, redeemFees)
            <= subFees - PreciseMul(subFees, fees.premium) <= reserveQuantity
  {
    var (q, q') := NormalizedDeposit(baseUnits, reserveQuantity, fees);
    DepositOrder(baseUnits, reserveQuantity, fees);
    IssueIsFair(supply, valuation, baseUnits, reserveQuantity, fees);
    var issued := IssueQuantity(supply, valuation, (q, q'));
    RedeemedShare(newValuation, issued, supply, PreciseMul(supply, valuation) + q, q', PRECISE_UNIT);
    var postFee := RedeemWithinShare(issued, newValuation, baseUnits, redeemFees, q');
    PostFeeBounds(reserveQuantity, fees.manager, fees.protocol);
    var subFees := PostFeeQuantity(reserveQuantity, fees.manager, fees.protocol);
    PremiumWithin(subFees, fees.premium);
    BackToReserve(subFees - PreciseMul(subFees, fees.premium), baseUnits, q', postFee);
  }

  lemma PremiumWithin(quantity: nat, premium: nat)
    requires premium <= PRECISE_UNIT
    ensures 0 <= PreciseMul(quantity, premium) <= quantity
  {
  }

  /** A redeem whose value is within a share pays out no more post-fee units than the share. */
  lemma RedeemWithinShare(quantity: nat, valuation: nat, baseUnits: nat, fees: Fees, share: nat) returns (postFee: nat)
    requires fees.Valid() && valuation * quantity <= share * PRECISE_UNIT
    ensures postFee <= share
    ensures ReserveRedeemQuantity(quantity, valuation, baseUnits, fees) == postFee * baseUnits / PRECISE_UNIT
  {
    var notional;
    notional, postFee := OnePart(quantity, valuation, baseUnits, fees);
  }

  lemma RedeemedShare(value: nat, issued: nat, supply: nat, worth: nat, share: nat, one: nat)
    requires value * (supply + issued) <= worth * one && issued * worth <= share * (supply + issued)
    ensures value * issued <= share * one
  {
    var s := supply + issued;
    if s > 0 {
      MulMono(value * s, worth * one, issued);
      MulMono(issued * worth, share * s, one);
      RatioIdentity(value, issued, s, worth, one, share);
      MulCancel(value * issued, share * one, s);
    }
  }

  lemma RatioIdentity(value: int, issued: int, s: int, worth: int, one: int, share: int)
    ensures value * s * issued == value * issued * s && worth * one * issued == issued * worth * one
    ensures share * s * one == share * one * s
  {
  }

  lemma BackToReserve(reserve: nat, baseUnits: nat, normalized: nat, part: nat)
    requires baseUnits > 0 && normalized == reserve * PRECISE_UNIT / baseUnits && part <= normalized
    ensures part * baseUnits / PRECISE_UNIT <= reserve
  {
  }

  // ----- redeeming in parts -----

  function PayoutInParts(quantities: seq<nat>, valuation: nat, baseUnits: nat, fees: Fees): int {
    if quantities == [] then 0 else
    ReserveRedeemQuantity(quantities[0], valuation, baseUnits, fees)
    + PayoutInParts(quantities[1..], valuation, baseUnits, fees)
  }

  lemma RedeemNotionalSuperadditive(a: nat, b: nat, valuation: nat, premium: nat)
    requires premium <= PRECISE_UNIT
    ensures RedeemNotional(a, valuation, premium) + RedeemNotional(b, valuation, premium)
         <= RedeemNotional(a + b, valuation, premium)
  {
    RedeemNotionalIsFloor(a, valuation, premium);
    RedeemNotionalIsFloor(b, valuation, premium);
    RedeemNotionalIsFloor(a + b, valuation, premium);
    NestedFloorsSuperadditive(valuation * a, valuation * b, valuation * (a + b), PRECISE_UNIT - premium, PRECISE_UNIT);
  }

  /** One redeem: its notional, its post-fee quantity against the kept fraction, and its payout. */
  lemma OnePart(quantity: nat, valuation: nat, baseUnits: nat, fees: Fees) returns (notional: nat, postFee: nat)
    requires fees.Valid()
    ensures notional == RedeemNotional(quantity, valuation, fees.premium)
    ensures var exact := notional * Kept(fees);
            exact <= postFee * PRECISE_UNIT <= exact + 2 * (PRECISE_UNIT - 1)
    ensures ReserveRedeemQuantity(quantity, valuation, baseUnits, fees) == postFee * baseUnits / PRECISE_UNIT
    ensures postFee <= notional <= valuation * quantity / PRECISE_UNIT
  {
    RedeemNotionalIsFloor(quantity, valuation, fees.premium);
    notional := RedeemNotional(quantity, valuation, fees.premium);
    PostFeeBounds(notional, fees.manager, fees.protocol);
    postFee := PostFeeQuantity(notional, fees.manager, fees.protocol);
  }

  function Kept(fees: Fees): nat
    requires fees.Valid()
  {
    PRECISE_UNIT - fees.manager - fees.protocol
  }

  /** The parts together: their notional, their post-fee quantity and their payout, each against the one before. */
  lemma {:induction false} PartsBound(quantities: seq<nat>, valuation: nat, baseUnits: nat, fees: Fees)
    returns (notional: nat, postFee: nat)
    requires fees.Valid()
    ensures notional <= RedeemNotional(Sum(quantities), valuation, fees.premium)
    ensures postFee * PRECISE_UNIT <= notional * Kept(fees) + 2 * (PRECISE_UNIT - 1) * |quantities|
    ensures PayoutInParts(quantities, valuation, baseUnits, fees) <= postFee * baseUnits / PRECISE_UNIT
  {
    if quantities == [] {
      RedeemNotionalIsFloor(0, valuation, fees.premium);
      FloorUnique(0 * baseUnits, PRECISE_UNIT, 0);
      notional, postFee := 0, 0;
    } else {
      var q, rest := quantities[0], quantities[1..];
      var restNotional, restPostFee := PartsBound(rest, valuation, baseUnits, fees);
      var partNotional, partPostFee := OnePart(q, valuation, baseUnits, fees);
      RedeemNotionalSuperadditive(q, Sum(rest), valuation, fees.premium);
      notional, postFee := partNotional + restNotional, partPostFee + restPostFee;
      PartsStep(partNotional, restNotional, partPostFee, restPostFee, Kept(fees), baseUnits, |rest|);
    }
  }

  lemma PartsStep(n: nat, restN: nat, p: nat, restP: nat, kept: nat, baseUnits: nat, k: nat)
    requires p * PRECISE_UNIT <= n * kept + 2 * (PRECISE_UNIT - 1)
    requires restP * PRECISE_UNIT <= restN * kept + 2 * (PRECISE_UNIT - 1) * k
    ensures (p + restP) * PRECISE_UNIT <= (n + restN) * kept + 2 * (PRECISE_UNIT - 1) * (k + 1)
    ensures p * baseUnits / PRECISE_UNIT + restP * baseUnits / PRECISE_UNIT <= (p + restP) * baseUnits / PRECISE_UNIT
  {
  }

  /** Splitting one redeem into k parts gains at most the worth of 2k - 1 post-fee units: ceil(3 * baseUnits /
      PRECISE_UNIT) for two. */
  lemma SplittingRedeemGainsLittle(quantities: seq<nat>, valuation: nat, baseUnits: nat, fees: Fees)
    requires fees.Valid() && quantities != []
    ensures PayoutInParts(quantities, valuation, baseUnits, fees)
         <= ReserveRedeemQuantity(Sum(quantities), valuation, baseUnits, fees)
            + CeilDiv((2 * |quantities| - 1) * baseUnits, PRECISE_UNIT)
  {
    var partsNotional, partsPostFee := PartsBound(quantities, valuation, baseUnits, fees);
    var notional, postFee := OnePart(Sum(quantities), valuation, baseUnits, fees);
    SplitWorth(partsNotional, partsPostFee, notional, postFee, Kept(fees), |quantities|, baseUnits);
  }

  /** What the parts' post-fee quantity can be worth beyond the whole's. */
  lemma SplitWorth(partsNotional: nat, partsPostFee: nat, notional: nat, postFee: nat, kept: nat, k: nat, baseUnits: nat)
    requires partsNotional <= notional && k > 0
    requires partsPostFee * PRECISE_UNIT <= partsNotional * kept + 2 * (PRECISE_UNIT - 1) * k
    requires notional * kept <= postFee * PRECISE_UNIT
    ensures partsPostFee * baseUnits / PRECISE_UNIT
         <= postFee * baseUnits / PRECISE_UNIT + CeilDiv((2 * k - 1) * baseUnits, PRECISE_UNIT)
  {
    MulMono(partsNotional, notional, kept);
    SplitSlack(partsPostFee, postFee, k, partsNotional * kept);
    var slack := 2 * k - 1;
    MulMono(partsPostFee, postFee + slack, baseUnits);
    MulDistributes(postFee, slack, baseUnits);
    FloorOfSum(partsPostFee * baseUnits, postFee * baseUnits, slack * baseUnits, PRECISE_UNIT);
  }

  lemma SplitSlack(partsPostFee: nat, postFee: nat, k: nat, exact: nat)
    requires k > 0
    requires partsPostFee * PRECISE_UNIT <= exact + 2 * (PRECISE_UNIT - 1) * k
    requires exact <= postFee * PRECISE_UNIT
    ensures partsPostFee <= postFee + 2 * k - 1
  {
  }

  // ----- the position multiplier -----

  /** Multiplier times supply never grows on an issue, and one issue loses little of it. */
  lemma IssueMultiplierBounds(multiplier: nat, supply: nat, currentSupply: nat)
    requires supply <= currentSupply && currentSupply > 0
    ensures var m' := IssuePositionMultiplier(multiplier, supply, currentSupply);
            && 0 <= m' && m' * currentSupply <= multiplier * supply
            && (multiplier * supply - m' * currentSupply) * PRECISE_UNIT
             < multiplier * currentSupply + PRECISE_UNIT * currentSupply
  {
    var inflation := PreciseDivCeil(currentSupply - supply, currentSupply);
    DivCeilIsCeil(currentSupply - supply, currentSupply);
    CeilBounds((currentSupply - supply) * PRECISE_UNIT, currentSupply);
    CeilGalois((currentSupply - supply) * PRECISE_UNIT, currentSupply, PRECISE_UNIT);
    var factor := PRECISE_UNIT - inflation;
    assert factor * currentSupply <= supply * PRECISE_UNIT < (factor + 1) * currentSupply;
    ScaleBounds(multiplier, factor, supply, currentSupply);
  }

  lemma RedeemMultiplierBounds(multiplier: nat, supply: nat, currentSupply: nat)
    requires 0 < currentSupply <= supply
    ensures var m' := RedeemPositionMultiplier(multiplier, supply, currentSupply);
            && 0 <= m' && m' * currentSupply <= multiplier * supply
            && (multiplier * supply - m' * currentSupply) * PRECISE_UNIT
             < multiplier * currentSupply + PRECISE_UNIT * currentSupply
  {
    var deflation := PreciseDiv(supply - currentSupply, currentSupply);
    var factor := PRECISE_UNIT + deflation;
    ScaleBounds(multiplier, factor, supply, currentSupply);
  }

  /** Scaling by a floor of supply / currentSupply, then flooring the product. */
  lemma ScaleBounds(multiplier: nat, factor: nat, supply: nat, currentSupply: nat)
    requires currentSupply > 0
    requires factor * currentSupply <= supply * PRECISE_UNIT < (factor + 1) * currentSupply
    ensures PreciseMul(multiplier, factor) * currentSupply <= multiplier * supply
    ensures (multiplier * supply - PreciseMul(multiplier, factor) * currentSupply) * PRECISE_UNIT
          < multiplier * currentSupply + PRECISE_UNIT * currentSupply
  {
    ScaleArithmetic(multiplier, factor, PreciseMul(multiplier, factor), supply, currentSupply, PRECISE_UNIT);
  }

  lemma ScaleArithmetic(m: nat, factor: nat, m': nat, s: nat, s': nat, one: nat)
    requires s' > 0 && one > 0
    requires factor * s' <= s * one < (factor + 1) * s'
    requires m' * one <= m * factor < (m' + 1) * one
    ensures m' * s' <= m * s
    ensures (m * s - m' * s') * one < m * s' + one * s'
  {
    MulMono(m' * one, m * factor, s');
    MulMono(factor * s', s * one, m);
    MulMono(s * one, (factor + 1) * s', m);
    ScaleIdentity(m, factor, m', s, s', one);
    MulCancel(m' * s', m * s, one);
  }

  lemma ScaleIdentity(m: int, factor: int, m': int, s: int, s': int, one: int)
    ensures m' * one * s' == m' * s' * one && m * factor * s' == factor * s' * m && s * one * m == m * s * one
    ensures (factor + 1) * s' * m == factor * s' * m + m * s'
    ensures (m * factor + 1) * s' == m * factor * s' + s'
    ensures (m' + 1) * one * s' == m' * s' * one + one * s'
    ensures (m * s - m' * s') * one == m * s * one - m' * s' * one
  {
  }
}
