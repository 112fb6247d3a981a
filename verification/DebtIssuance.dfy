/**
 Issuing and redeeming a set whose components carry equity and borrowed positions. Equity comes in rounded
 up and goes out rounded down; debt is handed out rounded down and repaid rounded up. Units stay fixed.
 */
module DebtIssuance {
  import opened Rounding
  import opened MathUtils

  /** A component's default position unit and its external position unit; a borrow position has a negative unit. */
  datatype Component = Component(equityUnit: int, debtUnit: int) {
    predicate Valid() {
      equityUnit >= 0 && debtUnit <= 0
    }
  }

  /** The terms of one set: its components and its issue and redeem fees. */
  datatype Terms = Terms(components: seq<Component>, issueFee: nat, redeemFee: nat) {
    predicate Valid() {
      redeemFee <= PRECISE_UNIT && forall i :: 0 <= i < |components| ==> components[i].Valid()
    }
  }

  /** Supply, and per component the equity balance and the net debt, which repaying rounded up can take below zero. */
  datatype Vault = Vault(supply: int, equity: seq<int>, debt: seq<int>) {
    predicate Fits(terms: Terms) {
      supply >= 0 && |equity| == |debt| == |terms.components|
    }

    /** What the equity balance exceeds its position unit by, scaled by PRECISE_UNIT. */
    function EquitySurplus(terms: Terms, i: nat): int
      requires Fits(terms) && i < |terms.components|
    {
      equity[i] * PRECISE_UNIT - terms.components[i].equityUnit * supply
    }

    /** What the debt position unit exceeds the net debt by, scaled by PRECISE_UNIT. */
    function DebtSurplus(terms: Terms, i: nat): int
      requires Fits(terms) && i < |terms.components|
    {
      -terms.components[i].debtUnit * supply - debt[i] * PRECISE_UNIT
    }

    ghost predicate Collateralised(terms: Terms)
      requires Fits(terms)
    {
      forall i :: 0 <= i < |terms.components| ==> EquitySurplus(terms, i) >= 0 && DebtSurplus(terms, i) >= 0
    }
  }

  /** The quantity that changes supply: with the issue fee on top, or with the redeem fee held back. */
  function QuantityNetFees(setQuantity: int, issueFee: int, redeemFee: int, isIssue: bool): int {
    if isIssue then
      PreciseMul(setQuantity, PRECISE_UNIT + issueFee)
    else
      PreciseMul(setQuantity, PRECISE_UNIT - redeemFee)
  }

  function EquityIn(mintQuantity: int, c: Component): int {
    PreciseMulCeil(mintQuantity, c.equityUnit)
  }

  function DebtOut(mintQuantity: int, c: Component): int {
    PreciseMul(mintQuantity, c.debtUnit) * -1
  }

  function EquityOut(redeemQuantity: int, c: Component): int {
    PreciseMul(redeemQuantity, c.equityUnit)
  }

  function DebtIn(redeemQuantity: int, c: Component): int {
    PreciseMulCeil(redeemQuantity, c.debtUnit * -1)
  }

  datatype Operation = Issue(quantity: nat) | Redeem(quantity: nat)

  /** A redeem burns the whole quantity first, so it fails beyond the supply. */
  predicate Succeeds(vault: Vault, op: Operation) {
    op.Issue? || op.quantity <= vault.supply
  }

  /** The vault after a successful operation. */
  function After(terms: Terms, vault: Vault, op: Operation): Vault
    requires vault.Fits(terms)
  {
    var q := QuantityNetFees(op.quantity, terms.issueFee, terms.redeemFee, op.Issue?);
    var cs := terms.components;
    if op.Issue? then
      Vault(vault.supply + q,
            seq(|cs|, i requires 0 <= i < |cs| => vault.equity[i] + EquityIn(q, cs[i])),
            seq(|cs|, i requires 0 <= i < |cs| => vault.debt[i] + DebtOut(q, cs[i])))
    else
      Vault(vault.supply - q,
            seq(|cs|, i requires 0 <= i < |cs| => vault.equity[i] - EquityOut(q, cs[i])),
            seq(|cs|, i requires 0 <= i < |cs| => vault.debt[i] - DebtIn(q, cs[i])))
  }

  function Step(terms: Terms, vault: Vault, op: Operation): Vault
    requires vault.Fits(terms)
  {
    if Succeeds(vault, op) then After(terms, vault, op) else vault
  }

  /** The set on chain: its methods move balances component by component. */
  class DebtIssuanceModule {
    const terms: Terms
    var supply: int
    var equity: seq<int>
    var debt: seq<int>

    ghost predicate Valid()
      reads this
    {
      terms.Valid() && State().Fits(terms)
    }

    ghost function State(): Vault
      reads this
    {
      Vault(supply, equity, debt)
    }

    constructor (terms: Terms, vault: Vault)
      requires terms.Valid() && vault.Fits(terms)
      ensures Valid() && this.terms == terms && State() == vault
    {
      this.terms := terms;
      supply, equity, debt := vault.supply, vault.equity, vault.debt;
    }

    /** Returns, per component, the net amount the minter receives. */
    method Issue(quantity: nat) returns (received: seq<int>)
      requires Valid()
      modifies this
      ensures Valid()
      ensures State() == After(terms, old(State()), Operation.Issue(quantity))
      ensures forall k :: k <= supply - old(supply)
                     <==> k * PRECISE_UNIT <= quantity * (PRECISE_UNIT + terms.issueFee)
      ensures |received| == |terms.components|
      ensures forall i :: 0 <= i < |received| ==>
                            received[i] == old(equity[i] - debt[i]) - (equity[i] - debt[i])
    {
      var mintQuantity := QuantityNetFees(quantity, terms.issueFee, terms.redeemFee, true);
      NetQuantityBounds(terms, Operation.Issue(quantity));
      received := [];
      for i := 0 to |terms.components|
        invariant supply == old(supply)
        invariant |received| == i
        invariant |equity| == |debt| == |terms.components|
        invariant forall j :: 0 <= j < i ==>
                    && equity[j] == old(equity)[j] + EquityIn(mintQuantity, terms.components[j])
                    && debt[j] == old(debt)[j] + DebtOut(mintQuantity, terms.components[j])
                    && received[j] == old(equity)[j] - old(debt)[j] - (equity[j] - debt[j])
        invariant forall j :: i <= j < |equity| ==> equity[j] == old(equity)[j] && debt[j] == old(debt)[j]
      {
        var equityFlow := PreciseMulCeil(mintQuantity, terms.components[i].equityUnit);
        var debtFlow := PreciseMul(mintQuantity, terms.components[i].debtUnit) * -1;
        equity := equity[i := equity[i] + equityFlow];
        debt := debt[i := debt[i] + debtFlow];
        received := received + [debtFlow - equityFlow];
      }
      forall k ensures k <= mintQuantity <==> k * PRECISE_UNIT <= quantity * (PRECISE_UNIT + terms.issueFee) {
        NetQuantityIsLargest(terms, quantity, k);
      }
      supply := supply + mintQuantity;
    }

    method Redeem(quantity: nat) returns (ok: bool, received: seq<int>)
      requires Valid()
      modifies this
      ensures Valid()
      ensures ok == (quantity <= old(supply))
      ensures State() == Step(terms, old(State()), Operation.Redeem(quantity))
      ensures ok ==> forall k :: k <= old(supply) - supply
                            <==> k * PRECISE_UNIT <= quantity * (PRECISE_UNIT - terms.redeemFee)
      ensures |received| == |terms.components|
      ensures forall i :: 0 <= i < |received| ==>
                            received[i] == old(equity[i] - debt[i]) - (equity[i] - debt[i])
    {
      ok := quantity <= supply;
      if !ok {
        received := seq(|terms.components|, _ => 0);
        return;
      }
      var redeemQuantity := QuantityNetFees(quantity, terms.issueFee, terms.redeemFee, false);
      NetQuantityBounds(terms, Operation.Redeem(quantity));
      received := [];
      for i := 0 to |terms.components|
        invariant supply == old(supply)
        invariant |received| == i
        invariant |equity| == |debt| == |terms.components|
        invariant forall j :: 0 <= j < i ==>
                    && equity[j] == old(equity)[j] - EquityOut(redeemQuantity, terms.components[j])
                    && debt[j] == old(debt)[j] - DebtIn(redeemQuantity, terms.components[j])
                    && received[j] == old(equity)[j] - old(debt)[j] - (equity[j] - debt[j])
        invariant forall j :: i <= j < |equity| ==> equity[j] == old(equity)[j] && debt[j] == old(debt)[j]
      {
        var equityFlow := PreciseMul(redeemQuantity, terms.components[i].equityUnit);
        var debtFlow := PreciseMulCeil(redeemQuantity, terms.components[i].debtUnit * -1);
        equity := equity[i := equity[i] - equityFlow];
        debt := debt[i := debt[i] - debtFlow];
        received := received + [equityFlow - debtFlow];
      }
      forall k ensures k <= redeemQuantity <==> k * PRECISE_UNIT <= quantity * (PRECISE_UNIT - terms.redeemFee) {
        NetQuantityIsLargest(terms, quantity, k);
      }
      supply := supply - redeemQuantity;
    }
  }

  // ----- what every operation keeps -----

  /** The net quantities are the greatest within the quantity with the issue fee on top, and with the redeem fee held
      back. */
  lemma NetQuantityIsLargest(terms: Terms, quantity: nat, k: int)
    requires terms.Valid()
    ensures k <= QuantityNetFees(quantity, terms.issueFee, terms.redeemFee, true)
       <==> k * PRECISE_UNIT <= quantity * (PRECISE_UNIT + terms.issueFee)
    ensures k <= QuantityNetFees(quantity, terms.issueFee, terms.redeemFee, false)
       <==> k * PRECISE_UNIT <= quantity * (PRECISE_UNIT - terms.redeemFee)
  {
    FloorGalois(quantity * (PRECISE_UNIT + terms.issueFee), PRECISE_UNIT, k);
    FloorGalois(quantity * (PRECISE_UNIT - terms.redeemFee), PRECISE_UNIT, k);
  }

  lemma NetQuantityBounds(terms: Terms, op: Operation)
    requires terms.Valid()
    ensures var q := QuantityNetFees(op.quantity, terms.issueFee, terms.redeemFee, op.Issue?);
            && (op.Issue? ==> op.quantity <= q)
            && (op.Redeem? ==> 0 <= q <= op.quantity)
  {
  }

  /** The four flows of a component against the exact share of its unit, each rounded toward the set. */
  lemma FlowBounds(q: nat, c: Component)
    requires c.Valid()
    ensures 0 <= EquityIn(q, c) * PRECISE_UNIT - c.equityUnit * q < PRECISE_UNIT
    ensures 0 <= c.equityUnit * q - EquityOut(q, c) * PRECISE_UNIT < PRECISE_UNIT
    ensures 0 <= -c.debtUnit * q - DebtOut(q, c) * PRECISE_UNIT < PRECISE_UNIT
    ensures 0 <= DebtIn(q, c) * PRECISE_UNIT + c.debtUnit * q < PRECISE_UNIT
  {
    RoundedFlows(q, -c.debtUnit);
    MulNegates(c.debtUnit, q);
  }

  lemma RoundedFlows(q: nat, unit: nat)
    ensures 0 <= PreciseMulCeil(q, unit) * PRECISE_UNIT - unit * q < PRECISE_UNIT
    ensures 0 <= unit * q - PreciseMul(q, unit) * PRECISE_UNIT < PRECISE_UNIT
  {
  }

  /** Rounding an inflow down instead of up gives the same amount exactly when the product divides. */
  lemma InflowRoundingsAgreeIff(mintQuantity: nat, c: Component)
    requires c.Valid()
    ensures EquityIn(mintQuantity, c) == PreciseMul(mintQuantity, c.equityUnit)
       <==> mintQuantity * c.equityUnit % PRECISE_UNIT == 0
  {
  }

  /** Each operation adds less than one PRECISE_UNIT to every surplus, and never takes from one. */
  lemma StepNeverTakesSurplus(terms: Terms, vault: Vault, op: Operation, i: nat)
    requires terms.Valid() && vault.Fits(terms) && i < |terms.components|
    ensures var next := Step(terms, vault, op);
            && next.Fits(terms)
            && 0 <= next.EquitySurplus(terms, i) - vault.EquitySurplus(terms, i) < PRECISE_UNIT
            && 0 <= next.DebtSurplus(terms, i) - vault.DebtSurplus(terms, i) < PRECISE_UNIT
  {
    if Succeeds(vault, op) {
      var q := QuantityNetFees(op.quantity, terms.issueFee, terms.redeemFee, op.Issue?);
      NetQuantityBounds(terms, op);
      var c := terms.components[i];
      FlowBounds(q, c);
      var q' := if op.Issue? then q else -q;
      SurplusChange(c.equityUnit, vault.supply, q');
      SurplusChange(-c.debtUnit, vault.supply, q');
      MulNegates(c.debtUnit, q);
    }
  }

  lemma SurplusChange(unit: int, supply: int, q: int)
    ensures unit * (supply + q) == unit * supply + unit * q
    ensures unit * -q == -(unit * q)
  {
  }

  function Run(terms: Terms, vault: Vault, ops: seq<Operation>): Vault
    requires terms.Valid() && vault.Fits(terms)
    decreases |ops|
  {
    if ops == [] then vault else
    StepFits(terms, vault, ops[0]);
    Run(terms, Step(terms, vault, ops[0]), ops[1..])
  }

  lemma StepFits(terms: Terms, vault: Vault, op: Operation)
    requires terms.Valid() && vault.Fits(terms)
    ensures Step(terms, vault, op).Fits(terms)
  {
  }

  /** An operation moves the supply by its net quantity, and not at all where it fails. */
  lemma StepMovesSupply(terms: Terms, vault: Vault, op: Operation, k: int)
    requires terms.Valid() && vault.Fits(terms)
    ensures var next := Step(terms, vault, op);
            match op
            case Issue(quantity) =>
              k <= next.supply - vault.supply <==> k * PRECISE_UNIT <= quantity * (PRECISE_UNIT + terms.issueFee)
            case Redeem(quantity) =>
              if quantity <= vault.supply then
                k <= vault.supply - next.supply
                <==> k * PRECISE_UNIT <= quantity * (PRECISE_UNIT - terms.redeemFee)
              else
                next == vault
  {
    NetQuantityIsLargest(terms, op.quantity, k);
  }

  /** A run is its operations: two runs in turn are one, and a run of one operation is that operation. */
  lemma {:induction false} RunIsItsSteps(terms: Terms, vault: Vault, ops: seq<Operation>, more: seq<Operation>)
    requires terms.Valid() && vault.Fits(terms)
    ensures Run(terms, vault, ops).Fits(terms)
    ensures Run(terms, vault, ops + more) == Run(terms, Run(terms, vault, ops), more)
    ensures |ops| == 1 ==> Run(terms, vault, ops) == Step(terms, vault, ops[0])
    decreases |ops|
  {
    RunFits(terms, vault, ops);
    if ops == [] {
      assert ops + more == more;
    } else {
      StepFits(terms, vault, ops[0]);
      assert (ops + more)[1..] == ops[1..] + more;
      RunIsItsSteps(terms, Step(terms, vault, ops[0]), ops[1..], more);
    }
  }

  /** Over any interleaving of issues and redeems no surplus ever shrinks, and n operations add less than n
      PRECISE_UNITs to it. */
  lemma {:induction false} RunNeverTakesSurplus(terms: Terms, vault: Vault, ops: seq<Operation>, i: nat)
    requires terms.Valid() && vault.Fits(terms) && i < |terms.components|
    ensures var end := Run(terms, vault, ops);
            && end.Fits(terms)
            && 0 <= end.EquitySurplus(terms, i) - vault.EquitySurplus(terms, i) <= |ops| * (PRECISE_UNIT - 1)
            && 0 <= end.DebtSurplus(terms, i) - vault.DebtSurplus(terms, i) <= |ops| * (PRECISE_UNIT - 1)
    decreases |ops|
  {
    if ops != [] {
      StepNeverTakesSurplus(terms, vault, ops[0], i);
      StepFits(terms, vault, ops[0]);
      RunNeverTakesSurplus(terms, Step(terms, vault, ops[0]), ops[1..], i);
    }
  }

  /** A collateralised set stays collateralised, and no balance it pays out of runs dry. */
  lemma RunStaysCollateralised(terms: Terms, vault: Vault, ops: seq<Operation>)
    requires terms.Valid() && vault.Fits(terms) && vault.Collateralised(terms)
    ensures var end := Run(terms, vault, ops);
            && end.Fits(terms) && end.Collateralised(terms)
            && forall i :: 0 <= i < |end.equity| ==> end.equity[i] >= 0
  {
    var end := Run(terms, vault, ops);
    RunFits(terms, vault, ops);
    forall i | 0 <= i < |terms.components|
      ensures end.EquitySurplus(terms, i) >= 0 && end.DebtSurplus(terms, i) >= 0 && end.equity[i] >= 0
    {
      RunNeverTakesSurplus(terms, vault, ops, i);
      MulMono(0, end.supply, terms.components[i].equityUnit);
    }
  }

  lemma {:induction false} RunFits(terms: Terms, vault: Vault, ops: seq<Operation>)
    requires terms.Valid() && vault.Fits(terms)
    ensures Run(terms, vault, ops).Fits(terms)
    decreases |ops|
  {
    if ops != [] {
      StepFits(terms, vault, ops[0]);
      RunFits(terms, Step(terms, vault, ops[0]), ops[1..]);
    }
  }

  /** Callers never profit together: whenever a run of n operations brings the supply back to where it was, no
      equity balance has fallen and no debt has grown, and the callers have lost at most n of each asset to
      rounding. */
  lemma RoundTripNeverProfits(terms: Terms, vault: Vault, ops: seq<Operation>, i: nat)
    requires terms.Valid() && vault.Fits(terms) && i < |terms.components|
    requires Run(terms, vault, ops).supply == vault.supply
    ensures var end := Run(terms, vault, ops);
            && end.Fits(terms)
            && vault.equity[i] <= end.equity[i] <= vault.equity[i] + |ops|
            && vault.debt[i] - |ops| <= end.debt[i] <= vault.debt[i]
  {
    RunNeverTakesSurplus(terms, vault, ops, i);
  }

  /** One caller: redeeming no more than was issued pays out no more equity than came in, and issuing then redeeming
      one net quantity loses the caller between zero and one of each asset. */
  lemma IssueThenRedeemNeverProfits(terms: Terms, issued: nat, redeemed: nat, c: Component)
    requires terms.Valid() && c.Valid() && redeemed <= issued
    ensures var mint := QuantityNetFees(issued, terms.issueFee, terms.redeemFee, true);
            var burn := QuantityNetFees(redeemed, terms.issueFee, terms.redeemFee, false);
            && EquityOut(burn, c) <= EquityIn(mint, c)
            && EquityOut(mint, c) <= EquityIn(mint, c) <= EquityOut(mint, c) + 1
            && DebtOut(mint, c) <= DebtIn(mint, c) <= DebtOut(mint, c) + 1
  {
    var mint := QuantityNetFees(issued, terms.issueFee, terms.redeemFee, true);
    var burn := QuantityNetFees(redeemed, terms.issueFee, terms.redeemFee, false);
    NetQuantityBounds(terms, Operation.Issue(issued));
    NetQuantityBounds(terms, Operation.Redeem(redeemed));
    FlowBounds(mint, c);
    MulMono(burn, mint, c.equityUnit);
  }
}
