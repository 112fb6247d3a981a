/** What issuing and redeeming does to the base position behind each token, and to the quote paid out. */
module SlippageIssuance {
  import opened Wrappers
  import opened Rounding
  import opened MathUtils
  import opened Shares
  import opened PerpV2

  /** A set's supply and its base balance in one market, long or short. */
  datatype Holding = Holding(supply: int, base: int)

  function BaseUnit(holding: Holding): int
    requires holding.supply != 0
  {
    PreciseDiv(holding.base, holding.supply)
  }

  /** Issuing a net quantity buys the base unit for it, redeeming one sells it. */
  function AfterIssue(holding: Holding, quantity: int): Holding
    requires holding.supply != 0
  {
    Holding(holding.supply + quantity, holding.base + ShareOf(holding.base, holding.supply, quantity))
  }

  function AfterRedeem(holding: Holding, quantity: int): Holding
    requires holding.supply != 0
  {
    Holding(holding.supply - quantity, holding.base - ShareOf(holding.base, holding.supply, quantity))
  }

  /** The remainders two roundings drop: of the unit itself, and of the amount traded for a quantity. */
  function UnitDust(holding: Holding): nat
    requires holding.supply > 0
  {
    Abs(holding.base) * PRECISE_UNIT % holding.supply
  }

  function TradeDust(holding: Holding, quantity: nat): nat
    requires holding.supply > 0
  {
    Abs(BaseUnit(holding)) * quantity % PRECISE_UNIT
  }

  /** The base unit is the most of the base behind a token, on the position's side. */
  lemma BaseUnitIsLargest(holding: Holding, k: int)
    requires holding.supply > 0
    ensures k <= Abs(BaseUnit(holding)) <==> k * holding.supply <= Abs(holding.base) * PRECISE_UNIT
    ensures (holding.base >= 0 ==> BaseUnit(holding) >= 0) && (holding.base <= 0 ==> BaseUnit(holding) <= 0)
  {
    PreciseDivSign(holding.base, holding.supply);
    FloorGalois(Abs(holding.base) * PRECISE_UNIT, holding.supply, k);
  }

  /** An issue enlarges a position on its own side. */
  lemma IssueMagnitude(holding: Holding, quantity: nat)
    requires holding.supply > 0
    ensures var next := AfterIssue(holding, quantity);
            && Abs(next.base) == Abs(holding.base) + Abs(BaseUnit(holding)) * quantity / PRECISE_UNIT
            && (holding.base >= 0 ==> next.base >= 0) && (holding.base <= 0 ==> next.base <= 0)
  {
    PreciseDivSign(holding.base, holding.supply);
    PreciseMulSign(BaseUnit(holding), quantity);
  }

  /** A redeem shrinks it, and never carries it past zero. */
  lemma RedeemMagnitude(holding: Holding, quantity: nat)
    requires holding.supply > 0 && quantity <= holding.supply
    ensures var next := AfterRedeem(holding, quantity);
            && Abs(next.base) == Abs(holding.base) - Abs(BaseUnit(holding)) * quantity / PRECISE_UNIT
            && (holding.base >= 0 ==> next.base >= 0) && (holding.base <= 0 ==> next.base <= 0)
  {
    PreciseMulSign(BaseUnit(holding), quantity);
    ShareBounds(holding.base, holding.supply, quantity);
  }

  /** The base unit after issuing: it drops exactly by the dust of the trade that the dust of the unit does not make
      up for. */
  lemma IssueBaseUnitExact(holding: Holding, quantity: nat)
    requires holding.supply > 0
    ensures Abs(BaseUnit(AfterIssue(holding, quantity)))
         == Abs(BaseUnit(holding)) + (UnitDust(holding) - TradeDust(holding, quantity)) / (holding.supply + quantity)
  {
    IssueMagnitude(holding, quantity);
    BaseUnitExact(holding, AfterIssue(holding, quantity), quantity, 1);
  }

  /** The base unit after redeeming: the remaining holders keep both dusts. */
  lemma RedeemBaseUnitExact(holding: Holding, quantity: nat)
    requires quantity < holding.supply
    ensures Abs(BaseUnit(AfterRedeem(holding, quantity)))
         == Abs(BaseUnit(holding)) + (UnitDust(holding) + TradeDust(holding, quantity)) / (holding.supply - quantity)
  {
    RedeemMagnitude(holding, quantity);
    BaseUnitExact(holding, AfterRedeem(holding, quantity), quantity, -1);
  }

  lemma BaseUnitExact(holding: Holding, next: Holding, quantity: nat, sign: int)
    requires holding.supply > 0 && (sign == 1 || sign == -1)
    requires next.supply == holding.supply + sign * quantity > 0
    requires Abs(next.base) == Abs(holding.base) + sign * (Abs(BaseUnit(holding)) * quantity / PRECISE_UNIT)
    ensures Abs(BaseUnit(next))
         == Abs(BaseUnit(holding)) + (UnitDust(holding) - sign * TradeDust(holding, quantity)) / next.supply
  {
    var unit := Abs(BaseUnit(holding));
    PreciseDivSign(holding.base, holding.supply);
    PreciseDivSign(next.base, next.supply);
    DustIdentity(Abs(holding.base), holding.supply, unit, quantity, unit * quantity / PRECISE_UNIT, sign);
    var dust := UnitDust(holding) - sign * TradeDust(holding, quantity);
    ShiftedQuotient(Abs(next.base) * PRECISE_UNIT, next.supply, unit, dust);
  }

  lemma DustIdentity(b: nat, s: nat, unit: nat, q: nat, traded: int, sign: int)
    requires s > 0 && unit == b * PRECISE_UNIT / s && traded == unit * q / PRECISE_UNIT
    requires sign == 1 || sign == -1
    ensures (b + sign * traded) * PRECISE_UNIT
         == unit * (s + sign * q) + (b * PRECISE_UNIT % s - sign * (unit * q % PRECISE_UNIT))
  {
  }

  lemma ShiftedQuotient(x: int, d: int, unit: int, rest: int)
    requires d > 0 && x == unit * d + rest
    ensures x / d == unit + rest / d
  {
    FloorUnique(x, d, unit + rest / d);
  }

  /** The unit stays what it was on an issue exactly when its own dust covers the trade's. */
  lemma IssueKeepsBaseUnitIff(holding: Holding, quantity: nat)
    requires holding.supply > 0
    ensures BaseUnit(AfterIssue(holding, quantity)) == BaseUnit(holding)
       <==> TradeDust(holding, quantity) <= UnitDust(holding)
  {
    IssueBaseUnitExact(holding, quantity);
    IssueMagnitude(holding, quantity);
    UnchangedIff(holding, AfterIssue(holding, quantity), UnitDust(holding) - TradeDust(holding, quantity));
  }

  /** The unit stays what it was on a redeem exactly when both dusts together are too small for the remaining
      supply. */
  lemma RedeemKeepsBaseUnitIff(holding: Holding, quantity: nat)
    requires quantity < holding.supply
    ensures BaseUnit(AfterRedeem(holding, quantity)) == BaseUnit(holding)
       <==> UnitDust(holding) + TradeDust(holding, quantity) < holding.supply - quantity
  {
    RedeemBaseUnitExact(holding, quantity);
    RedeemMagnitude(holding, quantity);
    UnchangedIff(holding, AfterRedeem(holding, quantity), UnitDust(holding) + TradeDust(holding, quantity));
  }

  /** Neither condition always holds: a base unit of one lost to an issue of one, and a third of a base unit that a
      redeem leaves to one remaining part. */
  lemma BaseUnitMoves()
    ensures var holding := Holding(PRECISE_UNIT, 1); BaseUnit(AfterIssue(holding, 1)) != BaseUnit(holding)
    ensures var holding := Holding(3, 1); BaseUnit(AfterRedeem(holding, 2)) != BaseUnit(holding)
  {
  }

  /** Two holdings on one side whose units differ by a floor have one unit exactly when that floor is zero. */
  lemma UnchangedIff(holding: Holding, next: Holding, rest: int)
    requires holding.supply > 0 && next.supply > 0
    requires (holding.base >= 0 ==> next.base >= 0) && (holding.base <= 0 ==> next.base <= 0)
    requires Abs(BaseUnit(next)) == Abs(BaseUnit(holding)) + rest / next.supply
    ensures BaseUnit(next) == BaseUnit(holding) <==> 0 <= rest < next.supply
  {
    PreciseDivSign(holding.base, holding.supply);
    FloorGalois(rest, next.supply, 0);
    FloorGalois(rest, next.supply, 1);
  }

  // ----- runs of redeems -----

  /** Redeeming each quantity in turn; one that would leave no supply fails. */
  function RedeemAll(holding: Holding, quantities: seq<nat>): (h: Holding)
    requires holding.supply > 0
    ensures 0 < h.supply <= holding.supply
    decreases |quantities|
  {
    if quantities == [] then holding
    else if quantities[0] >= holding.supply then RedeemAll(holding, quantities[1..])
    else RedeemAll(AfterRedeem(holding, quantities[0]), quantities[1..])
  }

  /** Over every run of redeems the base behind each remaining token never shrinks, and the position keeps its side
      and never grows. */
  lemma {:induction false} RedeemsNeverThinPosition(holding: Holding, quantities: seq<nat>)
    requires holding.supply > 0
    ensures var end := RedeemAll(holding, quantities);
            && Abs(holding.base) * end.supply <= Abs(end.base) * holding.supply
            && (holding.base >= 0 ==> 0 <= end.base <= holding.base)
            && (holding.base <= 0 ==> holding.base <= end.base <= 0)
    decreases |quantities|
  {
    if quantities == [] {
    } else if quantities[0] >= holding.supply {
      RedeemsNeverThinPosition(holding, quantities[1..]);
    } else {
      var q, next := quantities[0], AfterRedeem(holding, quantities[0]);
      var end := RedeemAll(holding, quantities);
      ShareBounds(holding.base, holding.supply, q);
      var closed := Abs(ShareOf(holding.base, holding.supply, q));
      assert Abs(next.base) == Abs(holding.base) - closed;
      ThinArithmetic(Abs(holding.base), closed, holding.supply, q);
      RedeemsNeverThinPosition(next, quantities[1..]);
      RatioTransitive(Abs(holding.base), holding.supply, Abs(next.base), next.supply, Abs(end.base), end.supply);
    }
  }

  lemma ThinArithmetic(b: int, closed: int, s: int, q: int)
    requires closed * s <= b * q
    ensures b * (s - q) <= (b - closed) * s
  {
  }

  /** Redeeming some quantities and then others is redeeming all of them, and redeeming one sells its share, or
      fails. */
  lemma {:induction false} RedeemAllInTurn(holding: Holding, quantities: seq<nat>, more: seq<nat>)
    requires holding.supply > 0
    ensures RedeemAll(holding, quantities + more) == RedeemAll(RedeemAll(holding, quantities), more)
    ensures |quantities| == 1 ==>
              RedeemAll(holding, quantities)
              == if quantities[0] >= holding.supply then holding else AfterRedeem(holding, quantities[0])
    decreases |quantities|
  {
    if quantities == [] {
      assert quantities + more == more;
    } else {
      assert (quantities + more)[1..] == quantities[1..] + more;
      if quantities[0] >= holding.supply {
        RedeemAllInTurn(holding, quantities[1..], more);
      } else {
        RedeemAllInTurn(AfterRedeem(holding, quantities[0]), quantities[1..], more);
      }
    }
  }

  // ----- runs of issues and redeems -----

  datatype Order = Issue(quantity: nat) | Redeem(quantity: nat)

  /** One order; a redeem that would leave no supply fails. */
  function Step(holding: Holding, order: Order): (h: Holding)
    requires holding.supply > 0
    ensures h.supply > 0
  {
    match order
    case Issue(quantity) => AfterIssue(holding, quantity)
    case Redeem(quantity) => if quantity >= holding.supply then holding else AfterRedeem(holding, quantity)
  }

  function Run(holding: Holding, orders: seq<Order>): (h: Holding)
    requires holding.supply > 0
    ensures h.supply > 0
    decreases |orders|
  {
    if orders == [] then holding else Run(Step(holding, orders[0]), orders[1..])
  }

  predicate SupplyStaysAtLeast(holding: Holding, orders: seq<Order>, least: nat)
    requires holding.supply > 0
    decreases |orders|
  {
    holding.supply >= least && (orders != [] ==> SupplyStaysAtLeast(Step(holding, orders[0]), orders[1..], least))
  }

  /** Each order weighs one unit and its quantity. */
  function Weight(orders: seq<Order>): nat {
    if orders == [] then 0 else PRECISE_UNIT + orders[0].quantity + Weight(orders[1..])
  }

  /** The difference of two bases per token, cross-multiplied. */
  function Drift(from: Holding, to: Holding): int {
    Abs(from.base) * to.supply - Abs(to.base) * from.supply
  }

  /** An issue can thin the base behind each token and a redeem thicken it, by less than the dust of two roundings. */
  lemma StepDrift(holding: Holding, order: Order)
    requires holding.supply > 0
    ensures var next := Step(holding, order);
            && next.supply == (match order
                               case Issue(q) => holding.supply + q
                               case Redeem(q) => if q < holding.supply then holding.supply - q else holding.supply)
            && (if order.Issue? then 0 <= Drift(holding, next) else Drift(holding, next) <= 0)
            && Abs(Drift(holding, next)) * PRECISE_UNIT <= (PRECISE_UNIT + order.quantity) * holding.supply
  {
    var s, b, q := holding.supply, Abs(holding.base), order.quantity;
    var unit := Abs(BaseUnit(holding));
    PreciseDivSign(holding.base, s);
    FloorBounds(b * PRECISE_UNIT, s);
    FloorBounds(unit * q, PRECISE_UNIT);
    var traded := unit * q / PRECISE_UNIT;
    assert traded >= 0 by { FloorGalois(unit * q, PRECISE_UNIT, 0); }
    ShareArithmetic(b, unit, traded, s, q, PRECISE_UNIT);
    if order.Issue? {
      IssueMagnitude(holding, q);
      DriftIdentity(b, s, traded, q);
    } else if q < s {
      RedeemMagnitude(holding, q);
      DriftIdentity(b, s, traded, q);
    }
    DustOfShare(b * q, traded, s, q, PRECISE_UNIT);
  }

  lemma DriftIdentity(b: int, s: int, traded: int, q: int)
    ensures b * (s + q) - (b + traded) * s == b * q - traded * s
    ensures b * (s - q) - (b - traded) * s == -(b * q - traded * s)
  {
  }

  lemma DustOfShare(exact: int, share: int, s: int, q: int, one: int)
    requires (exact - (share + 1) * s) * one < q * s
    ensures (exact - share * s) * one <= (one + q) * s
  {
  }

  /** A run is its orders: two runs in turn are one, and a run of one order is that order. */
  lemma {:induction false} RunIsItsOrders(holding: Holding, orders: seq<Order>, more: seq<Order>)
    requires holding.supply > 0
    ensures Run(holding, orders + more) == Run(Run(holding, orders), more)
    ensures |orders| == 1 ==> Run(holding, orders) == Step(holding, orders[0])
    decreases |orders|
  {
    if orders == [] {
      assert orders + more == more;
    } else {
      assert (orders + more)[1..] == orders[1..] + more;
      RunIsItsOrders(Step(holding, orders[0]), orders[1..], more);
    }
  }

  /** Over every run of issues and redeems, while supply stays at or above some least amount, the base behind each
      token drifts from its start by no more than the weight of the orders over that amount, and the position keeps
      its side. */
  lemma {:induction false} RunDrift(holding: Holding, orders: seq<Order>, least: nat)
    requires holding.supply > 0 && SupplyStaysAtLeast(holding, orders, least)
    ensures var end := Run(holding, orders);
            && Abs(Drift(holding, end)) * PRECISE_UNIT * least <= Weight(orders) * holding.supply * end.supply
            && (holding.base >= 0 ==> end.base >= 0) && (holding.base <= 0 ==> end.base <= 0)
    decreases |orders|
  {
    if orders != [] {
      var order, next, end := orders[0], Step(holding, orders[0]), Run(holding, orders);
      StepDrift(holding, order);
      match order {
        case Issue(q) => IssueMagnitude(holding, q);
        case Redeem(q) => if q < holding.supply { RedeemMagnitude(holding, q); }
      }
      RunDrift(next, orders[1..], least);
      DriftsCompose(holding, next, end, PRECISE_UNIT, least, PRECISE_UNIT + order.quantity, Weight(orders[1..]));
    }
  }

  lemma DriftsCompose(a: Holding, b: Holding, c: Holding, one: nat, least: nat, w1: nat, w2: nat)
    requires a.supply > 0 && b.supply > 0 && c.supply > 0 && b.supply >= least
    requires Abs(Drift(a, b)) * one <= w1 * a.supply
    requires Abs(Drift(b, c)) * one * least <= w2 * b.supply * c.supply
    ensures Abs(Drift(a, c)) * one * least <= (w1 + w2) * a.supply * c.supply
  {
    var x, y, z := Abs(Drift(a, b)), Abs(Drift(b, c)), Abs(Drift(a, c));
    DriftTriangle(Abs(a.base), a.supply, Abs(b.base), b.supply, Abs(c.base), c.supply);
    DriftArithmetic(x, y, z, a.supply, b.supply, c.supply, one, least, w1, w2);
  }

  lemma DriftTriangle(p: nat, s: nat, q: nat, t: nat, r: nat, u: nat)
    ensures Abs(p * u - r * s) * t <= Abs(p * t - q * s) * u + Abs(q * u - r * t) * s
  {
    var x, y, z := p * t - q * s, q * u - r * t, p * u - r * s;
    TriangleIdentity(p, s, q, t, r, u);
    AbsMul(z, t);
    AbsMul(x, u);
    AbsMul(y, s);
  }

  lemma TriangleIdentity(p: int, s: int, q: int, t: int, r: int, u: int)
    ensures (p * u - r * s) * t == (p * t - q * s) * u + (q * u - r * t) * s
  {
  }

  lemma DriftArithmetic(x: nat, y: nat, z: nat, s: nat, t: nat, u: nat, one: nat, least: nat, w1: nat, w2: nat)
    requires t > 0 && least <= t && z * t <= x * u + y * s
    requires x * one <= w1 * s && y * one * least <= w2 * t * u
    ensures z * one * least <= (w1 + w2) * s * u
  {
    var scale := one * least;
    assert x * u * scale <= w1 * s * u * t by {
      MulMono(x * one, w1 * s, least * u);
      MulMono(least, t, w1 * s * u);
      DriftProducts(x, u, one, least, w1, s, t);
    }
    assert y * s * scale <= w2 * t * u * s by {
      MulMono(y * one * least, w2 * t * u, s);
    }
    MulMono(z * t, x * u + y * s, scale);
    MulDistributes(x * u, y * s, scale);
    DriftCancel(z, t, scale, w1, w2, s, u);
    MulCancel(z * scale, (w1 + w2) * s * u, t);
  }

  lemma DriftProducts(x: int, u: int, one: int, least: int, w1: int, s: int, t: int)
    ensures x * one * (least * u) == x * u * (one * least)
    ensures w1 * s * (least * u) == least * (w1 * s * u) && t * (w1 * s * u) == w1 * s * u * t
  {
  }

  lemma DriftCancel(z: int, t: int, scale: int, w1: int, w2: int, s: int, u: int)
    ensures z * t * scale == z * scale * t
    ensures (w1 + w2) * s * u * t == w1 * s * u * t + w2 * t * u * s
  {
  }

  // ----- the quote paid out on a redeem -----

  /** The transfer after its conversion to a unit per token and back to the quantity. */
  function FeeAdjustedTransferOut(transferOut: int, quantity: int): int
    requires quantity != 0
  {
    PreciseMul(quantity, PreciseDiv(transferOut, quantity))
  }

  /** The conversion loses exactly the remainder of the unit per token, in whole units rounded up. */
  lemma FeeAdjustedTransferExact(transferOut: nat, quantity: nat)
    requires quantity > 0
    ensures FeeAdjustedTransferOut(transferOut, quantity)
         == transferOut - CeilDiv(transferOut * PRECISE_UNIT % quantity, PRECISE_UNIT)
  {
    var unit, r := transferOut * PRECISE_UNIT / quantity, transferOut * PRECISE_UNIT % quantity;
    DivModIdentity(transferOut * PRECISE_UNIT, quantity);
    FloorGalois(transferOut * PRECISE_UNIT, quantity, 0);
    CeilBounds(r, PRECISE_UNIT);
    FloorUnique(quantity * unit, PRECISE_UNIT, transferOut - CeilDiv(r, PRECISE_UNIT));
  }

  /** The conversion never pays more than the transfer, and pays less by under one plus quantity / PRECISE_UNIT. */
  lemma FeeAdjustedTransferBounds(transferOut: nat, quantity: nat)
    requires quantity > 0
    ensures 0 <= FeeAdjustedTransferOut(transferOut, quantity) <= transferOut
    ensures (transferOut - FeeAdjustedTransferOut(transferOut, quantity) - 1) * PRECISE_UNIT < quantity
  {
  }

  /** The part of a position's open notional that closing a unit for a quantity releases. */
  function Released(unit: UnitPosition, position: NotionalPosition, quantity: int): int
    requires position.baseBalance != 0
  {
    PreciseMul(position.quoteBalance, PreciseDiv(PreciseMul(unit.baseUnit, quantity), position.baseBalance))
  }

  /** For any signs, a unit releases no more than the part of the notional its traded base is of the position's, and
      no less but for three roundings, on the side the signs make together. */
  lemma ReleasedIsShare(unit: UnitPosition, position: NotionalPosition, quantity: int)
    requires position.baseBalance != 0
    ensures var released, open := Released(unit, position, quantity), Abs(position.quoteBalance);
            var held, traded := Abs(position.baseBalance), Abs(unit.baseUnit) * Abs(quantity);
            && 0 <= open * traded - Abs(released) * (PRECISE_UNIT * held)
                 <= open * (PRECISE_UNIT + held) + PRECISE_UNIT * held
            && (released != 0 ==>
                  (released < 0)
                  == (((position.quoteBalance < 0) != (position.baseBalance < 0))
                      != ((unit.baseUnit < 0) != (quantity < 0))))
  {
    var notional := PreciseMul(unit.baseUnit, quantity);
    var ratio := PreciseDiv(notional, position.baseBalance);
    var released := PreciseMul(position.quoteBalance, ratio);
    ProductOfSigns(unit.baseUnit, quantity);
    QuotientOfSigns(notional, position.baseBalance);
    ProductOfSigns(position.quoteBalance, ratio);
    ThreeRoundings(Abs(unit.baseUnit) * Abs(quantity), Abs(notional), Abs(ratio), Abs(position.baseBalance),
                   Abs(position.quoteBalance), Abs(released), PRECISE_UNIT);
  }

  /** In magnitude, the traded base is a floor, the ratio a floor of it to the balance, and the released notional a
      floor at that ratio. */
  lemma ReleasedIsFloors(unit: UnitPosition, position: NotionalPosition, quantity: int, k: int)
    requires position.baseBalance != 0
    ensures var open, held := Abs(position.quoteBalance), Abs(position.baseBalance);
            var traded := Abs(unit.baseUnit) * Abs(quantity) / PRECISE_UNIT;
            k <= Abs(Released(unit, position, quantity))
            <==> k * PRECISE_UNIT <= open * (traded * PRECISE_UNIT / held)
  {
    var notional := PreciseMul(unit.baseUnit, quantity);
    var ratio := PreciseDiv(notional, position.baseBalance);
    ProductOfSigns(unit.baseUnit, quantity);
    FloorUnique(Abs(unit.baseUnit) * Abs(quantity), PRECISE_UNIT, Abs(notional));
    QuotientOfSigns(notional, position.baseBalance);
    FloorUnique(Abs(notional) * PRECISE_UNIT, Abs(position.baseBalance), Abs(ratio));
    ProductOfSigns(position.quoteBalance, ratio);
    FloorUnique(Abs(position.quoteBalance) * Abs(ratio), PRECISE_UNIT, Abs(PreciseMul(position.quoteBalance, ratio)));
    FloorGalois(Abs(position.quoteBalance) * Abs(ratio), PRECISE_UNIT, k);
  }

  lemma ProductOfSigns(x: int, y: int)
    ensures var p := PreciseMul(x, y);
            && Abs(p) * PRECISE_UNIT <= Abs(x) * Abs(y) < (Abs(p) + 1) * PRECISE_UNIT
            && (p != 0 ==> x != 0 && y != 0 && (p < 0) == ((x < 0) != (y < 0)))
  {
    AbsMul(x, y);
    TruncMagnitude(x * y, PRECISE_UNIT);
    FloorBounds(Abs(x) * Abs(y), PRECISE_UNIT);
  }

  lemma QuotientOfSigns(x: int, b: int)
    requires b != 0
    ensures var p := PreciseDiv(x, b);
            && Abs(p) * Abs(b) <= Abs(x) * PRECISE_UNIT < (Abs(p) + 1) * Abs(b)
            && (p != 0 ==> x != 0 && (p < 0) == ((x < 0) != (b < 0)))
  {
    TruncMagnitude(x * PRECISE_UNIT, b);
    FloorBounds(Abs(x) * PRECISE_UNIT, Abs(b));
  }

  /** The traded base, its part of the position and the notional it releases, each rounded down. */
  lemma ThreeRoundings(traded: nat, notional: nat, ratio: nat, held: nat, open: nat, released: nat, one: nat)
    requires one > 0 && held > 0
    requires notional * one <= traded < (notional + 1) * one
    requires ratio * held <= notional * one < (ratio + 1) * held
    requires released * one <= open * ratio < (released + 1) * one
    ensures 0 <= open * traded - released * (one * held) <= open * (one + held) + one * held
  {
    MulMono(notional * one, traded, open);
    MulMono(traded, (notional + 1) * one, open);
    MulMono(ratio * held, notional * one, open);
    MulMono(notional * one, (ratio + 1) * held, open);
    MulMono(released * one, open * ratio, held);
    MulMono(open * ratio, (released + 1) * one, held);
    RoundingProducts(notional, ratio, held, open, released, one);
  }

  lemma RoundingProducts(notional: int, ratio: int, held: int, open: int, released: int, one: int)
    ensures (notional + 1) * one * open == notional * one * open + one * open
    ensures ratio * held * open == open * ratio * held && (ratio + 1) * held * open == open * ratio * held + open * held
    ensures released * one * held == released * (one * held)
    ensures (released + 1) * one * held == released * (one * held) + one * held
    ensures open * (one + held) == one * open + open * held
  {
  }

  /** What closing one unit for a quantity realises in full precision. Every unit is closed against the first
      position. */
  function UnitRealized(unit: UnitPosition, first: NotionalPosition, quantity: int, quote: Quoter): int
    requires first.baseBalance != 0
  {
    Released(unit, first, quantity) + quote(unit.baseToken, PreciseMul(unit.baseUnit, quantity), false)
  }

  function PreciseRealized(units: seq<UnitPosition>, first: NotionalPosition, quantity: int, quote: Quoter): int
    requires first.baseBalance != 0
  {
    if units == [] then 0 else
    PreciseRealized(units[..|units| - 1], first, quantity, quote)
    + UnitRealized(units[|units| - 1], first, quantity, quote)
  }

  /** The same with each unit's result cut to the quote token's decimals before it is added. */
  function RealizedUSDC(units: seq<UnitPosition>, first: NotionalPosition, quantity: int, quote: Quoter): int
    requires first.baseBalance != 0
  {
    if units == [] then 0 else
    RealizedUSDC(units[..|units| - 1], first, quantity, quote)
    + ToUSDCDecimals(UnitRealized(units[|units| - 1], first, quantity, quote))
  }

  /** Only the quotes for selling each unit's signed amount matter, and a quoter at a bid price adds what that
      amount is worth to what the unit releases. */
  lemma {:induction false} RealizedQuotes(units: seq<UnitPosition>, first: NotionalPosition, quantity: int,
                                          quote: Quoter, other: Quoter)
    requires first.baseBalance != 0
    requires forall i :: 0 <= i < |units| ==>
               var notional := PreciseMul(units[i].baseUnit, quantity);
               quote(units[i].baseToken, notional, false) == other(units[i].baseToken, notional, false)
    ensures RealizedUSDC(units, first, quantity, quote) == RealizedUSDC(units, first, quantity, other)
  {
    if units != [] {
      var rest := units[..|units| - 1];
      assert forall i :: 0 <= i < |rest| ==> rest[i] == units[i];
      RealizedQuotes(rest, first, quantity, quote, other);
    }
  }

  lemma RealizedAtBid(unit: UnitPosition, first: NotionalPosition, quantity: int, bid: SpotPrice, ask: SpotPrice)
    requires first.baseBalance != 0
    ensures var quoted := UnitRealized(unit, first, quantity, BidAsk(bid, ask)) - Released(unit, first, quantity);
            var traded, price := Abs(unit.baseUnit) * Abs(quantity), bid(unit.baseToken);
            && 0 <= traded * price - Abs(quoted) * PRECISE_UNIT * PRECISE_UNIT <= PRECISE_UNIT * (PRECISE_UNIT + price)
            && (quoted != 0 ==> (quoted < 0) == ((unit.baseUnit < 0) != (quantity < 0)))
  {
    var notional, price := PreciseMul(unit.baseUnit, quantity), bid(unit.baseToken);
    ProductOfSigns(unit.baseUnit, quantity);
    ProductOfSigns(notional, price);
    TwoProducts(Abs(unit.baseUnit), Abs(quantity), price);
    FloorUnique(Abs(unit.baseUnit) * Abs(quantity), PRECISE_UNIT, Abs(notional));
    MulMono(0, Abs(notional), price);
    FloorUnique(Abs(notional) * price, PRECISE_UNIT, Abs(PreciseMul(notional, price)));
  }

  /** Rounding every unit's result on its own moves the total by less than one per unit. */
  lemma {:induction false} RealizedUSDCBounds(units: seq<UnitPosition>, first: NotionalPosition, quantity: int,
                                              quote: Quoter)
    requires first.baseBalance != 0
    ensures var precise := PreciseRealized(units, first, quantity, quote);
            Abs(RealizedUSDC(units, first, quantity, quote) * USDC_SCALE - precise) <= |units| * (USDC_SCALE - 1)
  {
    if units != [] {
      var last, rest := units[|units| - 1], units[..|units| - 1];
      RealizedUSDCBounds(rest, first, quantity, quote);
      TruncErrorsAdd(RealizedUSDC(rest, first, quantity, quote), UnitRealized(last, first, quantity, quote),
                     PreciseRealized(rest, first, quantity, quote), |rest|);
    }
  }

  lemma TruncErrorsAdd(total: int, x: int, precise: int, i: nat)
    requires Abs(total * USDC_SCALE - precise) <= i * (USDC_SCALE - 1)
    ensures Abs((total + ToUSDCDecimals(x)) * USDC_SCALE - (precise + x)) <= (i + 1) * (USDC_SCALE - 1)
  {
  }

  /** The realised total with every unit closed against the position of its own market. */
  function RealizedPerMarket(units: seq<UnitPosition>, notionals: seq<NotionalPosition>, quantity: int,
                             quote: Quoter): int
    requires |units| <= |notionals| && AllOpen(notionals)
  {
    if units == [] then 0 else
    var i := |units| - 1;
    RealizedPerMarket(units[..i], notionals, quantity, quote)
    + ToUSDCDecimals(UnitRealized(units[i], notionals[i], quantity, quote))
  }

  predicate ReleaseAlike(units: seq<UnitPosition>, notionals: seq<NotionalPosition>, quantity: int)
    requires 0 < |notionals| && |units| <= |notionals| && AllOpen(notionals)
  {
    forall i :: 0 <= i < |units| ==>
                  Released(units[i], notionals[0], quantity) == Released(units[i], notionals[i], quantity)
  }

  predicate DistinctMarkets(units: seq<UnitPosition>) {
    forall i, j :: 0 <= i < j < |units| ==> units[i].baseToken != units[j].baseToken
  }

  /** Closing every unit against the first position gives the total of the markets at all quotes exactly when each
      unit's market releases what the first position would release for it. */
  lemma FirstPositionIff(units: seq<UnitPosition>, notionals: seq<NotionalPosition>, quantity: int)
    requires 0 < |notionals| && |units| <= |notionals| && AllOpen(notionals) && DistinctMarkets(units)
    ensures (forall quote: Quoter ::
               RealizedUSDC(units, notionals[0], quantity, quote)
               == RealizedPerMarket(units, notionals, quantity, quote))
       <==> ReleaseAlike(units, notionals, quantity)
  {
    if ReleaseAlike(units, notionals, quantity) {
      forall quote: Quoter
        ensures RealizedUSDC(units, notionals[0], quantity, quote)
             == RealizedPerMarket(units, notionals, quantity, quote)
      {
        AlikeSuffices(units, notionals, quantity, quote);
      }
    } else {
      var i :| 0 <= i < |units|
               && Released(units[i], notionals[0], quantity) != Released(units[i], notionals[i], quantity);
      var _ := QuoteTellsApart(units, notionals, quantity, i);
    }
  }

  lemma {:induction false} AlikeSuffices(units: seq<UnitPosition>, notionals: seq<NotionalPosition>, quantity: int,
                                         quote: Quoter)
    requires 0 < |notionals| && |units| <= |notionals| && AllOpen(notionals)
    requires ReleaseAlike(units, notionals, quantity)
    ensures RealizedUSDC(units, notionals[0], quantity, quote) == RealizedPerMarket(units, notionals, quantity, quote)
  {
    if units != [] { AlikeSuffices(units[..|units| - 1], notionals, quantity, quote); }
  }

  /** In a single market, and wherever all positions have the first one's balances, the two totals agree. */
  lemma FirstPositionSuffices(units: seq<UnitPosition>, notionals: seq<NotionalPosition>, quantity: int, quote: Quoter)
    requires 0 < |notionals| && |units| <= |notionals| && AllOpen(notionals)
    requires forall i :: 0 <= i < |units| ==>
               && notionals[i].baseBalance == notionals[0].baseBalance
               && notionals[i].quoteBalance == notionals[0].quoteBalance
    ensures RealizedUSDC(units, notionals[0], quantity, quote) == RealizedPerMarket(units, notionals, quantity, quote)
  {
    AlikeSuffices(units, notionals, quantity, quote);
  }

  /** Quotes of zero at every token but one. */
  function QuoteAt(token: int, amount: int): Quoter {
    (baseToken, quantity, buy) => if baseToken == token then amount else 0
  }

  /** A market that releases something else shows at one of two quotes for it. */
  lemma QuoteTellsApart(units: seq<UnitPosition>, notionals: seq<NotionalPosition>, quantity: int, i: nat)
    returns (quote: Quoter)
    requires 0 < |notionals| && |units| <= |notionals| && AllOpen(notionals) && DistinctMarkets(units)
    requires i < |units| && Released(units[i], notionals[0], quantity) != Released(units[i], notionals[i], quantity)
    ensures RealizedUSDC(units, notionals[0], quantity, quote) != RealizedPerMarket(units, notionals, quantity, quote)
  {
    var a, b := Released(units[i], notionals[0], quantity), Released(units[i], notionals[i], quantity);
    var x, y := CutsDiffer(a, b);
    var firsts := seq(|units|, _ => notionals[0]);
    var token := units[i].baseToken;
    forall amount
      ensures RealizedUSDC(units, notionals[0], quantity, QuoteAt(token, amount))
           == RealizedPerMarket(units, firsts, quantity, QuoteAt(token, 0)) - ToUSDCDecimals(a)
              + ToUSDCDecimals(a + amount)
      ensures RealizedPerMarket(units, notionals, quantity, QuoteAt(token, amount))
           == RealizedPerMarket(units, notionals, quantity, QuoteAt(token, 0)) - ToUSDCDecimals(b)
              + ToUSDCDecimals(b + amount)
    {
      FirstAsMarkets(units, notionals[0], firsts, quantity, QuoteAt(token, amount));
      OneQuoteMoves(units, firsts, quantity, i, amount);
      OneQuoteMoves(units, notionals, quantity, i, amount);
    }
    quote := QuoteAt(token, x);
    if RealizedUSDC(units, notionals[0], quantity, quote) == RealizedPerMarket(units, notionals, quantity, quote) {
      quote := QuoteAt(token, y);
    }
  }

  lemma {:induction false} FirstAsMarkets(units: seq<UnitPosition>, first: NotionalPosition,
                                          firsts: seq<NotionalPosition>, quantity: int, quote: Quoter)
    requires first.baseBalance != 0 && |units| <= |firsts|
    requires forall i :: 0 <= i < |firsts| ==> firsts[i] == first
    ensures RealizedUSDC(units, first, quantity, quote) == RealizedPerMarket(units, firsts, quantity, quote)
  {
    if units != [] { FirstAsMarkets(units[..|units| - 1], first, firsts, quantity, quote); }
  }

  lemma {:induction false} OneQuoteMoves(units: seq<UnitPosition>, notionals: seq<NotionalPosition>, quantity: int,
                                         i: nat, amount: int)
    requires |units| <= |notionals| && AllOpen(notionals) && DistinctMarkets(units) && i < |units|
    ensures var token, released := units[i].baseToken, Released(units[i], notionals[i], quantity);
            RealizedPerMarket(units, notionals, quantity, QuoteAt(token, amount))
            == RealizedPerMarket(units, notionals, quantity, QuoteAt(token, 0)) - ToUSDCDecimals(released)
               + ToUSDCDecimals(released + amount)
  {
    var rest := units[..|units| - 1];
    if i < |rest| {
      OneQuoteMoves(rest, notionals, quantity, i, amount);
    } else {
      OtherQuotesSame(rest, notionals, quantity, units[i].baseToken, amount);
    }
  }

  lemma {:induction false} OtherQuotesSame(units: seq<UnitPosition>, notionals: seq<NotionalPosition>, quantity: int,
                                           token: int, amount: int)
    requires |units| <= |notionals| && AllOpen(notionals)
    requires forall i :: 0 <= i < |units| ==> units[i].baseToken != token
    ensures RealizedPerMarket(units, notionals, quantity, QuoteAt(token, amount))
         == RealizedPerMarket(units, notionals, quantity, QuoteAt(token, 0))
  {
    if units != [] { OtherQuotesSame(units[..|units| - 1], notionals, quantity, token, amount); }
  }

  /** Two numbers cut to the quote token's decimals differ by one amount just above a step and by another around
      zero, where two steps are one. */
  lemma CutsDiffer(a: int, b: int) returns (x: int, y: int)
    requires a != b
    ensures ToUSDCDecimals(a + x) - ToUSDCDecimals(b + x) != ToUSDCDecimals(a + y) - ToUSDCDecimals(b + y)
  {
    var least := if a < b then a else b;
    x, y := USDC_SCALE - 1 - least, 1 - USDC_SCALE - least;
  }

  function NoQuote(baseToken: int, quantity: int, buy: bool): int {
    0
  }

  /** Two markets of one base token each, opened at ten and at twenty: the loop realises both at ten. */
  lemma FirstPositionMisprices()
    ensures var units := [UnitPosition(0, PRECISE_UNIT), UnitPosition(1, PRECISE_UNIT)];
            var first := NotionalPosition(0, PRECISE_UNIT, -10 * PRECISE_UNIT);
            var second := NotionalPosition(1, PRECISE_UNIT, -20 * PRECISE_UNIT);
            && RealizedUSDC(units, first, PRECISE_UNIT, NoQuote) == -20_000_000
            && RealizedPerMarket(units, [first, second], PRECISE_UNIT, NoQuote) == -30_000_000
  {
    var units := [UnitPosition(0, PRECISE_UNIT), UnitPosition(1, PRECISE_UNIT)];
    var first := NotionalPosition(0, PRECISE_UNIT, -10 * PRECISE_UNIT);
    var second := NotionalPosition(1, PRECISE_UNIT, -20 * PRECISE_UNIT);
    assert units[..|units| - 1] == [units[0]] && [units[0]][..0] == [];
    assert ToUSDCDecimals(UnitRealized(units[1], first, PRECISE_UNIT, NoQuote)) == -10_000_000;
    assert RealizedUSDC([units[0]], first, PRECISE_UNIT, NoQuote) == -10_000_000;
    assert RealizedPerMarket([units[0]], [first, second], PRECISE_UNIT, NoQuote) == -10_000_000;
  }

  method CalculateRedemptionData(units: seq<UnitPosition>, notionals: seq<NotionalPosition>,
                                 redeemQuantityNetFees: int, usdcTransferOutQuantity: int, quote: Quoter)
    returns (data: Option<(int, int)>)
    ensures data == None <==>
            redeemQuantityNetFees == 0 || (units != [] && (notionals == [] || notionals[0].baseBalance == 0))
    ensures data.Some? ==> data.value.0 == FeeAdjustedTransferOut(usdcTransferOutQuantity, redeemQuantityNetFees)
    ensures data.Some? && units == [] ==> data.value.1 == 0
    ensures data.Some? && units != [] ==>
              data.value.1 == RealizedUSDC(units, notionals[0], redeemQuantityNetFees, quote)
  {
    if redeemQuantityNetFees == 0 {
      return None;
    }
    var externalPositionUnit := PreciseDiv(usdcTransferOutQuantity, redeemQuantityNetFees);
    var feeAdjustedTransferOutUSDC := PreciseMul(redeemQuantityNetFees, externalPositionUnit);
    var realizedPnlUSDC := 0;
    for i := 0 to |units|
      invariant i > 0 ==> notionals != [] && notionals[0].baseBalance != 0
      invariant realizedPnlUSDC ==
                if i == 0 then 0 else RealizedUSDC(units[..i], notionals[0], redeemQuantityNetFees, quote)
    {
      if notionals == [] || notionals[0].baseBalance == 0 {
        return None;
      }
      var baseTradeQuantityNotional := PreciseMul(units[i].baseUnit, redeemQuantityNetFees);
      var deltaQuote := quote(units[i].baseToken, baseTradeQuantityNotional, false);
      var closeRatio := PreciseDiv(baseTradeQuantityNotional, notionals[0].baseBalance);
      var reducedOpenNotional := PreciseMul(notionals[0].quoteBalance, closeRatio);
      realizedPnlUSDC := realizedPnlUSDC + ToUSDCDecimals(reducedOpenNotional + deltaQuote);
      assert units[..i + 1][..i] == units[..i];
    }
    assert units[..|units|] == units;
    data := Some((feeAdjustedTransferOutUSDC, realizedPnlUSDC));
  }
}
