/** Bids in a rebalance auction: how much of a component may change hands, and what that does to its position unit. */
module AuctionRebalance {
  import opened Wrappers
  import opened Rounding
  import opened MathUtils
  import opened Shares

  /** One component's auction: the set's supply and position multiplier, the component's normalized target unit, and
      the protocol fee. */
  datatype Terms = Terms(supply: nat, multiplier: nat, targetUnit: nat, protocolFee: nat) {
    predicate Valid() {
      supply > 0 && multiplier > 0 && protocolFee < PRECISE_UNIT
    }

    function RealUnit(virtualUnit: nat): nat {
      PreciseMul(virtualUnit, multiplier)
    }

    /** The conversion reverts when a unit would be read back as none. */
    function VirtualUnit(realUnit: nat): Option<nat>
      requires Valid()
    {
      var virtualUnit := PreciseDiv(realUnit, multiplier);
      if realUnit > 0 && (virtualUnit == 0 || RealUnit(virtualUnit) == 0) then None else Some(virtualUnit)
    }

    /** What a unit is read back as. */
    function Stored(realUnit: nat): nat
      requires Valid()
    {
      RealUnit(PreciseDiv(realUnit, multiplier))
    }

    function TargetNotional(): int {
      PreciseMulCeil(supply, targetUnit)
    }

    function CurrentNotional(unit: nat): int {
      PreciseMul(supply, unit)
    }

    predicate IsSell(unit: nat) {
      TargetNotional() < CurrentNotional(unit)
    }

    /** The most a bid may take or bring; bringing allows for the fee on top. */
    function AuctionQuantity(unit: nat): int
      requires Valid()
    {
      if IsSell(unit) then
        CurrentNotional(unit) - TargetNotional()
      else
        PreciseDiv(TargetNotional() - CurrentNotional(unit), PRECISE_UNIT - protocolFee)
    }
  }

  /** The component's stored position unit and the set's balance of it. */
  datatype Holding = Holding(virtualUnit: nat, balance: nat) {
    function Unit(terms: Terms): nat {
      terms.RealUnit(virtualUnit)
    }

    /** The set holds what its position unit stands for. */
    predicate Backed(terms: Terms) {
      PreciseMul(Unit(terms), terms.supply) <= balance
    }
  }

  /** What the balance gains in a bid: less when selling, and the quantity without its fee when buying. */
  function NetReceived(terms: Terms, unit: nat, quantity: int): int {
    if terms.IsSell(unit) then -quantity else quantity - PreciseMul(quantity, terms.protocolFee)
  }

  /** The real unit after a transfer. The call reverts on a balance that does not cover the transfer, and on one
      that did not cover the position, unless the transfer leaves nothing. What the balance holds beyond the
      position is not picked up by the new unit. */
  function UnitAfterTransfer(supply: nat, unit: nat, balance: nat, received: int): (newUnit: Option<nat>)
    requires supply > 0
    ensures newUnit.Some? ==> balance + received >= 0
  {
    var airdropped := balance - PreciseMul(unit, supply);
    var after := balance + received;
    if after < 0 then None
    else if after == 0 then Some(0)
    else if airdropped < 0 || after < airdropped then None
    else Some(PreciseDiv(after - airdropped, supply))
  }

  /** One bid. It reverts on a unit at its target, on a quantity beyond the auction, and on a new unit that cannot be
      stored. */
  function AfterBid(terms: Terms, holding: Holding, quantity: nat): Option<Holding>
    requires terms.Valid()
  {
    var unit := holding.Unit(terms);
    if unit == terms.targetUnit || quantity > terms.AuctionQuantity(unit) then None else
    var received := NetReceived(terms, unit, quantity);
    match UnitAfterTransfer(terms.supply, unit, holding.balance, received)
    case None => None
    case Some(newUnit) =>
      match terms.VirtualUnit(newUnit)
      case None => None
      case Some(virtualUnit) => Some(Holding(virtualUnit, holding.balance + received))
  }

  /** The auction on chain, for one component. */
  class Auction {
    const terms: Terms
    var virtualUnit: nat
    var balance: nat

    function Contents(): Holding
      reads this
    {
      Holding(virtualUnit, balance)
    }

    constructor (terms: Terms, holding: Holding)
      ensures this.terms == terms && Contents() == holding
    {
      this.terms := terms;
      virtualUnit, balance := holding.virtualUnit, holding.balance;
    }

    /** The set's own edit of the position. */
    method EditUnit(realUnit: nat) returns (ok: bool)
      requires terms.Valid()
      modifies this`virtualUnit
      ensures match terms.VirtualUnit(realUnit)
              case None => !ok && virtualUnit == old(virtualUnit)
              case Some(v) => ok && virtualUnit == v
    {
      var newVirtualUnit := PreciseDiv(realUnit, terms.multiplier);
      if realUnit > 0 && (newVirtualUnit == 0 || terms.RealUnit(newVirtualUnit) == 0) {
        return false;
      }
      virtualUnit := newVirtualUnit;
      ok := true;
    }

    /** The position's edit after a transfer. */
    method EditPosition(preBalance: nat, postBalance: nat) returns (ok: bool)
      requires terms.Valid()
      modifies this`virtualUnit
      ensures match UnitAfterTransfer(terms.supply, old(Contents().Unit(terms)), preBalance, postBalance - preBalance)
              case None => !ok && virtualUnit == old(virtualUnit)
              case Some(newUnit) =>
                match terms.VirtualUnit(newUnit)
                case None => !ok && virtualUnit == old(virtualUnit)
                case Some(v) => ok && virtualUnit == v
    {
      var newTokenUnit := 0;
      if postBalance > 0 {
        var airdroppedAmount := preBalance - PreciseMul(terms.RealUnit(virtualUnit), terms.supply);
        if airdroppedAmount < 0 || postBalance < airdroppedAmount {
          return false;
        }
        newTokenUnit := PreciseDiv(postBalance - airdroppedAmount, terms.supply);
      }
      ok := EditUnit(newTokenUnit);
    }

    /** A bid that goes through moves the balance by what was received, keeps it covering the unit, and leaves the
        unit between where it was and the target but for what two roundings lose. */
    method Bid(quantity: nat) returns (ok: bool)
      requires terms.Valid()
      modifies this
      ensures match AfterBid(terms, old(Contents()), quantity)
              case None => !ok && Contents() == old(Contents())
              case Some(next) => ok && Contents() == next
      ensures ok && old(Contents().Backed(terms)) ==> BidKept(terms, old(Contents()), Contents(), quantity)
    {
      if Contents().Backed(terms) && AfterBid(terms, Contents(), quantity).Some? {
        BidKeepsHolding(terms, Contents(), quantity);
      }
      var unit := terms.RealUnit(virtualUnit);
      if unit == terms.targetUnit || quantity > terms.AuctionQuantity(unit) {
        return false;
      }
      var preBidBalance: int := balance;
      var postBidBalance := preBidBalance - quantity;
      if !terms.IsSell(unit) {
        postBidBalance := preBidBalance + quantity;
        postBidBalance := postBidBalance - PreciseMul(postBidBalance - preBidBalance, terms.protocolFee);
      }
      assert postBidBalance == balance + NetReceived(terms, unit, quantity);
      if postBidBalance < 0 {
        return false;
      }
      ok := EditPosition(preBidBalance, postBidBalance);
      if ok { balance := postBidBalance; }
    }
  }

  // ----- the auction's quantities -----

  /** The notionals are the units' shares of the supply, the target's rounded up and the current one down. A sale
      offers their difference, a purchase the most that leaves the shortfall after the fee, and the fee is rounded
      down. */
  lemma AuctionQuantities(terms: Terms, unit: nat, quantity: nat, k: int)
    requires terms.Valid()
    ensures terms.TargetNotional() <= k <==> terms.supply * terms.targetUnit <= k * PRECISE_UNIT
    ensures k <= terms.CurrentNotional(unit) <==> k * PRECISE_UNIT <= terms.supply * unit
    ensures terms.IsSell(unit) ==>
              && terms.AuctionQuantity(unit) == terms.CurrentNotional(unit) - terms.TargetNotional() > 0
              && NetReceived(terms, unit, quantity) == 0 - quantity
    ensures !terms.IsSell(unit) ==>
              && (k <= terms.AuctionQuantity(unit) <==>
                  k * (PRECISE_UNIT - terms.protocolFee)
                  <= (terms.TargetNotional() - terms.CurrentNotional(unit)) * PRECISE_UNIT)
              && (k <= quantity - NetReceived(terms, unit, quantity) <==>
                  k * PRECISE_UNIT <= quantity * terms.protocolFee)
  {
    CeilGalois(terms.supply * terms.targetUnit, PRECISE_UNIT, k);
    FloorGalois(terms.supply * unit, PRECISE_UNIT, k);
    if !terms.IsSell(unit) {
      var shortfall := terms.TargetNotional() - terms.CurrentNotional(unit);
      assert terms.AuctionQuantity(unit) == shortfall * PRECISE_UNIT / (PRECISE_UNIT - terms.protocolFee);
      FloorGalois(shortfall * PRECISE_UNIT, PRECISE_UNIT - terms.protocolFee, k);
      FloorGalois(quantity * terms.protocolFee, PRECISE_UNIT, k);
    }
  }

  /** A real unit is stored as the most virtual ones within it and read back as the most real ones within those; what
      would be read back as nothing cannot be stored. */
  lemma StoredUnits(terms: Terms, unit: nat, k: int)
    requires terms.Valid()
    ensures k <= terms.RealUnit(unit) <==> k * PRECISE_UNIT <= unit * terms.multiplier
    ensures terms.VirtualUnit(unit).Some? ==>
              (k <= terms.VirtualUnit(unit).value <==> k * terms.multiplier <= unit * PRECISE_UNIT)
    ensures terms.VirtualUnit(unit).None?
       <==> unit > 0 && unit * PRECISE_UNIT / terms.multiplier * terms.multiplier < PRECISE_UNIT
  {
    FloorGalois(unit * terms.multiplier, PRECISE_UNIT, k);
    FloorGalois(unit * PRECISE_UNIT, terms.multiplier, k);
    FloorGalois(unit * PRECISE_UNIT, terms.multiplier, 0);
    var v := unit * PRECISE_UNIT / terms.multiplier;
    FloorGalois(v * terms.multiplier, PRECISE_UNIT, 1);
    if v == 0 { assert v * terms.multiplier == 0; }
  }

  // ----- what a bid does to the unit -----

  /** A bid within the auction's quantity takes no more than the excess over the target and brings no more than the
      shortfall, after its fee; the whole quantity takes or brings exactly that. */
  lemma NetReceivedBounds(terms: Terms, unit: nat, quantity: nat)
    requires terms.Valid() && quantity <= terms.AuctionQuantity(unit)
    ensures var notional := terms.CurrentNotional(unit) + NetReceived(terms, unit, quantity);
            && (terms.IsSell(unit) ==> terms.TargetNotional() <= notional <= terms.CurrentNotional(unit))
            && (!terms.IsSell(unit) ==> terms.CurrentNotional(unit) <= notional <= terms.TargetNotional())
            && (quantity == terms.AuctionQuantity(unit) ==> notional == terms.TargetNotional())
  {
    if !terms.IsSell(unit) {
      var shortfall, kept := terms.TargetNotional() - terms.CurrentNotional(unit), PRECISE_UNIT - terms.protocolFee;
      FloorGalois(shortfall * PRECISE_UNIT, kept, quantity);
      FloorGalois(shortfall * PRECISE_UNIT, kept, quantity + 1);
      FloorBounds(quantity * terms.protocolFee, PRECISE_UNIT);
      MulDistributes(kept, terms.protocolFee, quantity);
      MulMono(terms.protocolFee, PRECISE_UNIT, quantity);
      MulDistributes(quantity, 1, kept);
    }
  }

  /** The real unit a bid arrives at, before it is stored. */
  function BidUnit(terms: Terms, unit: nat, quantity: nat): (newUnit: int)
    requires terms.Valid()
  {
    (terms.CurrentNotional(unit) + NetReceived(terms, unit, quantity)) * PRECISE_UNIT / terms.supply
  }

  /** The new unit is the old notional plus what was received, per token, as it is read back: the airdropped amount
      plays no part. */
  lemma UnitAfterBid(terms: Terms, holding: Holding, quantity: nat)
    requires terms.Valid() && holding.Backed(terms)
    requires AfterBid(terms, holding, quantity).Some?
    ensures var newUnit := BidUnit(terms, holding.Unit(terms), quantity);
            var next := AfterBid(terms, holding, quantity).value;
            && newUnit >= 0 && terms.VirtualUnit(newUnit).Some?
            && next.Unit(terms) == terms.Stored(newUnit) && next.Backed(terms)
            && next.balance == holding.balance + NetReceived(terms, holding.Unit(terms), quantity)
  {
    var unit := holding.Unit(terms);
    NetReceivedBounds(terms, unit, quantity);
    NotionalOfUnit(terms.supply, unit);
    var received := NetReceived(terms, unit, quantity);
    TransferredUnit(terms.supply, unit, holding.balance, received);
    var newUnit := BidUnit(terms, unit, quantity);
    TrackedWithin(PreciseMul(unit, terms.supply) + received, terms.supply);
    StoredBounds(terms, newUnit);
    MulMono(terms.Stored(newUnit), newUnit, terms.supply);
    FloorMono(terms.Stored(newUnit) * terms.supply, newUnit * terms.supply, PRECISE_UNIT);
  }

  /** A bid on a backed holding goes through exactly when the unit is off its target, the quantity is within the
      auction, and the new unit can be stored. */
  lemma BidGoesThroughIff(terms: Terms, holding: Holding, quantity: nat)
    requires terms.Valid() && holding.Backed(terms)
    ensures AfterBid(terms, holding, quantity).Some? <==>
            && holding.Unit(terms) != terms.targetUnit
            && quantity <= terms.AuctionQuantity(holding.Unit(terms))
            && (BidUnit(terms, holding.Unit(terms), quantity) > 0 ==>
                  terms.Stored(BidUnit(terms, holding.Unit(terms), quantity)) > 0)
  {
    var unit := holding.Unit(terms);
    if quantity <= terms.AuctionQuantity(unit) {
      NetReceivedBounds(terms, unit, quantity);
      NotionalOfUnit(terms.supply, unit);
      TransferredUnit(terms.supply, unit, holding.balance, NetReceived(terms, unit, quantity));
      TrackedWithin(PreciseMul(unit, terms.supply) + NetReceived(terms, unit, quantity), terms.supply);
      StorableIff(terms, BidUnit(terms, unit, quantity));
    }
  }

  /** A balance that does not cover its position takes no bid that leaves any of it, and one that leaves nothing
      empties the position. */
  lemma UnbackedBid(terms: Terms, holding: Holding, quantity: nat)
    requires terms.Valid() && !holding.Backed(terms)
    ensures AfterBid(terms, holding, quantity).Some? ==>
              && AfterBid(terms, holding, quantity).value == Holding(0, 0)
              && holding.balance + NetReceived(terms, holding.Unit(terms), quantity) == 0
  {
    var received := NetReceived(terms, holding.Unit(terms), quantity);
    UnbackedTransfer(terms.supply, holding.Unit(terms), holding.balance, received);
    FloorUnique(0, terms.multiplier, 0);
  }

  lemma UnbackedTransfer(supply: nat, unit: nat, balance: nat, received: int)
    requires supply > 0 && PreciseMul(unit, supply) > balance
    ensures UnitAfterTransfer(supply, unit, balance, received)
         == if balance + received == 0 then Some(0) else None
  {
  }

  lemma StorableIff(terms: Terms, unit: nat)
    requires terms.Valid()
    ensures terms.VirtualUnit(unit).Some? <==> (unit > 0 ==> terms.Stored(unit) > 0)
  {
    FloorUnique(0, PRECISE_UNIT, 0);
  }

  lemma NotionalOfUnit(supply: nat, unit: nat)
    ensures PreciseMul(unit, supply) == PreciseMul(supply, unit)
  {
  }

  lemma TransferredUnit(supply: nat, unit: nat, balance: nat, received: int)
    requires supply > 0 && PreciseMul(unit, supply) <= balance && PreciseMul(unit, supply) + received >= 0
    ensures UnitAfterTransfer(supply, unit, balance, received)
         == Some((PreciseMul(unit, supply) + received) * PRECISE_UNIT / supply)
    ensures PreciseMul(unit, supply) + received <= balance + received
  {
    FloorUnique(0, supply, 0);
  }

  /** Reading a stored unit back never rounds up, loses less than one plus multiplier / PRECISE_UNIT, and loses
      nothing exactly when the multiplier divides the scaled unit. */
  lemma StoredBounds(terms: Terms, unit: nat)
    requires terms.Valid()
    ensures terms.Stored(unit) <= unit < terms.Stored(unit) + 1 + CeilDiv(terms.multiplier, PRECISE_UNIT)
    ensures terms.Stored(unit) == unit <==> unit * PRECISE_UNIT % terms.multiplier == 0
  {
    var m := terms.multiplier;
    var v, r := unit * PRECISE_UNIT / m, unit * PRECISE_UNIT % m;
    DivModIdentity(unit * PRECISE_UNIT, m);
    FloorGalois(unit * PRECISE_UNIT, m, 0);
    FloorGalois(v * m, PRECISE_UNIT, unit);
    FloorBounds(v * m, PRECISE_UNIT);
    CeilBounds(m, PRECISE_UNIT);
  }

  lemma StoredMono(terms: Terms, x: nat, y: nat)
    requires terms.Valid() && x <= y
    ensures terms.Stored(x) <= terms.Stored(y)
  {
    FloorMono(x * PRECISE_UNIT, y * PRECISE_UNIT, terms.multiplier);
    MulMono(x * PRECISE_UNIT / terms.multiplier, y * PRECISE_UNIT / terms.multiplier, terms.multiplier);
    FloorMono(x * PRECISE_UNIT / terms.multiplier * terms.multiplier,
              y * PRECISE_UNIT / terms.multiplier * terms.multiplier, PRECISE_UNIT);
  }

  /** A unit too small to be stored is not passed by any that is stored. */
  lemma UnstorableNotPassed(terms: Terms, x: nat, y: nat)
    requires terms.Valid() && terms.Stored(x) == 0 < terms.Stored(y)
    ensures x <= terms.Stored(y)
  {
    var m := terms.multiplier;
    var v, w := x * PRECISE_UNIT / m, y * PRECISE_UNIT / m;
    FloorGalois(v * m, PRECISE_UNIT, 1);
    FloorGalois(w * m, PRECISE_UNIT, 1);
    if w <= v { MulMono(w, v, m); }
    MulMono(v + 1, w, m);
    FloorBounds(x * PRECISE_UNIT, m);
    FloorGalois(w * m, PRECISE_UNIT, x);
  }

  lemma TrackedWithin(notional: nat, supply: nat)
    requires supply > 0
    ensures 0 <= notional * PRECISE_UNIT / supply
    ensures PreciseMul(notional * PRECISE_UNIT / supply, supply) <= notional
  {
    var unit := notional * PRECISE_UNIT / supply;
    FloorGalois(notional * PRECISE_UNIT, supply, 0);
    FloorBounds(notional * PRECISE_UNIT, supply);
    FloorGalois(unit * supply, PRECISE_UNIT, notional + 1);
  }

  /** A notional of at least the target's is at least the target unit, and, for a supply of one whole token or more,
      a notional of at most the target's is at most the target unit. */
  lemma NotionalAgainstTarget(terms: Terms, notional: nat)
    requires terms.Valid()
    ensures notional >= terms.TargetNotional() ==> notional * PRECISE_UNIT / terms.supply >= terms.targetUnit
    ensures notional <= terms.TargetNotional() && terms.supply >= PRECISE_UNIT ==>
              notional * PRECISE_UNIT / terms.supply <= terms.targetUnit
  {
    FloorGalois(notional * PRECISE_UNIT, terms.supply, terms.targetUnit);
    FloorGalois(notional * PRECISE_UNIT, terms.supply, terms.targetUnit + 1);
    MulDistributes(terms.targetUnit, 1, terms.supply);
  }

  /** Whole tokens make the notionals order the units: a sell is above the target, and above the target is no
      shortfall. */
  lemma DirectionOfUnit(terms: Terms, unit: nat)
    requires terms.Valid()
    ensures terms.IsSell(unit) ==> unit > terms.targetUnit
    ensures unit > terms.targetUnit && terms.supply >= PRECISE_UNIT ==>
              terms.CurrentNotional(unit) >= terms.TargetNotional()
  {
    DirectionArithmetic(terms.supply, terms.targetUnit, unit, terms.CurrentNotional(unit), terms.TargetNotional());
  }

  lemma DirectionArithmetic(s: nat, t: nat, unit: nat, current: int, target: int)
    requires current * PRECISE_UNIT <= s * unit < (current + 1) * PRECISE_UNIT
    requires (target - 1) * PRECISE_UNIT < s * t <= target * PRECISE_UNIT
    ensures target < current ==> unit > t
    ensures unit > t && s >= PRECISE_UNIT ==> current >= target
  {
    if unit <= t {
      MulMono(unit, t, s);
    } else {
      MulMono(t + 1, unit, s);
      MulDistributes(t, 1, s);
    }
  }

  /** With one whole token or more outstanding the unit a bid arrives at, before it is stored, has not crossed the
      target, is not further from it than one below, and is the target after a bid for the whole quantity. */
  lemma BidUnitBounds(terms: Terms, unit: nat, quantity: nat)
    requires terms.Valid() && terms.supply >= PRECISE_UNIT && quantity <= terms.AuctionQuantity(unit)
    ensures var newUnit := BidUnit(terms, unit, quantity);
            && (unit > terms.targetUnit ==> terms.targetUnit <= newUnit <= unit)
            && (unit < terms.targetUnit ==> unit - 1 <= newUnit <= terms.targetUnit)
            && (quantity == terms.AuctionQuantity(unit) ==> newUnit == terms.targetUnit)
  {
    NetReceivedBounds(terms, unit, quantity);
    DirectionOfUnit(terms, unit);
    var notional := terms.CurrentNotional(unit) + NetReceived(terms, unit, quantity);
    NotionalAgainstTarget(terms, notional);
    NotionalAgainstUnit(terms.supply, unit, notional);
  }

  /** A notional within a unit's is per token within the unit, and one of at least the unit's is at least one less. */
  lemma NotionalAgainstUnit(supply: nat, unit: nat, notional: nat)
    requires supply >= PRECISE_UNIT
    ensures notional <= PreciseMul(supply, unit) ==> notional * PRECISE_UNIT / supply <= unit
    ensures notional >= PreciseMul(supply, unit) ==> unit - 1 <= notional * PRECISE_UNIT / supply
  {
    FloorBounds(supply * unit, PRECISE_UNIT);
    MulDistributes(unit, 1, supply);
    MulDistributes(unit, -1, supply);
    FloorGalois(notional * PRECISE_UNIT, supply, unit + 1);
    FloorGalois(notional * PRECISE_UNIT, supply, unit - 1);
  }

  /** What a bid may do to a unit: from above it ends no lower than the target as it is read back, from below no
      higher than the target, and never further down than two roundings. */
  predicate UnitKept(terms: Terms, before: nat, after: nat)
    requires terms.Valid()
  {
    && (before > terms.targetUnit ==> terms.Stored(terms.targetUnit) <= after <= before)
    && (before < terms.targetUnit ==> before - Slack(terms) <= after <= terms.targetUnit)
  }

  /** One for the notional and what storing a unit can lose. */
  function Slack(terms: Terms): int {
    1 + CeilDiv(terms.multiplier, PRECISE_UNIT)
  }

  /** Every bid keeps the unit so, and a bid for the whole quantity leaves the target as it is read back. */
  lemma BidKeepsUnit(terms: Terms, holding: Holding, quantity: nat)
    requires terms.Valid() && terms.supply >= PRECISE_UNIT && holding.Backed(terms)
    requires AfterBid(terms, holding, quantity).Some?
    ensures var unit, next := holding.Unit(terms), AfterBid(terms, holding, quantity).value;
            && UnitKept(terms, unit, next.Unit(terms))
            && (quantity == terms.AuctionQuantity(unit) ==> next.Unit(terms) == terms.Stored(terms.targetUnit))
  {
    var unit := holding.Unit(terms);
    UnitAfterBid(terms, holding, quantity);
    BidUnitBounds(terms, unit, quantity);
    var newUnit := BidUnit(terms, unit, quantity);
    StoredBounds(terms, newUnit);
    if unit >= terms.targetUnit { StoredMono(terms, terms.targetUnit, newUnit); }
  }

  /** What a bid that goes through does to a holding that was backed. */
  predicate BidKept(terms: Terms, before: Holding, after: Holding, quantity: nat)
    requires terms.Valid()
  {
    && after.Backed(terms)
    && after.balance == before.balance + NetReceived(terms, before.Unit(terms), quantity)
    && (terms.supply >= PRECISE_UNIT ==> UnitKept(terms, before.Unit(terms), after.Unit(terms)))
  }

  lemma BidKeepsHolding(terms: Terms, holding: Holding, quantity: nat)
    requires terms.Valid() && holding.Backed(terms)
    requires AfterBid(terms, holding, quantity).Some?
    ensures BidKept(terms, holding, AfterBid(terms, holding, quantity).value, quantity)
  {
    UnitAfterBid(terms, holding, quantity);
    if terms.supply >= PRECISE_UNIT { BidKeepsUnit(terms, holding, quantity); }
  }

  /** Placing each bid in turn; one that reverts changes nothing. */
  function AfterBids(terms: Terms, holding: Holding, quantities: seq<nat>): Holding
    requires terms.Valid()
    decreases |quantities|
  {
    if quantities == [] then holding else
    match AfterBid(terms, holding, quantities[0])
    case None => AfterBids(terms, holding, quantities[1..])
    case Some(next) => AfterBids(terms, next, quantities[1..])
  }

  /** A run is its bids: two runs in turn are one, and a run of one bid is that bid, or nothing where it reverts. */
  lemma {:induction false} RunIsItsBids(terms: Terms, holding: Holding, quantities: seq<nat>, more: seq<nat>)
    requires terms.Valid()
    ensures AfterBids(terms, holding, quantities + more)
         == AfterBids(terms, AfterBids(terms, holding, quantities), more)
    ensures |quantities| == 1 ==>
              AfterBids(terms, holding, quantities)
              == match AfterBid(terms, holding, quantities[0]) case None => holding case Some(next) => next
    decreases |quantities|
  {
    if quantities == [] {
      assert quantities + more == more;
    } else {
      assert (quantities + more)[1..] == quantities[1..] + more;
      match AfterBid(terms, holding, quantities[0]) {
        case None => RunIsItsBids(terms, holding, quantities[1..], more);
        case Some(next) => RunIsItsBids(terms, next, quantities[1..], more);
      }
    }
  }

  /** Over every run of bids the unit never rises above both its start and the target, and falls below both by no more
      than the slack of each bid. */
  lemma {:induction false} BidsStayNear(terms: Terms, holding: Holding, quantities: seq<nat>)
    requires terms.Valid() && terms.supply >= PRECISE_UNIT && holding.Backed(terms)
    ensures var start, end := holding.Unit(terms), AfterBids(terms, holding, quantities).Unit(terms);
            && (start <= terms.targetUnit ==> start - |quantities| * Slack(terms) <= end <= terms.targetUnit)
            && (start >= terms.targetUnit ==> terms.targetUnit - |quantities| * Slack(terms) <= end <= start)
    decreases |quantities|
  {
    CeilBounds(terms.multiplier, PRECISE_UNIT);
    if quantities != [] {
      MulDistributes(|quantities| - 1, 1, Slack(terms));
      match AfterBid(terms, holding, quantities[0]) {
        case None => BidsStayNear(terms, holding, quantities[1..]);
        case Some(next) =>
          BidKeepsUnit(terms, holding, quantities[0]);
          StoredBounds(terms, terms.targetUnit);
          UnitAfterBid(terms, holding, quantities[0]);
          BidsStayNear(terms, next, quantities[1..]);
      }
    }
  }

  // ----- which targets are never crossed -----

  predicate SameSide(targetUnit: nat, before: int, after: int) {
    (before >= targetUnit ==> after >= targetUnit) && (before <= targetUnit ==> after <= targetUnit)
  }

  predicate StaysOnSide(terms: Terms, holding: Holding, quantities: seq<nat>)
    requires terms.Valid()
  {
    SameSide(terms.targetUnit, holding.Unit(terms), AfterBids(terms, holding, quantities).Unit(terms))
  }

  /** Over every run of bids, from every holding and at every fee. */
  ghost predicate NeverCrosses(supply: nat, multiplier: nat, targetUnit: nat)
    requires supply > 0 && multiplier > 0
  {
    forall protocolFee: nat, holding: Holding, quantities: seq<nat> ::
      protocolFee < PRECISE_UNIT && holding.Backed(Terms(supply, multiplier, targetUnit, protocolFee)) ==>
        StaysOnSide(Terms(supply, multiplier, targetUnit, protocolFee), holding, quantities)
  }

  /** The target is read back as itself, or cannot be stored at all. */
  predicate TargetHolds(terms: Terms)
    requires terms.Valid()
  {
    terms.targetUnit * PRECISE_UNIT % terms.multiplier == 0 || terms.VirtualUnit(terms.targetUnit).None?
  }

  lemma {:induction false} BidsKeepSide(terms: Terms, holding: Holding, quantities: seq<nat>)
    requires terms.Valid() && terms.supply >= PRECISE_UNIT && holding.Backed(terms) && TargetHolds(terms)
    ensures StaysOnSide(terms, holding, quantities)
    decreases |quantities|
  {
    if quantities != [] {
      match AfterBid(terms, holding, quantities[0]) {
        case None => BidsKeepSide(terms, holding, quantities[1..]);
        case Some(next) =>
          BidKeepsSide(terms, holding, quantities[0]);
          UnitAfterBid(terms, holding, quantities[0]);
          BidsKeepSide(terms, next, quantities[1..]);
      }
    }
  }

  lemma BidKeepsSide(terms: Terms, holding: Holding, quantity: nat)
    requires terms.Valid() && terms.supply >= PRECISE_UNIT && holding.Backed(terms) && TargetHolds(terms)
    requires AfterBid(terms, holding, quantity).Some?
    ensures SameSide(terms.targetUnit, holding.Unit(terms), AfterBid(terms, holding, quantity).value.Unit(terms))
  {
    BidKeepsUnit(terms, holding, quantity);
    var unit := holding.Unit(terms);
    if unit > terms.targetUnit {
      UnitAfterBid(terms, holding, quantity);
      BidUnitBounds(terms, unit, quantity);
      StoredAboveTarget(terms, BidUnit(terms, unit, quantity));
    }
  }

  lemma StoredAboveTarget(terms: Terms, unit: nat)
    requires terms.Valid() && TargetHolds(terms) && terms.targetUnit <= unit && terms.VirtualUnit(unit).Some?
    ensures terms.targetUnit <= terms.Stored(unit)
  {
    StoredBounds(terms, terms.targetUnit);
    StoredMono(terms, terms.targetUnit, unit);
    if terms.Stored(terms.targetUnit) == 0 < terms.Stored(unit) {
      UnstorableNotPassed(terms, terms.targetUnit, unit);
    }
  }

  /** With a whole token outstanding, runs of bids respect a target exactly when the multiplier divides the scaled
      target, or the target cannot be stored. */
  lemma NeverCrossesTargetIff(supply: nat, multiplier: nat, targetUnit: nat)
    requires supply >= PRECISE_UNIT && multiplier > 0
    ensures NeverCrosses(supply, multiplier, targetUnit)
       <==> TargetHolds(Terms(supply, multiplier, targetUnit, 0))
  {
    var free := Terms(supply, multiplier, targetUnit, 0);
    if TargetHolds(free) {
      forall protocolFee: nat, holding: Holding, quantities: seq<nat> |
        protocolFee < PRECISE_UNIT && holding.Backed(Terms(supply, multiplier, targetUnit, protocolFee))
        ensures StaysOnSide(Terms(supply, multiplier, targetUnit, protocolFee), holding, quantities)
      {
        BidsKeepSide(Terms(supply, multiplier, targetUnit, protocolFee), holding, quantities);
      }
    } else {
      NotionalAgainstTarget(free, free.TargetNotional());
      SaleCrosses(free);
    }
  }

  lemma OneBid(terms: Terms, holding: Holding, quantity: nat)
    requires terms.Valid() && AfterBid(terms, holding, quantity).Some?
    ensures AfterBids(terms, holding, [quantity]) == AfterBid(terms, holding, quantity).value
  {
    assert [quantity][1..] == [];
  }

  /** Some holding is above any target by something to sell. */
  lemma HoldingAbove(terms: Terms) returns (holding: Holding)
    requires terms.Valid()
    ensures holding.Backed(terms) && holding.Unit(terms) > terms.targetUnit && terms.IsSell(holding.Unit(terms))
  {
    var u := terms.targetUnit + 2 * PRECISE_UNIT;
    var unit := terms.multiplier * u;
    FloorUnique(u * PRECISE_UNIT * terms.multiplier, PRECISE_UNIT, unit);
    MulMono(1, terms.multiplier, u);
    MulMono(u, unit, terms.supply);
    MulDistributes(terms.targetUnit, 2 * PRECISE_UNIT, terms.supply);
    CeilBounds(terms.supply * terms.targetUnit, PRECISE_UNIT);
    FloorGalois(terms.supply * unit, PRECISE_UNIT, terms.TargetNotional() + 1);
    holding := Holding(u * PRECISE_UNIT, PreciseMul(unit, terms.supply));
  }

  /** A sale of everything above a target that is read back lower ends below it. */
  lemma SaleCrosses(terms: Terms)
    requires terms.Valid() && !TargetHolds(terms)
    requires terms.TargetNotional() * PRECISE_UNIT / terms.supply == terms.targetUnit
    ensures !NeverCrosses(terms.supply, terms.multiplier, terms.targetUnit)
  {
    var holding := HoldingAbove(terms);
    var unit := holding.Unit(terms);
    var quantity := terms.AuctionQuantity(unit);
    NotionalOfUnit(terms.supply, unit);
    TransferredUnit(terms.supply, unit, holding.balance, -quantity);
    OneBid(terms, holding, quantity);
    UnitAfterBid(terms, holding, quantity);
    StoredBounds(terms, terms.targetUnit);
    assert !StaysOnSide(terms, holding, [quantity]);
  }

  /** A purchase from nothing passes a target whose notional stands for a larger unit. */
  lemma PurchaseCrosses(terms: Terms)
    requires terms.Valid() && terms.protocolFee == 0
    requires terms.Stored(terms.TargetNotional() * PRECISE_UNIT / terms.supply) > terms.targetUnit
    ensures !NeverCrosses(terms.supply, terms.multiplier, terms.targetUnit)
  {
    var holding, quantity := Holding(0, 0), terms.TargetNotional();
    assert terms.AuctionQuantity(0) == quantity;
    TransferredUnit(terms.supply, 0, 0, quantity);
    OneBid(terms, holding, quantity);
    UnitAfterBid(terms, holding, quantity);
    assert !StaysOnSide(terms, holding, [quantity]);
  }

  /** Of any supply below a whole token there is a target that bids cross: one that a purchase jumps over, or, where
      the multiplier stores the unit behind it lower, that unit. */
  lemma SmallSupplyCrosses(supply: nat, multiplier: nat) returns (target: nat)
    requires 0 < supply < PRECISE_UNIT && multiplier > 0
    ensures !NeverCrosses(supply, multiplier, target)
  {
    var notional;
    target, notional := JumpedTarget(supply, multiplier + 1);
    var terms := Terms(supply, multiplier, target, 0);
    var beyond := notional * PRECISE_UNIT / supply;
    FloorGalois(notional * PRECISE_UNIT, supply, target + 1);
    StoredBounds(terms, beyond);
    if terms.Stored(beyond) == beyond {
      PurchaseCrosses(terms);
    } else {
      CeilBounds(multiplier, PRECISE_UNIT);
      NotionalBeyond(supply, notional);
      target := beyond;
      SaleCrosses(Terms(supply, multiplier, target, 0));
    }
  }

  lemma NotionalBeyond(supply: nat, notional: nat)
    requires 0 < supply < PRECISE_UNIT
    ensures CeilDiv(supply * (notional * PRECISE_UNIT / supply), PRECISE_UNIT) == notional
  {
    FloorBounds(notional * PRECISE_UNIT, supply);
    CeilUnique(supply * (notional * PRECISE_UNIT / supply), PRECISE_UNIT, notional);
  }

  /** Far enough up there are targets whose notional stands for one unit more. */
  lemma JumpedTarget(supply: nat, far: nat) returns (target: nat, notional: nat)
    requires 0 < supply < PRECISE_UNIT
    ensures target >= far
    ensures CeilDiv(supply * target, PRECISE_UNIT) == notional
    ensures (target + 1) * supply <= notional * PRECISE_UNIT
  {
    var gap := PRECISE_UNIT - supply;
    var least := CeilDiv(supply, gap);
    CeilBounds(supply, gap);
    CeilGalois(supply, gap, 0);
    MulDistributes(supply, gap, least);
    target, notional := least + far * PRECISE_UNIT, least + far * supply;
    JumpArithmetic(supply, gap, least, far, target, notional, PRECISE_UNIT);
    CeilUnique(supply * target, PRECISE_UNIT, notional);
  }

  lemma JumpArithmetic(supply: nat, gap: nat, least: nat, far: nat, target: nat, notional: nat, one: nat)
    requires supply + gap == one && (least - 1) * gap < supply <= least * gap
    requires target == least + far * one && notional == least + far * supply
    ensures (notional - 1) * one < supply * target <= notional * one
    ensures (target + 1) * supply <= notional * one
  {
  }

  /** Runs of bids respect every target exactly when a whole token is outstanding and the multiplier divides
      PRECISE_UNIT. */
  lemma NeverCrossesIff(supply: nat, multiplier: nat)
    requires supply > 0 && multiplier > 0
    ensures (forall targetUnit: nat :: NeverCrosses(supply, multiplier, targetUnit))
       <==> supply >= PRECISE_UNIT && PRECISE_UNIT % multiplier == 0
  {
    if supply < PRECISE_UNIT {
      var _ := SmallSupplyCrosses(supply, multiplier);
    } else if PRECISE_UNIT % multiplier == 0 {
      forall targetUnit: nat ensures NeverCrosses(supply, multiplier, targetUnit) {
        MultipleDivides(targetUnit, PRECISE_UNIT, multiplier);
        NeverCrossesTargetIff(supply, multiplier, targetUnit);
      }
    } else {
      var target := multiplier + 1;
      var terms := Terms(supply, multiplier, target, 0);
      CeilBounds(multiplier, PRECISE_UNIT);
      StoredBounds(terms, target);
      SuccessorOfMultiple(PRECISE_UNIT, multiplier);
      NeverCrossesTargetIff(supply, multiplier, target);
    }
  }

  lemma MultipleDivides(k: nat, one: nat, d: nat)
    requires d > 0 && one % d == 0
    ensures k * one % d == 0
  {
    DivModIdentity(one, d);
    assert k * one == k * (one / d) * d;
    FloorUnique(k * one, d, k * (one / d));
    DivModIdentity(k * one, d);
  }

  lemma SuccessorOfMultiple(one: nat, d: nat)
    requires d > 0
    ensures (d + 1) * one % d == one % d
  {
    DivModIdentity(one, d);
    FloorUnique((d + 1) * one, d, one + one / d);
    DivModIdentity((d + 1) * one, d);
  }

  // ----- units read back lower -----

  /** A bid for everything above a target of ten, at nine tenths of a multiplier: ten is read back as nine, and one is
      up for buying back. */
  lemma WholeBidEndsBelowTarget()
    ensures var terms := Terms(PRECISE_UNIT, 900_000_000_000_000_000, 10, 0);
            && Holding(20, 18).Backed(terms) && Holding(20, 18).Unit(terms) == 18
            && terms.IsSell(18) && terms.AuctionQuantity(18) == 8
            && AfterBid(terms, Holding(20, 18), 8) == Some(Holding(11, 10)) && Holding(11, 10).Unit(terms) == 9
            && !terms.IsSell(9) && terms.AuctionQuantity(9) == 1
  {
  }

  /** A bid of nothing takes one off a unit the multiplier does not store, so bids can go on losing. */
  lemma EmptyBidLosesOne(terms: Terms, holding: Holding)
    requires terms.Valid() && terms.supply == PRECISE_UNIT && terms.multiplier <= PRECISE_UNIT
    requires holding.Backed(terms) && holding.Unit(terms) > 1 && holding.Unit(terms) != terms.targetUnit
    requires holding.Unit(terms) * PRECISE_UNIT % terms.multiplier != 0
    ensures AfterBid(terms, holding, 0).Some?
    ensures AfterBid(terms, holding, 0).value.Unit(terms) == holding.Unit(terms) - 1
  {
    var unit := holding.Unit(terms);
    FloorUnique(terms.supply * unit, PRECISE_UNIT, unit);
    NotionalOfUnit(terms.supply, unit);
    StoredBounds(terms, unit);
    CeilUnique(terms.multiplier, PRECISE_UNIT, 1);
    FloorUnique(unit * PRECISE_UNIT, terms.supply, unit);
    TransferredUnit(terms.supply, unit, holding.balance, 0);
    if !terms.IsSell(unit) {
      FloorGalois((terms.TargetNotional() - unit) * PRECISE_UNIT, PRECISE_UNIT - terms.protocolFee, 0);
    }
    UnitAfterBid(terms, holding, 0);
  }

  // ----- whether a target counts as met -----

  /** The module's own test, within one of a target that is not zero. It reverts where one would be taken off no
      unit. */
  function TargetMet(targetUnit: nat, unit: nat): Option<bool> {
    if targetUnit == 0 then Some(unit == 0)
    else if targetUnit > unit + 1 then Some(false)
    else if unit == 0 then None
    else Some(targetUnit >= unit - 1)
  }

  /** What is read back is short by the remainder, in whole units rounded up. */
  lemma StoredExact(terms: Terms, unit: nat)
    requires terms.Valid()
    ensures terms.Stored(unit) == unit - CeilDiv(unit * PRECISE_UNIT % terms.multiplier, PRECISE_UNIT)
  {
    var m := terms.multiplier;
    var v, r := unit * PRECISE_UNIT / m, unit * PRECISE_UNIT % m;
    DivModIdentity(unit * PRECISE_UNIT, m);
    CeilBounds(r, PRECISE_UNIT);
    FloorUnique(v * m, PRECISE_UNIT, unit - CeilDiv(r, PRECISE_UNIT));
  }

  /** With a whole token outstanding, a bid for everything meets its target exactly when the remainder of the scaled
      target is at most one unit. */
  lemma WholeBidMeetsTargetIff(terms: Terms, holding: Holding, quantity: nat)
    requires terms.Valid() && terms.supply >= PRECISE_UNIT && holding.Backed(terms)
    requires quantity == terms.AuctionQuantity(holding.Unit(terms)) && AfterBid(terms, holding, quantity).Some?
    ensures TargetMet(terms.targetUnit, AfterBid(terms, holding, quantity).value.Unit(terms))
         == Some(terms.targetUnit * PRECISE_UNIT % terms.multiplier <= PRECISE_UNIT)
  {
    var unit, target := holding.Unit(terms), terms.targetUnit;
    BidKeepsUnit(terms, holding, quantity);
    UnitAfterBid(terms, holding, quantity);
    BidUnitBounds(terms, unit, quantity);
    StoredExact(terms, target);
    CeilGalois(target * PRECISE_UNIT % terms.multiplier, PRECISE_UNIT, 1);
    CeilGalois(target * PRECISE_UNIT % terms.multiplier, PRECISE_UNIT, -1);
  }

  ghost predicate WholeBidsMeet(supply: nat, multiplier: nat) {
    forall terms: Terms, holding: Holding, quantity: nat ::
      && terms.Valid() && terms.supply == supply && terms.multiplier == multiplier && holding.Backed(terms)
      && quantity == terms.AuctionQuantity(holding.Unit(terms)) && AfterBid(terms, holding, quantity).Some? ==>
        TargetMet(terms.targetUnit, AfterBid(terms, holding, quantity).value.Unit(terms)) == Some(true)
  }

  /** With a whole token outstanding, bids for everything meet every target exactly when the multiplier is at most
      one, or exceeds one by a divisor of one. */
  lemma WholeBidsMeetIff(supply: nat, multiplier: nat)
    requires supply >= PRECISE_UNIT && multiplier > 0
    ensures WholeBidsMeet(supply, multiplier)
       <==> multiplier <= PRECISE_UNIT || PRECISE_UNIT % (multiplier - PRECISE_UNIT) == 0
  {
    if multiplier <= PRECISE_UNIT || PRECISE_UNIT % (multiplier - PRECISE_UNIT) == 0 {
      forall terms: Terms, holding: Holding, quantity: nat |
        && terms.Valid() && terms.supply == supply && terms.multiplier == multiplier && holding.Backed(terms)
        && quantity == terms.AuctionQuantity(holding.Unit(terms)) && AfterBid(terms, holding, quantity).Some?
        ensures TargetMet(terms.targetUnit, AfterBid(terms, holding, quantity).value.Unit(terms)) == Some(true)
      {
        WholeBidMeetsTargetIff(terms, holding, quantity);
        if multiplier > PRECISE_UNIT { RemainderWithinOne(terms.targetUnit, PRECISE_UNIT, multiplier - PRECISE_UNIT); }
      }
    } else {
      var target := LargeRemainder(PRECISE_UNIT, multiplier - PRECISE_UNIT);
      var terms := Terms(supply, multiplier, target, 0);
      StoredExact(terms, target);
      CeilGalois(target * PRECISE_UNIT % multiplier, PRECISE_UNIT, 2);
      var holding, quantity := WholeSale(terms);
      WholeBidMeetsTargetIff(terms, holding, quantity);
    }
  }

  lemma WholeSale(terms: Terms) returns (holding: Holding, quantity: nat)
    requires terms.Valid() && terms.supply >= PRECISE_UNIT && terms.Stored(terms.targetUnit) > 0
    ensures holding.Backed(terms) && quantity == terms.AuctionQuantity(holding.Unit(terms))
    ensures AfterBid(terms, holding, quantity).Some?
  {
    holding := HoldingAbove(terms);
    var unit := holding.Unit(terms);
    quantity := terms.AuctionQuantity(unit);
    NotionalOfUnit(terms.supply, unit);
    NotionalAgainstTarget(terms, terms.TargetNotional());
    TransferredUnit(terms.supply, unit, holding.balance, NetReceived(terms, unit, quantity));
  }

  /** One is a multiple of what the multiplier exceeds it by, so remainders are multiples too and the largest is
      one. */
  lemma RemainderWithinOne(k: nat, one: nat, excess: nat)
    requires one > 0 && excess > 0 && one % excess == 0
    ensures k * one % (one + excess) <= one
  {
    var parts, m := one / excess, one + excess;
    DivModIdentity(one, excess);
    FloorGalois(one, excess, 0);
    DivModIdentity(k * one, m);
    var turns, r := k * one / m, k * one % m;
    MultiplesLeaveMultiple(k, parts, excess, turns, r);
    BelowNextMultiple(k * parts - turns * (parts + 1), parts, excess);
  }

  lemma MultiplesLeaveMultiple(k: int, parts: int, excess: int, turns: int, r: int)
    requires k * (parts * excess) == turns * (parts * excess + excess) + r
    ensures r == (k * parts - turns * (parts + 1)) * excess
  {
  }

  lemma BelowNextMultiple(a: int, b: int, d: int)
    requires d > 0 && a * d < b * d + d
    ensures a * d <= b * d
  {
    if a > b { MulMono(b + 1, a, d); }
  }

  /** Steps of one wander by the excess until a remainder below it is left, and one step on is above one. */
  lemma LargeRemainder(one: nat, excess: nat) returns (k: nat)
    requires one > 0 && excess > 0 && one % excess != 0
    ensures k > 2 && one < k * one % (one + excess) <= 2 * one
  {
    var m, steps, r := one + excess, one / excess, one % excess;
    DivModIdentity(one, excess);
    FloorGalois(one, excess, 0);
    k := steps + 2 + m;
    assert k * one == (steps + one) * m + (one + r);
    FloorUnique(k * one, m, steps + one);
    DivModIdentity(k * one, m);
  }

  // ----- the quote asset -----

  /** What changes hands for a quantity: paid to the set rounded up when it sells, by the set rounded down when it
      buys. */
  function QuoteQuantity(isSell: bool, quantity: nat, price: nat): (quote: nat) {
    if isSell then PreciseMulCeil(quantity, price) else PreciseMul(quantity, price)
  }

  /** A sale brings the least that is worth its quantity at the price, a purchase pays the most that is within it. */
  lemma QuoteIsWorth(quantity: nat, price: nat, k: int)
    ensures QuoteQuantity(true, quantity, price) <= k <==> quantity * price <= k * PRECISE_UNIT
    ensures k <= QuoteQuantity(false, quantity, price) <==> k * PRECISE_UNIT <= quantity * price
  {
    CeilGalois(quantity * price, PRECISE_UNIT, k);
    FloorGalois(quantity * price, PRECISE_UNIT, k);
  }

  function QuoteInParts(isSell: bool, quantities: seq<nat>, price: nat): nat {
    if quantities == [] then 0 else
    QuoteQuantity(isSell, quantities[0], price) + QuoteInParts(isSell, quantities[1..], price)
  }

  /** At one price, splitting a bid never brings the bidder more for less, and costs at most one per further part. */
  lemma {:induction false} SplittingBidNeverPays(isSell: bool, quantities: seq<nat>, price: nat)
    requires quantities != []
    ensures var whole, parts := QuoteQuantity(isSell, Sum(quantities), price), QuoteInParts(isSell, quantities, price);
            if isSell then whole <= parts < whole + |quantities| else parts <= whole < parts + |quantities|
  {
    var q, rest := quantities[0], quantities[1..];
    if rest == [] {
      assert QuoteInParts(isSell, rest, price) == 0 && Sum(rest) == 0;
    } else {
      SplittingBidNeverPays(isSell, rest, price);
      MulDistributes(q, Sum(rest), price);
      RoundedSum(q * price, Sum(rest) * price, PRECISE_UNIT);
    }
  }

  lemma RoundedSum(x: int, y: int, d: int)
    requires d > 0
    ensures x / d + y / d <= (x + y) / d <= x / d + y / d + 1
    ensures CeilDiv(x + y, d) <= CeilDiv(x, d) + CeilDiv(y, d) <= CeilDiv(x + y, d) + 1
  {
    FloorOfTwo(x, y, d);
    FloorOfTwo(-x, -y, d);
  }

  lemma FloorOfTwo(x: int, y: int, d: int)
    requires d > 0
    ensures x / d + y / d <= (x + y) / d <= x / d + y / d + 1
  {
    FloorBounds(x, d);
    FloorBounds(y, d);
    FloorGalois(x + y, d, x / d + y / d);
    FloorGalois(x + y, d, x / d + y / d + 2);
  }
}
