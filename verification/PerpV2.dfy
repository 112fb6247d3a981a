/**
 Quote transfers when issuing and redeeming a set with perpetual positions. Prices and swap quotes are read from
 contracts; here they are arbitrary functions.
 */
module PerpV2 {
  import opened Wrappers
  import opened Rounding
  import opened MathUtils
  import opened Shares

  datatype AccountInfo = AccountInfo(
    collateralBalance: int,
    owedRealizedPnl: int,
    pendingFundingPayments: int,
    netQuoteBalance: int)

  datatype UnitPosition = UnitPosition(baseToken: int, baseUnit: int)

  datatype NotionalPosition = NotionalPosition(baseToken: int, baseBalance: int, quoteBalance: int)

  /** The quote amount of a swap of so much of a base token, bought when the flag is set. */
  type Quoter = (int, int, bool) -> int

  type SpotPrice = int -> nat

  const USDC_SCALE: int := 1_000_000_000_000

  function ToUSDCDecimals(quantity: int): int {
    TruncDiv(quantity, USDC_SCALE)
  }

  // ----- transfer in -----

  function CollateralShare(account: AccountInfo, totalSupply: int, setQuantity: int, includeFunding: bool): int
    requires totalSupply != 0
  {
    var value := account.collateralBalance + account.owedRealizedPnl + account.netQuoteBalance
                 + (if includeFunding then account.pendingFundingPayments else 0);
    ShareOf(value, totalSupply, setQuantity)
  }

  /** Only the total of the account's balances matters, and its share is the exact one but for little. */
  lemma CollateralShareBounds(account: AccountInfo, totalSupply: nat, setQuantity: nat, includeFunding: bool)
    requires 0 < totalSupply && setQuantity <= totalSupply
    ensures var value := account.collateralBalance + account.owedRealizedPnl + account.netQuoteBalance
                         + (if includeFunding then account.pendingFundingPayments else 0);
            var share := CollateralShare(account, totalSupply, setQuantity, includeFunding);
            && share == CollateralShare(AccountInfo(value, 0, 0, 0), totalSupply, setQuantity, false)
            && (value >= 0 ==> 0 <= share) && (value <= 0 ==> share <= 0)
            && Abs(share) * totalSupply <= Abs(value) * setQuantity
            && (Abs(value) * setQuantity - (Abs(share) + 1) * totalSupply) * PRECISE_UNIT < setQuantity * totalSupply
  {
    var value := account.collateralBalance + account.owedRealizedPnl + account.netQuoteBalance
                 + (if includeFunding then account.pendingFundingPayments else 0);
    ShareBounds(value, totalSupply, setQuantity);
  }

  /** What the trades for a quantity cost: the quote paid for longs, less the quote received for shorts. */
  function TradeCost(positions: seq<UnitPosition>, setQuantity: int, quote: Quoter): int {
    if positions == [] then 0 else
    var last := positions[|positions| - 1];
    var notional := PreciseMul(last.baseUnit, setQuantity);
    TradeCost(positions[..|positions| - 1], setQuantity, quote)
    + (if notional >= 0 then quote(last.baseToken, notional, true) else -quote(last.baseToken, -notional, false))
  }

  /** The ideal quotes and the expected slippages cancel: the total depends on no spot price. */
  method CalculateUSDCTransferIn(account: AccountInfo, positions: seq<UnitPosition>, totalSupply: int,
                                 setQuantity: int, spotPrice: SpotPrice, quote: Quoter, includeFunding: bool)
    returns (usdcAmountIn: Option<int>)
    ensures usdcAmountIn == if totalSupply == 0 then None else
                            Some(CollateralShare(account, totalSupply, setQuantity, includeFunding)
                                 + TradeCost(positions, setQuantity, quote))
  {
    if totalSupply == 0 {
      return None;
    }
    var totalCollateralValue := account.collateralBalance + account.owedRealizedPnl + account.netQuoteBalance;
    if includeFunding {
      totalCollateralValue := totalCollateralValue + account.pendingFundingPayments;
    }
    var amount := PreciseMul(PreciseDiv(totalCollateralValue, totalSupply), setQuantity);
    for i := 0 to |positions|
      invariant amount == CollateralShare(account, totalSupply, setQuantity, includeFunding)
                          + TradeCost(positions[..i], setQuantity, quote)
    {
      var position := positions[i];
      var baseTradeQuantityNotional := PreciseMul(position.baseUnit, setQuantity);
      var isLong := baseTradeQuantityNotional >= 0;
      var deltaQuote := quote(position.baseToken, Abs(baseTradeQuantityNotional), isLong);
      var idealQuote := PreciseMul(baseTradeQuantityNotional, spotPrice(position.baseToken));
      var expectedSlippage := if isLong then deltaQuote - idealQuote else Abs(idealQuote) - deltaQuote;
      amount := amount + idealQuote + expectedSlippage;
      SlippageCancels(positions, i, setQuantity, spotPrice(position.baseToken), quote);
    }
    assert positions[..|positions|] == positions;
    usdcAmountIn := Some(amount);
  }

  /** The ideal quote and the expected slippage add up to the quote of a long, and to its negation for a short. */
  lemma SlippageCancels(positions: seq<UnitPosition>, i: nat, setQuantity: int, price: nat, quote: Quoter)
    requires i < |positions|
    ensures var notional := PreciseMul(positions[i].baseUnit, setQuantity);
            var deltaQuote := quote(positions[i].baseToken, Abs(notional), notional >= 0);
            var idealQuote := PreciseMul(notional, price);
            var expectedSlippage := if notional >= 0 then deltaQuote - idealQuote else Abs(idealQuote) - deltaQuote;
            TradeCost(positions[..i + 1], setQuantity, quote)
            == TradeCost(positions[..i], setQuantity, quote) + idealQuote + expectedSlippage
  {
    PreciseMulSign(PreciseMul(positions[i].baseUnit, setQuantity), price);
    assert positions[..i + 1][..i] == positions[..i];
  }

  /** Only the quotes for the traded amount of each base token matter, bought for a long and sold for a short. */
  lemma {:induction false} TradeCostQuotes(positions: seq<UnitPosition>, setQuantity: int, quote: Quoter, other: Quoter)
    requires forall i :: 0 <= i < |positions| ==>
               var notional := PreciseMul(positions[i].baseUnit, setQuantity);
               quote(positions[i].baseToken, Abs(notional), notional >= 0)
               == other(positions[i].baseToken, Abs(notional), notional >= 0)
    ensures TradeCost(positions, setQuantity, quote) == TradeCost(positions, setQuantity, other)
  {
    if positions != [] {
      var rest := positions[..|positions| - 1];
      assert forall i :: 0 <= i < |rest| ==> rest[i] == positions[i];
      TradeCostQuotes(rest, setQuantity, quote, other);
    }
  }

  /** Quotes without slippage, at a bid price and an ask price for each base token. */
  function BidAsk(bid: SpotPrice, ask: SpotPrice): Quoter {
    (baseToken, quantity, buy) => PreciseMul(quantity, if buy then ask(baseToken) else bid(baseToken))
  }

  /** What the units of a quantity are worth, scaled twice: longs at what they cost, shorts at what they bring. */
  function UnitsWorth(positions: seq<UnitPosition>, setQuantity: nat, bid: SpotPrice, ask: SpotPrice): int {
    if positions == [] then 0 else
    var last := positions[|positions| - 1];
    UnitsWorth(positions[..|positions| - 1], setQuantity, bid, ask)
    + last.baseUnit * setQuantity * (if last.baseUnit >= 0 then ask(last.baseToken) else bid(last.baseToken))
  }

  /** One base unit and one quote unit for each position, scaled twice. */
  function UnitsDust(positions: seq<UnitPosition>, bid: SpotPrice, ask: SpotPrice): int {
    if positions == [] then 0 else
    var last := positions[|positions| - 1];
    UnitsDust(positions[..|positions| - 1], bid, ask)
    + PRECISE_UNIT * (PRECISE_UNIT + (if last.baseUnit >= 0 then ask(last.baseToken) else bid(last.baseToken)))
  }

  /** Without slippage the trades cost what the units are worth. */
  lemma {:induction false} TradeCostIsWorth(positions: seq<UnitPosition>, setQuantity: nat, bid: SpotPrice,
                                            ask: SpotPrice)
    ensures Abs(TradeCost(positions, setQuantity, BidAsk(bid, ask)) * PRECISE_UNIT * PRECISE_UNIT
                - UnitsWorth(positions, setQuantity, bid, ask))
         <= UnitsDust(positions, bid, ask)
  {
    if positions != [] {
      var last, rest := positions[|positions| - 1], positions[..|positions| - 1];
      TradeCostIsWorth(rest, setQuantity, bid, ask);
      OneTradeIsWorth(last, setQuantity, bid, ask);
    }
  }

  lemma OneTradeIsWorth(position: UnitPosition, setQuantity: nat, bid: SpotPrice, ask: SpotPrice)
    ensures var notional := PreciseMul(position.baseUnit, setQuantity);
            var quote := BidAsk(bid, ask);
            var cost := if notional >= 0 then quote(position.baseToken, notional, true)
                        else -quote(position.baseToken, -notional, false);
            var price := if position.baseUnit >= 0 then ask(position.baseToken) else bid(position.baseToken);
            Abs(cost * PRECISE_UNIT * PRECISE_UNIT - position.baseUnit * setQuantity * price)
            <= PRECISE_UNIT * (PRECISE_UNIT + price)
  {
    var unit := position.baseUnit;
    var notional := PreciseMul(unit, setQuantity);
    var price := if unit >= 0 then ask(position.baseToken) else bid(position.baseToken);
    PreciseMulSign(unit, setQuantity);
    TwoProducts(Abs(unit), setQuantity, price);
    SignedTriple(unit, setQuantity, price);
    if notional == 0 {
      FloorUnique(0, PRECISE_UNIT, 0);
      assert PreciseMul(0, price) == 0 == PreciseMul(0, ask(position.baseToken));
    }
  }

  lemma SignedTriple(unit: int, quantity: nat, price: nat)
    ensures unit * quantity * price
         == if unit >= 0 then Abs(unit) * quantity * price else -(Abs(unit) * quantity * price)
  {
    MulNegates(unit, quantity);
    MulNegates(unit * quantity, price);
  }

  /** A product rounded down twice. */
  lemma TwoProducts(unit: nat, quantity: nat, price: nat)
    ensures var x := PreciseMul(unit * quantity / PRECISE_UNIT, price);
            0 <= unit * quantity * price - x * PRECISE_UNIT * PRECISE_UNIT <= PRECISE_UNIT * (PRECISE_UNIT + price)
  {
    var n := unit * quantity / PRECISE_UNIT;
    FloorBounds(unit * quantity, PRECISE_UNIT);
    FloorGalois(unit * quantity, PRECISE_UNIT, 0);
    FloorBounds(n * price, PRECISE_UNIT);
    MulMono(n * PRECISE_UNIT, unit * quantity, price);
    MulMono(unit * quantity, (n + 1) * PRECISE_UNIT, price);
    assert n * PRECISE_UNIT * price == n * price * PRECISE_UNIT;
    assert (n + 1) * PRECISE_UNIT * price == n * price * PRECISE_UNIT + PRECISE_UNIT * price;
  }

  // ----- transfer out -----

  function CloseRatio(baseBalance: int, totalSupply: int, setQuantity: int): int
    requires totalSupply != 0 && baseBalance != 0
  {
    PreciseDiv(Abs(ShareOf(baseBalance, totalSupply, setQuantity)), Abs(baseBalance))
  }

  function ReducedOpenNotional(position: NotionalPosition, totalSupply: int, setQuantity: int): int
    requires totalSupply != 0 && position.baseBalance != 0
  {
    PreciseMul(position.quoteBalance, CloseRatio(position.baseBalance, totalSupply, setQuantity))
  }

  predicate AllOpen(positions: seq<NotionalPosition>) {
    forall i :: 0 <= i < |positions| ==> positions[i].baseBalance != 0
  }

  /** What closing one position for its redeemed share realises. */
  function RealizedBy(position: NotionalPosition, totalSupply: int, setQuantity: int, quote: Quoter): int
    requires totalSupply != 0 && position.baseBalance != 0
  {
    var closed := Abs(ShareOf(position.baseBalance, totalSupply, setQuantity));
    var reduced := ReducedOpenNotional(position, totalSupply, setQuantity);
    if PreciseDiv(position.baseBalance, totalSupply) >= 0 then
      reduced + quote(position.baseToken, closed, false)
    else
      reduced - quote(position.baseToken, closed, true)
  }

  function RealizedPnl(positions: seq<NotionalPosition>, totalSupply: int, setQuantity: int, quote: Quoter): int
    requires totalSupply != 0 && AllOpen(positions)
  {
    if positions == [] then 0 else
    var last := positions[|positions| - 1];
    RealizedPnl(positions[..|positions| - 1], totalSupply, setQuantity, quote)
    + RealizedBy(last, totalSupply, setQuantity, quote)
  }

  /** What the redeemed share of the account comes to: its collateral and what closing its positions realises. */
  function Worth(account: AccountInfo, positions: seq<NotionalPosition>, totalSupply: int, setQuantity: int,
                 quote: Quoter, includeFunding: bool): int
    requires totalSupply != 0 && AllOpen(positions)
  {
    CollateralShare(account.(netQuoteBalance := 0), totalSupply, setQuantity, includeFunding)
    + RealizedPnl(positions, totalSupply, setQuantity, quote)
  }

  method CalculateUSDCTransferOut(account: AccountInfo, positions: seq<NotionalPosition>, totalSupply: int,
                                  setQuantity: int, quote: Quoter, includeFunding: bool)
    returns (usdcAmountOut: Option<int>)
    ensures usdcAmountOut == None <==> totalSupply == 0 || !AllOpen(positions)
    ensures usdcAmountOut.Some? ==>
              usdcAmountOut.value == Abs(Worth(account, positions, totalSupply, setQuantity, quote, includeFunding))
  {
    var totalRealizedPnl := 0;
    var totalCollateralBalance := account.collateralBalance + account.owedRealizedPnl;
    if includeFunding {
      totalCollateralBalance := totalCollateralBalance + account.pendingFundingPayments;
    }
    if totalSupply == 0 {
      return None;
    }
    var collateralPositionUnit := PreciseDiv(totalCollateralBalance, totalSupply);
    var collateralQuantityNotional := PreciseMul(collateralPositionUnit, setQuantity);
    for i := 0 to |positions|
      invariant AllOpen(positions[..i])
      invariant totalRealizedPnl == RealizedPnl(positions[..i], totalSupply, setQuantity, quote)
    {
      var position := positions[i];
      if position.baseBalance == 0 {
        return None;
      }
      var basePositionUnit := PreciseDiv(position.baseBalance, totalSupply);
      var baseTradeQuantityNotional := PreciseMul(basePositionUnit, setQuantity);
      var isLong := basePositionUnit >= 0;
      var closeRatio := PreciseDiv(Abs(baseTradeQuantityNotional), Abs(position.baseBalance));
      var reducedOpenNotional := PreciseMul(position.quoteBalance, closeRatio);
      var deltaQuote := quote(position.baseToken, Abs(baseTradeQuantityNotional), !isLong);
      var realizedPnl := if isLong then reducedOpenNotional + deltaQuote else reducedOpenNotional - deltaQuote;
      totalRealizedPnl := totalRealizedPnl + realizedPnl;
      assert positions[..i + 1][..i] == positions[..i];
    }
    assert positions[..|positions|] == positions;
    usdcAmountOut := Some(Abs(collateralQuantityNotional + totalRealizedPnl));
  }

  /** The close ratio is a fraction no larger than the redeemed share of the supply, and no more of the open
      notional is released. */
  lemma TransferOutBounds(position: NotionalPosition, totalSupply: nat, setQuantity: nat)
    requires 0 < totalSupply && setQuantity <= totalSupply && position.baseBalance != 0
    ensures var ratio := CloseRatio(position.baseBalance, totalSupply, setQuantity);
            var reduced := ReducedOpenNotional(position, totalSupply, setQuantity);
            && 0 <= ratio <= PRECISE_UNIT && ratio * totalSupply <= PRECISE_UNIT * setQuantity
            && (position.quoteBalance >= 0 ==> 0 <= reduced <= position.quoteBalance)
            && (position.quoteBalance <= 0 ==> position.quoteBalance <= reduced <= 0)
            && Abs(reduced) * totalSupply <= Abs(position.quoteBalance) * setQuantity
  {
    var held, closed := Abs(position.baseBalance), Abs(ShareOf(position.baseBalance, totalSupply, setQuantity));
    ShareBounds(position.baseBalance, totalSupply, setQuantity);
    var ratio := CloseRatio(position.baseBalance, totalSupply, setQuantity);
    var reduced := ReducedOpenNotional(position, totalSupply, setQuantity);
    FloorBounds(closed * PRECISE_UNIT, held);
    FractionWithinShare(closed, held, ratio, totalSupply, setQuantity, PRECISE_UNIT);
    PreciseMulSign(position.quoteBalance, ratio);
    var quote := Abs(position.quoteBalance);
    FractionOfAmount(quote, ratio, Abs(reduced), totalSupply, setQuantity, PRECISE_UNIT);
  }

  /** The quotes a redeem trades at: received for closed longs, paid for closed shorts. */
  function SignedQuotes(positions: seq<NotionalPosition>, totalSupply: int, setQuantity: int, quote: Quoter): int
    requires totalSupply != 0
  {
    if positions == [] then 0 else
    var last := positions[|positions| - 1];
    var closed := Abs(ShareOf(last.baseBalance, totalSupply, setQuantity));
    SignedQuotes(positions[..|positions| - 1], totalSupply, setQuantity, quote)
    + (if PreciseDiv(last.baseBalance, totalSupply) >= 0
       then quote(last.baseToken, closed, false)
       else -quote(last.baseToken, closed, true))
  }

  /** Only the quotes for the share of each base balance matter, sold for a long and bought for a short. */
  lemma {:induction false} SignedQuotesAsked(positions: seq<NotionalPosition>, totalSupply: int, setQuantity: int,
                                             quote: Quoter, other: Quoter)
    requires totalSupply != 0 && AllOpen(positions)
    requires forall i :: 0 <= i < |positions| ==>
               var closed := Abs(ShareOf(positions[i].baseBalance, totalSupply, setQuantity));
               var isLong := PreciseDiv(positions[i].baseBalance, totalSupply) >= 0;
               quote(positions[i].baseToken, closed, !isLong) == other(positions[i].baseToken, closed, !isLong)
    ensures SignedQuotes(positions, totalSupply, setQuantity, quote)
         == SignedQuotes(positions, totalSupply, setQuantity, other)
    ensures RealizedPnl(positions, totalSupply, setQuantity, quote)
         == RealizedPnl(positions, totalSupply, setQuantity, other)
  {
    if positions != [] {
      var rest := positions[..|positions| - 1];
      assert forall i :: 0 <= i < |rest| ==> rest[i] == positions[i];
      SignedQuotesAsked(rest, totalSupply, setQuantity, quote, other);
    }
  }

  /** What the share of the base balances is worth, scaled: longs at what they bring, shorts at what they cost. */
  function BalancesWorth(positions: seq<NotionalPosition>, setQuantity: nat, bid: SpotPrice, ask: SpotPrice): int {
    if positions == [] then 0 else
    var last := positions[|positions| - 1];
    BalancesWorth(positions[..|positions| - 1], setQuantity, bid, ask)
    + last.baseBalance * setQuantity * (if last.baseBalance >= 0 then bid(last.baseToken) else ask(last.baseToken))
      * PRECISE_UNIT
  }

  function BalancesDust(positions: seq<NotionalPosition>, totalSupply: nat, setQuantity: nat, bid: SpotPrice,
                        ask: SpotPrice): int
  {
    if positions == [] then 0 else
    var last := positions[|positions| - 1];
    var price := if last.baseBalance >= 0 then bid(last.baseToken) else ask(last.baseToken);
    BalancesDust(positions[..|positions| - 1], totalSupply, setQuantity, bid, ask)
    + totalSupply * (PRECISE_UNIT * PRECISE_UNIT + (PRECISE_UNIT + setQuantity) * price)
  }

  /** Without slippage the quotes are what the share of the base balances is worth. */
  lemma {:induction false} SignedQuotesAreWorth(positions: seq<NotionalPosition>, totalSupply: nat, setQuantity: nat,
                                                bid: SpotPrice, ask: SpotPrice)
    requires 0 < totalSupply && setQuantity <= totalSupply
    ensures Abs(SignedQuotes(positions, totalSupply, setQuantity, BidAsk(bid, ask))
                * totalSupply * (PRECISE_UNIT * PRECISE_UNIT)
                - BalancesWorth(positions, setQuantity, bid, ask))
         <= BalancesDust(positions, totalSupply, setQuantity, bid, ask)
  {
    if positions != [] {
      var last, rest := positions[|positions| - 1], positions[..|positions| - 1];
      SignedQuotesAreWorth(rest, totalSupply, setQuantity, bid, ask);
      OneQuoteIsWorth(last, totalSupply, setQuantity, bid, ask);
      var before := SignedQuotes(rest, totalSupply, setQuantity, BidAsk(bid, ask));
      var all := SignedQuotes(positions, totalSupply, setQuantity, BidAsk(bid, ask));
      MulDistributes(before, all - before, totalSupply);
      MulDistributes(before * totalSupply, (all - before) * totalSupply, PRECISE_UNIT * PRECISE_UNIT);
    }
  }

  lemma OneQuoteIsWorth(position: NotionalPosition, totalSupply: nat, setQuantity: nat, bid: SpotPrice, ask: SpotPrice)
    requires 0 < totalSupply && setQuantity <= totalSupply
    ensures var closed := Abs(ShareOf(position.baseBalance, totalSupply, setQuantity));
            var quote := BidAsk(bid, ask);
            var signed := if PreciseDiv(position.baseBalance, totalSupply) >= 0
                          then quote(position.baseToken, closed, false)
                          else -quote(position.baseToken, closed, true);
            var price := if position.baseBalance >= 0 then bid(position.baseToken) else ask(position.baseToken);
            Abs(signed * totalSupply * (PRECISE_UNIT * PRECISE_UNIT)
                - position.baseBalance * setQuantity * price * PRECISE_UNIT)
            <= totalSupply * (PRECISE_UNIT * PRECISE_UNIT + (PRECISE_UNIT + setQuantity) * price)
  {
    var base := position.baseBalance;
    var closed := Abs(ShareOf(base, totalSupply, setQuantity));
    var price := if base >= 0 then bid(position.baseToken) else ask(position.baseToken);
    ShareBounds(base, totalSupply, setQuantity);
    PreciseDivSign(base, totalSupply);
    var quoted := PreciseMul(closed, price);
    FloorBounds(closed * price, PRECISE_UNIT);
    QuotedShare(Abs(base), closed, quoted, totalSupply, setQuantity, price, PRECISE_UNIT);
    SignedTriple(base, setQuantity, price);
    MulNegates(quoted, totalSupply);
    if PreciseDiv(base, totalSupply) == 0 && base < 0 {
      assert ShareOf(base, totalSupply, setQuantity) == 0;
      FloorUnique(0, PRECISE_UNIT, 0);
      assert PreciseMul(0, price) == 0 == PreciseMul(0, bid(position.baseToken));
    }
  }

  lemma QuotedShare(held: nat, closed: nat, quoted: int, s: nat, q: nat, price: nat, one: nat)
    requires s > 0 && one > 0 && closed * s <= held * q
    requires (held * q - (closed + 1) * s) * one < q * s
    requires quoted * one <= closed * price < (quoted + 1) * one
    ensures 0 <= held * q * price * one - quoted * s * (one * one) <= s * (one * one + (one + q) * price)
  {
    MulMono(quoted * one, closed * price, s * one);
    MulMono(closed * price, (quoted + 1) * one, s * one);
    MulMono(closed * s, held * q, price * one);
    MulMono((held * q - (closed + 1) * s) * one, q * s, price);
    QuotedProduct(quoted, s, one);
    ClosedProduct(held, closed, s, q, price, one);
    HeldProduct(held * q, closed + 1, s, price, one);
    MulDistributes(closed, 1, s * (price * one));
    MulDistributes(one, q, price);
  }

  lemma QuotedProduct(quoted: int, s: int, one: int)
    ensures quoted * one * (s * one) == quoted * s * (one * one)
    ensures (quoted + 1) * one * (s * one) == quoted * s * (one * one) + s * (one * one)
  {
  }

  lemma ClosedProduct(held: int, closed: int, s: int, q: int, price: int, one: int)
    ensures closed * price * (s * one) == closed * s * (price * one)
    ensures held * q * (price * one) == held * q * price * one
    ensures s * (one * one + (one + q) * price) == s * (one * one) + s * (price * one) + q * s * price
  {
  }

  lemma HeldProduct(exact: int, shares: int, s: int, price: int, one: int)
    ensures (exact - shares * s) * one * price == exact * price * one - shares * (s * (price * one))
    ensures (shares - 1) * s * (price * one) == (shares - 1) * (s * (price * one))
  {
  }

  function OpenNotional(positions: seq<NotionalPosition>): nat {
    if positions == [] then 0 else
    OpenNotional(positions[..|positions| - 1]) + Abs(positions[|positions| - 1].quoteBalance)
  }

  /** Over the whole loop, what is realised beyond the quotes is at most the redeemed share of the open notional. */
  lemma {:induction false} RealizedPnlBounds(positions: seq<NotionalPosition>, totalSupply: nat, setQuantity: nat,
                                             quote: Quoter)
    requires 0 < totalSupply && setQuantity <= totalSupply && AllOpen(positions)
    ensures var released := RealizedPnl(positions, totalSupply, setQuantity, quote)
                            - SignedQuotes(positions, totalSupply, setQuantity, quote);
            Abs(released) * totalSupply <= OpenNotional(positions) * setQuantity
  {
    if positions != [] {
      var last, rest := positions[|positions| - 1], positions[..|positions| - 1];
      RealizedPnlBounds(rest, totalSupply, setQuantity, quote);
      TransferOutBounds(last, totalSupply, setQuantity);
      var before := RealizedPnl(rest, totalSupply, setQuantity, quote)
                    - SignedQuotes(rest, totalSupply, setQuantity, quote);
      AbsAdds(before, ReducedOpenNotional(last, totalSupply, setQuantity), totalSupply,
              OpenNotional(rest), Abs(last.quoteBalance), setQuantity);
    }
  }

  lemma AbsAdds(x: int, y: int, s: nat, a: nat, b: nat, q: nat)
    requires Abs(x) * s <= a * q && Abs(y) * s <= b * q
    ensures Abs(x + y) * s <= (a + b) * q
  {
  }

  // ----- when the transfer out is what the share is worth -----

  /** What a redeemer is owed: the worth of the share, and nothing from an account that owes more than it holds. */
  function Owed(worth: int): nat {
    if worth > 0 then worth else 0
  }

  function NetOpen(positions: seq<NotionalPosition>): int {
    if positions == [] then 0 else
    NetOpen(positions[..|positions| - 1]) + positions[|positions| - 1].quoteBalance
  }

  /** What three roundings can keep of a released notional, times the supply. */
  function RoundingDust(open: nat, held: nat, totalSupply: nat, setQuantity: nat): int
    requires held > 0
  {
    totalSupply + CeilDiv(open * totalSupply * (PRECISE_UNIT + setQuantity + held), PRECISE_UNIT * held)
  }

  /** What is kept of one position's: no more than its whole share. */
  function Dust(position: NotionalPosition, totalSupply: nat, setQuantity: nat): int
    requires position.baseBalance != 0
  {
    var share := Abs(position.quoteBalance) * setQuantity;
    var rounding := RoundingDust(Abs(position.quoteBalance), Abs(position.baseBalance), totalSupply, setQuantity);
    if rounding < share then rounding else share
  }

  /** The dust of the positions that owe quote, or of those that are owed it. */
  function TotalDust(positions: seq<NotionalPosition>, totalSupply: nat, setQuantity: nat, owing: bool): int
    requires AllOpen(positions)
  {
    if positions == [] then 0 else
    var last := positions[|positions| - 1];
    TotalDust(positions[..|positions| - 1], totalSupply, setQuantity, owing)
    + (if (last.quoteBalance < 0) == owing then Dust(last, totalSupply, setQuantity) else 0)
  }

  /** In magnitude, the closed base is two floors of the balance's share, the ratio a floor of it to the balance,
      and the released notional a floor at that ratio. */
  lemma ReleasedIsFloors(position: NotionalPosition, totalSupply: nat, setQuantity: nat, k: int)
    requires 0 < totalSupply && setQuantity <= totalSupply && position.baseBalance != 0
    ensures var open, held := Abs(position.quoteBalance), Abs(position.baseBalance);
            var closed := held * PRECISE_UNIT / totalSupply * setQuantity / PRECISE_UNIT;
            k <= Abs(ReducedOpenNotional(position, totalSupply, setQuantity))
            <==> k * PRECISE_UNIT <= open * (closed * PRECISE_UNIT / held)
  {
    var held := Abs(position.baseBalance);
    var ratio := CloseRatio(position.baseBalance, totalSupply, setQuantity);
    PreciseDivSign(position.baseBalance, totalSupply);
    PreciseMulSign(PreciseDiv(position.baseBalance, totalSupply), setQuantity);
    assert 0 <= ratio by { TransferOutBounds(position, totalSupply, setQuantity); }
    PreciseMulSign(position.quoteBalance, ratio);
    FloorGalois(Abs(position.quoteBalance) * ratio, PRECISE_UNIT, k);
  }

  /** A position releases its exact share of the notional but for the dust, on the side of zero. */
  lemma ReleasedBounds(position: NotionalPosition, totalSupply: nat, setQuantity: nat)
    requires 0 < totalSupply && setQuantity <= totalSupply && position.baseBalance != 0
    ensures var missed := ReducedOpenNotional(position, totalSupply, setQuantity) * totalSupply
                          - position.quoteBalance * setQuantity;
            && (position.quoteBalance >= 0 ==> -Dust(position, totalSupply, setQuantity) <= missed <= 0)
            && (position.quoteBalance <= 0 ==> 0 <= missed <= Dust(position, totalSupply, setQuantity))
  {
    TransferOutBounds(position, totalSupply, setQuantity);
    ReleasedMagnitude(position, totalSupply, setQuantity);
    SignedMisses(ReducedOpenNotional(position, totalSupply, setQuantity), position.quoteBalance, totalSupply,
                 setQuantity);
  }

  lemma ReleasedMagnitude(position: NotionalPosition, totalSupply: nat, setQuantity: nat)
    requires 0 < totalSupply && setQuantity <= totalSupply && position.baseBalance != 0
    ensures var reduced := Abs(ReducedOpenNotional(position, totalSupply, setQuantity));
            var open, held := Abs(position.quoteBalance), Abs(position.baseBalance);
            open * setQuantity - reduced * totalSupply <= RoundingDust(open, held, totalSupply, setQuantity)
  {
    var held, closed := Abs(position.baseBalance), Abs(ShareOf(position.baseBalance, totalSupply, setQuantity));
    var open, reduced := Abs(position.quoteBalance), Abs(ReducedOpenNotional(position, totalSupply, setQuantity));
    var ratio := CloseRatio(position.baseBalance, totalSupply, setQuantity);
    ShareBounds(position.baseBalance, totalSupply, setQuantity);
    assert 0 <= ratio == closed * PRECISE_UNIT / held by {
      TransferOutBounds(position, totalSupply, setQuantity);
    }
    PreciseMulSign(position.quoteBalance, ratio);
    assert reduced == open * ratio / PRECISE_UNIT;
    FloorsLeaveDust(held, closed, ratio, open, reduced, totalSupply, setQuantity);
  }

  lemma FloorsLeaveDust(held: nat, closed: nat, ratio: nat, open: nat, reduced: nat, s: nat, q: nat)
    requires s > 0 && held > 0
    requires (held * q - (closed + 1) * s) * PRECISE_UNIT < q * s
    requires ratio == closed * PRECISE_UNIT / held && reduced == open * ratio / PRECISE_UNIT
    ensures open * q - reduced * s <= RoundingDust(open, held, s, q)
  {
    FloorBounds(closed * PRECISE_UNIT, held);
    FloorBounds(open * ratio, PRECISE_UNIT);
    ThreeFloors(held, closed, ratio, open, reduced, s, q, PRECISE_UNIT);
    DustCovers(open * q - reduced * s, s, open * s * (PRECISE_UNIT + q + held), PRECISE_UNIT * held);
  }

  lemma SignedMisses(reduced: int, open: int, s: nat, q: nat)
    requires (open >= 0 ==> reduced >= 0) && (open <= 0 ==> reduced <= 0)
    ensures reduced * s - open * q
         == if open >= 0 then -(Abs(open) * q - Abs(reduced) * s) else Abs(open) * q - Abs(reduced) * s
    ensures 0 <= Abs(reduced) * s
  {
    MulNegates(reduced, s);
    MulNegates(open, q);
  }

  /** The share of the base, the close ratio and the reduced notional, each rounded down from the one before. */
  lemma ThreeFloors(held: nat, closed: nat, ratio: nat, open: nat, reduced: nat, s: nat, q: nat, one: nat)
    requires s > 0 && one > 0 && held > 0
    requires (held * q - (closed + 1) * s) * one < q * s
    requires closed * one < (ratio + 1) * held
    requires open * ratio < (reduced + 1) * one
    ensures (open * q - reduced * s) * (one * held) < open * s * (one + q + held) + one * held * s
  {
    MulMono((held * q - (closed + 1) * s) * one, q * s, open);
    MulMono(closed * one, (ratio + 1) * held, open * s);
    assert (open * ratio) * (s * held) < (reduced + 1) * one * (s * held) by {
      MulMono(open * ratio + 1, (reduced + 1) * one, s * held);
      MulDistributes(open * ratio, 1, s * held);
      MulMono(1, held, s);
    }
    ShareProduct(held, closed, open, s, q, one);
    RatioProduct(held, closed, ratio, open, s, one);
    NotionalProduct(held, ratio, open, reduced, s, q, one);
  }

  lemma ShareProduct(held: int, closed: int, open: int, s: int, q: int, one: int)
    ensures (held * q - (closed + 1) * s) * one * open
         == open * q * (one * held) - open * s * (closed * one) - open * s * one
    ensures q * s * open == open * s * q
  {
  }

  lemma RatioProduct(held: int, closed: int, ratio: int, open: int, s: int, one: int)
    ensures closed * one * (open * s) == open * s * (closed * one)
    ensures (ratio + 1) * held * (open * s) == open * ratio * (s * held) + open * s * held
  {
  }

  lemma NotionalProduct(held: int, ratio: int, open: int, reduced: int, s: int, q: int, one: int)
    ensures (reduced + 1) * one * (s * held) == reduced * s * (one * held) + one * held * s
    ensures (open * q - reduced * s) * (one * held) == open * q * (one * held) - reduced * s * (one * held)
    ensures open * s * (one + q + held) == open * s * one + open * s * q + open * s * held
  {
  }

  lemma DustCovers(missed: int, s: nat, amount: nat, d: nat)
    requires d > 0 && missed * d < amount + d * s
    ensures missed <= s + CeilDiv(amount, d)
  {
    MulDistributes(missed - s, s, d);
    CeilBounds(amount, d);
    MulCancel(missed - s, CeilDiv(amount, d), d);
  }

  /** Over the whole loop, what is realised beyond the quotes is the redeemed share of the net open notional: short
      of it by the dust of what is owed to the account at most, and beyond it by the dust of what the account owes. */
  lemma {:induction false} RealizedPnlNear(positions: seq<NotionalPosition>, totalSupply: nat, setQuantity: nat,
                                           quote: Quoter)
    requires 0 < totalSupply && setQuantity <= totalSupply && AllOpen(positions)
    ensures var released := RealizedPnl(positions, totalSupply, setQuantity, quote)
                            - SignedQuotes(positions, totalSupply, setQuantity, quote);
            -TotalDust(positions, totalSupply, setQuantity, false)
            <= released * totalSupply - NetOpen(positions) * setQuantity
            <= TotalDust(positions, totalSupply, setQuantity, true)
  {
    if positions != [] {
      var last, rest := positions[|positions| - 1], positions[..|positions| - 1];
      RealizedPnlNear(rest, totalSupply, setQuantity, quote);
      ReleasedBounds(last, totalSupply, setQuantity);
      var before := RealizedPnl(rest, totalSupply, setQuantity, quote)
                    - SignedQuotes(rest, totalSupply, setQuantity, quote);
      MulDistributes(before, ReducedOpenNotional(last, totalSupply, setQuantity), totalSupply);
      MulDistributes(NetOpen(rest), last.quoteBalance, setQuantity);
    }
  }

  /** A share is worth its collateral, the quotes and its part of the net open notional, but for the dust on each
      side; so that is also what an account paid what it is owed is paid. */
  lemma WorthNear(account: AccountInfo, positions: seq<NotionalPosition>, totalSupply: nat, setQuantity: nat,
                  quote: Quoter, includeFunding: bool)
    requires 0 < totalSupply && setQuantity <= totalSupply && AllOpen(positions)
    ensures var worth := Worth(account, positions, totalSupply, setQuantity, quote, includeFunding);
            var known := CollateralShare(account.(netQuoteBalance := 0), totalSupply, setQuantity, includeFunding)
                         + SignedQuotes(positions, totalSupply, setQuantity, quote);
            var value := known * totalSupply + NetOpen(positions) * setQuantity;
            && value - TotalDust(positions, totalSupply, setQuantity, false) <= worth * totalSupply
            && worth * totalSupply <= value + TotalDust(positions, totalSupply, setQuantity, true)
            && (value >= TotalDust(positions, totalSupply, setQuantity, false) ==> Abs(worth) == worth)
  {
    var worth := Worth(account, positions, totalSupply, setQuantity, quote, includeFunding);
    var known := CollateralShare(account.(netQuoteBalance := 0), totalSupply, setQuantity, includeFunding)
                 + SignedQuotes(positions, totalSupply, setQuantity, quote);
    RealizedPnlNear(positions, totalSupply, setQuantity, quote);
    var released := RealizedPnl(positions, totalSupply, setQuantity, quote)
                    - SignedQuotes(positions, totalSupply, setQuantity, quote);
    assert worth == known + released;
    MulDistributes(known, released, totalSupply);
    SignOfProduct(worth, totalSupply);
  }

  /** The absolute value is what is owed when collateral, quotes and the share of the net open notional cover the dust
      of what is owed to the account, and it is not when they fall short by more than the dust of what it owes. */
  lemma TransferOutOwed(account: AccountInfo, positions: seq<NotionalPosition>, totalSupply: nat, setQuantity: nat,
                        quote: Quoter, includeFunding: bool)
    requires 0 < totalSupply && setQuantity <= totalSupply && AllOpen(positions)
    ensures var worth := Worth(account, positions, totalSupply, setQuantity, quote, includeFunding);
            var known := CollateralShare(account.(netQuoteBalance := 0), totalSupply, setQuantity, includeFunding)
                         + SignedQuotes(positions, totalSupply, setQuantity, quote);
            var value := known * totalSupply + NetOpen(positions) * setQuantity;
            && (value >= TotalDust(positions, totalSupply, setQuantity, false) ==> Abs(worth) == Owed(worth))
            && (value < -TotalDust(positions, totalSupply, setQuantity, true) ==> Abs(worth) != Owed(worth))
  {
    WorthNear(account, positions, totalSupply, setQuantity, quote, includeFunding);
    SignOfProduct(Worth(account, positions, totalSupply, setQuantity, quote, includeFunding), totalSupply);
  }

  lemma SignOfProduct(x: int, s: nat)
    requires s > 0
    ensures x * s >= 0 <==> x >= 0
  {
  }

  function FlatQuote(baseToken: int, quantity: int, buy: bool): int {
    5 * PRECISE_UNIT
  }

  /** One long bought at twenty and closed at five, with ten of collateral: five are missing, and five are paid out. */
  lemma UnderwaterTransferOut()
    ensures var account := AccountInfo(10 * PRECISE_UNIT, 0, 0, 0);
            var position := NotionalPosition(0, PRECISE_UNIT, -20 * PRECISE_UNIT);
            var worth := Worth(account, [position], PRECISE_UNIT, PRECISE_UNIT, FlatQuote, true);
            Owed(worth) == 0 && Abs(worth) == 5 * PRECISE_UNIT
  {
    var account := AccountInfo(10 * PRECISE_UNIT, 0, 0, 0);
    var position := NotionalPosition(0, PRECISE_UNIT, -20 * PRECISE_UNIT);
    assert [position][..0] == [];
    assert ShareOf(PRECISE_UNIT, PRECISE_UNIT, PRECISE_UNIT) == PRECISE_UNIT;
    assert RealizedBy(position, PRECISE_UNIT, PRECISE_UNIT, FlatQuote) == -15 * PRECISE_UNIT;
    assert RealizedPnl([position], PRECISE_UNIT, PRECISE_UNIT, FlatQuote) == -15 * PRECISE_UNIT;
    assert CollateralShare(account, PRECISE_UNIT, PRECISE_UNIT, true) == 10 * PRECISE_UNIT;
  }

  /** Without open positions, as after a liquidation, the transfer is what is owed exactly when the account is not
      under water, or too little so for the redeemed share of it to show. */
  lemma LiquidatedTransferOutIff(account: AccountInfo, totalSupply: nat, setQuantity: nat, quote: Quoter,
                                 includeFunding: bool)
    requires 0 < totalSupply
    ensures var value := account.collateralBalance + account.owedRealizedPnl
                         + (if includeFunding then account.pendingFundingPayments else 0);
            var worth := Worth(account, [], totalSupply, setQuantity, quote, includeFunding);
            Abs(worth) == Owed(worth)
            <==> value >= 0 || Abs(value) * PRECISE_UNIT / totalSupply * setQuantity < PRECISE_UNIT
  {
    var value := account.collateralBalance + account.owedRealizedPnl
                 + (if includeFunding then account.pendingFundingPayments else 0);
    PreciseDivSign(value, totalSupply);
    var unit := PreciseDiv(value, totalSupply);
    PreciseMulSign(unit, setQuantity);
  }

  /** A liquidated account owing three times its collateral, as the redemption spec describes it: the transfer is
      not nothing. */
  lemma BankruptTransferOut(quote: Quoter)
    ensures var account := AccountInfo(10_050_000_000_000_000_000, -31_795_534_271_984_084_912, 0, 0);
            var worth := Worth(account, [], 1_005_000_000_000_000_000, 995_000_000_000_000_000, quote, true);
            Owed(worth) == 0 < Abs(worth)
  {
  }

  lemma FractionWithinShare(closed: nat, held: nat, ratio: nat, s: nat, q: nat, one: nat)
    requires held > 0 && closed <= held && ratio * held <= closed * one && closed * s <= held * q
    ensures ratio <= one && ratio * s <= one * q
  {
    RatioTransitive(ratio, one, closed, held, 1, 1);
    RatioTransitive(ratio, one, closed, held, q, s);
  }

  lemma FractionOfAmount(amount: nat, ratio: nat, part: nat, s: nat, q: nat, one: nat)
    requires one > 0 && ratio <= one && ratio * s <= one * q && part * one <= amount * ratio
    ensures part <= amount && part * s <= amount * q
  {
    RatioTransitive(part, amount, ratio, one, 1, 1);
    RatioTransitive(part, amount, ratio, one, q, s);
  }
}
