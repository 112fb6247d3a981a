# Index Protocol accounting, verified

A Dafny model of the integer accounting behind Index Protocol's set tokens: 18-decimal fixed-point arithmetic with
deliberate rounding directions, and the supply, unit, fee and balance updates built on it. Most of the model follows the
repository's TypeScript calculators (`index-protocol/utils/common`) and the flows its integration specs expect of the
contracts. Auction rebalancing and its price adapters follow the Solidity contracts themselves
(`index-protocol/contracts/protocol`).

| file | what it holds |
|---|---|
| `Rounding.dfy` | truncating division, exact floor and ceiling, and the facts about products that proofs share |
| `MathUtils.dfy` | the fixed-point kernel |
| `Shares.dfy` | a holder's share of a pooled amount |
| `FeeModule.dfy` | streaming fees: minted supply and post-fee units, over sub-periods and over runs |
| `NavIssuance.dfy`, `NavRuns.dfy` | issuing and redeeming at net asset value: the calculators, then a fund stepping through them |
| `DebtIssuance.dfy` | issuing and redeeming a set with equity and borrowed components |
| `Uniswap.dfy` | integer square root, pool token minting, staked shares, rebalance sizing |
| `DecimalOrder.dfy`, `UniswapAsWritten.dfy` | the order JavaScript gives big-number objects, and what it does to the pool calculators |
| `PerpV2.dfy`, `SlippageIssuance.dfy` | quote transfers and base positions of sets with perpetual positions |
| `AuctionRebalance.dfy` | bids in a rebalance auction and the position units they leave |
| `PriceAdapters.dfy` | stepwise auction prices through their 256-bit overflow guards |

`dafny verify dfyconfig.toml` checks the whole project.

## How the source is read

- A `BigNumber` is an unbounded integer whose `div` truncates toward zero (`Rounding.TruncDiv`).
- A call that throws because it divides by zero, or because more is burned or paid out than exists, is `None`, or leaves
  the state as it was. A plain calculator asks its caller for a divisor that is not zero.
- Every value read from a contract, every price and every swap quote is a parameter; quotes and prices are arbitrary.
- `uniswapUtils.ts` compares big-number objects with `<`, `>`, `==` and `!=`. The language orders such objects by their
  decimal strings and equates them only with themselves. `Uniswap` reads the comparisons as numeric ones, as
  `mathUtils.min` makes them; `UniswapAsWritten` keeps them literal and proves exactly when the results still hold. The
  literal square root is right for one to nine and for nothing else.
- Checked 256-bit subtractions that would go below zero revert and are `None`; an unchecked conversion between signed and
  unsigned words wraps, and is written out.
- The exponential and the logarithm of the price adapters come from a library that is not part of this model. They are
  arbitrary functions that are monotone and have the right value at zero and at one.

Where the code and the tests around it differ, the model follows the code:

- The slippage issuance spec expects the base unit per token not to move on an issue or a redeem. Rounding can move it:
  `BaseUnitMoves` shows an issue and a redeem that do, `IssueKeepsBaseUnitIff` and `RedeemKeepsBaseUnitIff` say exactly
  when, and `RunDrift` bounds how far any run of orders can.
- The debt issuance spec computes a few equity inflows rounded down and the others rounded up. The contract rounds every
  inflow up (`DebtIssuanceModule.sol:472-480`), and the model with it; `InflowRoundingsAgreeIff` says exactly when the two
  roundings agree.
- `calculateRedemptionData` closes every unit against the first notional position. `FirstPositionMisprices` is a set with
  two markets for which that total is wrong; `FirstPositionIff` says exactly when it is right at every quote, and
  `FirstPositionSuffices` names the balances for which that is plain.
- The transfer-out calculator returns an absolute value, so an account worth less than nothing reads as a payout, where
  the spec expects no transfer from such an account. `BankruptTransferOut` is that spec's account, and
  `UnderwaterTransferOut` one with an open long. `LiquidatedTransferOutIff` says exactly when an account without positions
  is paid what it is owed. With positions, `TransferOutOwed` decides it from the collateral, the quotes and the share of
  the net open notional, on either side of what three roundings a position can keep of it.
- A quantity after fees is not monotone in the quantity (`PostFeeNotMonotone`); it is exactly when at most one of the two
  fees is charged (`PostFeeMonotoneIff`).
- A rebalance is meant to end at its targets, and a bid can carry a unit past one. The set stores every unit divided by
  its position multiplier and reads it back rounded down: after a bid for everything above a target of ten, nine can be
  left (`WholeBidEndsBelowTarget`), and a bid of nothing can take one more (`EmptyBidLosesOne`). Bids respect every
  target exactly when a whole token is outstanding and the multiplier divides `PRECISE_UNIT` (`NeverCrossesIff`), and one
  target exactly when the multiplier divides the target times `PRECISE_UNIT` or the target cannot be stored
  (`NeverCrossesTargetIff`). `BidsStayNear` bounds how far any run of bids can pass one. The module counts a unit within
  one of its target as met; `WholeBidsMeetIff` says for exactly which multipliers a bid for everything always meets that.
- The headers of the exponential and logarithmic adapters state their formulas without the one that the code takes off the
  exponential and adds to the logarithm's argument. The exponential adapter guards the product before that one is taken
  off, so at the last word it can answer with the boundary too early (`GuardAnswersEarly`, `GuardedIsFormulaIff`). An
  argument above the largest signed word is cast to a negative one, and the call can throw after the price has reached its
  boundary (`WrappedCastThrows`), or give a price near the first one again (`WrappedPriceOutOfOrder`).
  `ExponentialNeverThrowsIff` and `LogarithmNeverThrowsIff` say exactly for which configurations no call throws,
  `ExponentialInOrderIff` and `LogarithmInOrderIff` for which the prices are in order at every elapsed word.

## Model

| member | source | states |
|---|---|---|
| MathUtils.MulGalois | index-protocol/utils/common/mathUtils.ts:5-39 | multiplying down and dividing up are adjoint: the product reaches y exactly from the rounded-up quotient on |
| MathUtils.MulCeilGalois | index-protocol/utils/common/mathUtils.ts:9-31 | multiplying up and dividing down are adjoint |
| MathUtils.RoundTrips | index-protocol/utils/common/mathUtils.ts:5-39 | both round trips return the value they started from for every factor up to one unit |
| MathUtils.RoundTripExactIff | index-protocol/utils/common/mathUtils.ts:5-39 | the first round trip is the identity on all values if and only if the factor is at most one unit |
| MathUtils.DivCeilIsCeil | index-protocol/utils/common/mathUtils.ts:33-39 | on a positive divisor and a dividend that is not negative the predecessor formula is the exact ceiling |
| MathUtils.DivCeilExactIff | index-protocol/utils/common/mathUtils.ts:33-39 | for every pair of signs, exactly when the predecessor formula is the ceiling of the signed quotient |
| MathUtils.MulCeilExactIff | index-protocol/utils/common/mathUtils.ts:9-15 | on signed inputs the unsigned ceiling is exact if and only if the product is not negative or misses a multiple by one |
| MathUtils.MulCeilIntAwayFromZero | index-protocol/utils/common/mathUtils.ts:17-27 | rounds away from zero: sign of the product, exact ceiling of its magnitude |
| MathUtils.DivCeilIntAwayFromZero | index-protocol/utils/common/mathUtils.ts:41-52 | rounds away from zero for every pair of signs |
| MathUtils.DivDownIsFloor | index-protocol/utils/common/mathUtils.ts:54-62 | is the exact floor for every dividend and every nonzero divisor |
| MathUtils.VirtualUnitConservative | index-protocol/test/protocol/setToken.spec.ts:629-630 | a real unit stored as a virtual one and read back never rises, for assets and debts, and the loss is bounded |
| Shares.ShareBounds | index-protocol/utils/common/perpV2Utils.ts:161-167 | a share of a signed amount is on its side, at most the exact share, and within a bounded rounding loss of it |
| Shares.ShareIsTwoFloors | index-protocol/utils/common/perpV2Utils.ts:161-162 | in magnitude a share is the amount per token rounded down, times the quantity rounded down again |
| Shares.SharesWithinWhole | index-protocol/utils/common/uniswapUtils.ts:129-132 | shares of any split of the supply together never exceed the share of their total, nor the amount |
| Shares.SharesMissLittle | index-protocol/utils/common/uniswapUtils.ts:129-132 | together the shares miss the exact share of their total by a bounded amount for each of them |
| FeeModule.StreamingFeeIsFloor | index-protocol/utils/common/feeModuleUtils.ts:18-19 | the fee is the greatest integer within the rate's part of the elapsed year |
| FeeModule.WholeYearTakesRate | index-protocol/utils/common/feeModuleUtils.ts:18-19 | a year of 31557600 seconds takes the whole rate |
| FeeModule.InflationIsLargestWithinFee | index-protocol/utils/common/feeModuleUtils.ts:22-30 | the minted amount is the greatest integer whose share of the enlarged supply is at most the fee |
| FeeModule.CuttingPeriodNeverMintsMore | index-protocol/utils/common/feeModuleUtils.ts:8-30 | accruing at any list of times in a period ends with no more supply than accruing once at its end, with no slack |
| FeeModule.AccrueOnceDivides | index-protocol/utils/common/feeModuleUtils.ts:8-30 | accruing once leaves the greatest supply of which the fee keeps no more than there was |
| FeeModule.AccrueInTurn | index-protocol/utils/common/feeModuleUtils.ts:8-30 | accruing at some times and then at later ones is accruing at all of them |
| FeeModule.GetPostFeePositionUnits | index-protocol/utils/common/feeModuleUtils.ts:32-45 | the loop's result, unit by unit, and that it is one floor for units of either sign |
| FeeModule.PostFeeUnitIsFloorIff | index-protocol/utils/common/feeModuleUtils.ts:37-41 | the two sign branches are one floor if and only if the fee is at most one unit or the product divides |
| FeeModule.OneAccrual | index-protocol/utils/common/feeModuleUtils.ts:22-45 | one accrual divides the supply by what the fee keeps and cuts every unit to that fraction, both rounded down |
| FeeModule.RunIsItsAccruals | index-protocol/utils/common/feeModuleUtils.ts:22-45 | two runs of accruals in turn are one run |
| FeeModule.AssetValueNeverGrows | index-protocol/utils/common/feeModuleUtils.ts:22-45 | one accrual never raises unit times supply of an asset |
| FeeModule.DebtValueLoss | index-protocol/utils/common/feeModuleUtils.ts:22-45 | one accrual understates a debt's total by less than its unit |
| FeeModule.AssetValueOverRun | index-protocol/utils/common/feeModuleUtils.ts:22-45 | over every run of accruals no asset's unit times supply grows |
| FeeModule.DebtValueOverRun | index-protocol/utils/common/feeModuleUtils.ts:22-45 | over every run of n accruals a debt's total is understated by less than n times its unit |
| NavIssuance.PostFeeBounds | index-protocol/utils/common/navIssuanceModuleUtils.ts:77-86 | the post-fee quantity lies within two of the exact value, never below it, and within the quantity |
| NavIssuance.PostFeeDropsAtMostOne | index-protocol/utils/common/navIssuanceModuleUtils.ts:77-86 | a larger quantity leaves at most one less after fees |
| NavIssuance.PostFeeNotMonotone | index-protocol/utils/common/navIssuanceModuleUtils.ts:77-86 | a concrete input on which a larger quantity does leave one less |
| NavIssuance.PostFeeMonotoneIff | index-protocol/utils/common/navIssuanceModuleUtils.ts:77-86 | the quantity after fees is monotone in the quantity if and only if at most one of the two fees is charged |
| NavIssuance.RedeemNotionalIsFloor | index-protocol/utils/common/navIssuanceModuleUtils.ts:96-101 | taking a rounded-up premium off leaves the exact floor of the kept fraction |
| NavIssuance.ReserveTakenOutIsLargest | index-protocol/utils/common/navIssuanceModuleUtils.ts:133-137 | what leaves the set is the greatest amount within the notional after the premium, in the reserve's units |
| NavIssuance.FeesLeaveWithPayout | index-protocol/utils/common/navIssuanceModuleUtils.ts:88-138 | what leaves the set beyond the payout is the two fees on the notional, in the reserve's units and rounded |
| NavIssuance.RealUnitExact | index-protocol/utils/common/navIssuanceModuleUtils.ts:72-74 | real to virtual to real loses exactly the remainder of the virtual unit, in units rounded up |
| NavIssuance.RealUnitBounds | index-protocol/utils/common/navIssuanceModuleUtils.ts:72-74 | real to virtual to real never rounds up and has a tight bound |
| NavIssuance.NewUnitBacked | index-protocol/utils/common/navIssuanceModuleUtils.ts:68-74 | a new unit times the new supply stands for no more than the reserve it accounts for, and for little less |
| NavIssuance.DepositBounds | index-protocol/utils/common/navIssuanceModuleUtils.ts:32-43 | what is left of a deposit after fees, and after fees and premium, is its kept fraction on both sides but for rounding |
| NavIssuance.IssueIsFair | index-protocol/utils/common/navIssuanceModuleUtils.ts:19-50 | the buyer never gets more than the deposit's share, loses a bounded amount, and no holder is diluted |
| NavIssuance.DepositRedeemedNeverProfits | index-protocol/utils/common/navIssuanceModuleUtils.ts:19-107 | a deposit redeemed straight back pays out no more than its remainder after fees and premium, at any valuation the enlarged set can back |
| NavIssuance.OnePart | index-protocol/utils/common/navIssuanceModuleUtils.ts:88-107 | a redeem's payout through its notional and its post-fee quantity, bounded on both sides |
| NavIssuance.SplittingRedeemGainsLittle | index-protocol/utils/common/navIssuanceModuleUtils.ts:77-107 | splitting a redeem into k parts gains at most the worth of 2k - 1 post-fee units |
| NavIssuance.IssueMultiplierBounds | index-protocol/utils/common/navIssuanceModuleUtils.ts:7-17 | multiplier times supply never grows on an issue, and loses little |
| NavIssuance.RedeemMultiplierBounds | index-protocol/utils/common/navIssuanceModuleUtils.ts:109-119 | multiplier times supply never grows on a redeem, and loses little |
| NavRuns.PayoutWithinReserveTaken | index-protocol/utils/common/navIssuanceModuleUtils.ts:88-138 | the redeemer's payout is not negative and at most the reserve taken out |
| NavRuns.StepSupplyAndMultiplier | index-protocol/utils/common/navIssuanceModuleUtils.ts:7-119 | every step leaves positive supply and multiplier, and their product falls by a bounded amount or not at all |
| NavRuns.StepSucceedsIff | index-protocol/utils/common/navIssuanceModuleUtils.ts:19-145 | a call goes through if and only if nothing divides by zero, a token is left, the reserve covers what leaves, and the multiplier does not vanish |
| NavRuns.StepSharesFairly | index-protocol/utils/common/navIssuanceModuleUtils.ts:19-50 | an issue mints the exact quotient of the deposit's share and dilutes no holder, a redeem burns its quantity |
| NavRuns.StepMovesReserve | index-protocol/utils/common/navIssuanceModuleUtils.ts:77-137 | an issue adds the deposit after fees to the reserve, a redeem takes out the greatest amount within the notional after the premium |
| NavRuns.StepIsExact | index-protocol/utils/common/navIssuanceModuleUtils.ts:7-145 | the new multiplier and the new unit exactly, in terms of the supplies and of what is tracked and moved |
| NavRuns.StepKeepsBacking | index-protocol/utils/common/navIssuanceModuleUtils.ts:52-145 | every step keeps the tracked reserve within the reserve held, and accounts for no more than was tracked and moved, and for nearly all of it |
| NavRuns.RunKeepsBacking | index-protocol/utils/common/navIssuanceModuleUtils.ts:7-145 | over every run of issues and redeems the reserve stays backed and multiplier times supply never grows |
| NavRuns.RunIsItsSteps | index-protocol/utils/common/navIssuanceModuleUtils.ts:7-145 | two runs in turn are one, and a run of one call is that call |
| DebtIssuance.NetQuantityBounds | index-protocol/test/integration/perpV2LeverageV2SlippageIssuance.spec.ts:224-235 | the net quantity is at least the quantity on an issue, and between zero and the quantity on a redeem |
| DebtIssuance.NetQuantityIsLargest | index-protocol/test/integration/perpV2LeverageV2SlippageIssuance.spec.ts:224-235 | the net quantity is the greatest within the quantity with the issue fee on top, or with the redeem fee held back |
| DebtIssuance.StepMovesSupply | index-protocol/test/integration/perpV2LeverageV2SlippageIssuance.spec.ts:224-235 | an operation moves the supply by its net quantity, and not at all where it fails |
| DebtIssuance.FlowBounds | index-protocol/contracts/protocol/modules/v1/DebtIssuanceModule.sol:472-480 | each of the four flows is its exact share rounded toward the set by less than one |
| DebtIssuance.InflowRoundingsAgreeIff | index-protocol/test/integration/aaveUniswapLeverageDebtIssuance.spec.ts:716-719 | an equity inflow rounded down and one rounded up agree if and only if the product divides |
| DebtIssuance.DebtIssuanceModule.constructor | index-protocol/test/integration/aaveUniswapLeverageDebtIssuance.spec.ts:330-369 | a set with any supply, balances and debts that fit its terms |
| DebtIssuance.DebtIssuanceModule.Issue | index-protocol/test/integration/aaveUniswapLeverageDebtIssuance.spec.ts:414-438 | the whole new state, the supply's growth as the greatest within the quantity with its fee, and that the minter receives exactly what the set's net assets lose |
| DebtIssuance.DebtIssuanceModule.Redeem | index-protocol/test/integration/aaveUniswapLeverageDebtIssuance.spec.ts:1107-1131 | the whole new state or none beyond the supply, the supply's fall as the greatest within the quantity less its fee, and that the redeemer receives exactly what the set's net assets lose |
| DebtIssuance.StepNeverTakesSurplus | index-protocol/test/integration/aaveUniswapLeverageDebtIssuance.spec.ts:1113-1130 | each operation adds between nothing and one unit to every equity and debt surplus |
| DebtIssuance.RunNeverTakesSurplus | index-protocol/test/integration/aaveUniswapLeverageDebtIssuance.spec.ts:1113-1130 | over any interleaving no surplus shrinks, and n operations add less than n units to it |
| DebtIssuance.RunIsItsSteps | index-protocol/test/integration/aaveUniswapLeverageDebtIssuance.spec.ts:1113-1130 | two runs in turn are one, and a run of one operation is that operation |
| DebtIssuance.RunStaysCollateralised | index-protocol/test/integration/aaveUniswapLeverageDebtIssuance.spec.ts:1206-1225 | a collateralised set stays so over every run and no balance runs dry, with debt signed as after a redeem to zero |
| DebtIssuance.RoundTripNeverProfits | index-protocol/test/integration/aaveUniswapLeverageDebtIssuance.spec.ts:873-901 | any run back to the same supply leaves equity no lower and debt no higher, and costs callers at most one per operation |
| DebtIssuance.IssueThenRedeemNeverProfits | index-protocol/test/integration/aaveUniswapLeverageDebtIssuance.spec.ts:420-437 | issuing then redeeming never profits the caller, and one net quantity loses between zero and one of each asset |
| Uniswap.Sqrt | index-protocol/utils/common/uniswapUtils.ts:145-160 | terminates with the integer square root of every non-negative value |
| Uniswap.LiquidityIsLargestWithinShare | index-protocol/utils/common/uniswapUtils.ts:21-24 | the minted amount is the greatest within the deposit's share on both sides |
| Uniswap.CalculateLPTokensIssued | index-protocol/utils/common/uniswapUtils.ts:8-28 | the first mint is the root less the locked minimum of one thousand, a later one the greatest within its share, an empty reserve throws |
| Uniswap.DepositMintsShare | index-protocol/utils/common/uniswapUtils.ts:21-24 | a deposit adds its amounts to the reserves and mints the greatest amount within its share |
| Uniswap.DepositsNeverDilute | index-protocol/utils/common/uniswapUtils.ts:21-24 | over every run of deposits the reserves behind one pool token never fall, on either side |
| Uniswap.RunIsItsDeposits | index-protocol/utils/common/uniswapUtils.ts:21-24 | two runs in turn are one, and a run of one deposit is that deposit |
| Uniswap.DepositsNeverLowerInvariant | index-protocol/utils/common/uniswapUtils.ts:21-24 | the reserve product per token squared never falls over a run |
| Uniswap.StakersWithinReserves | index-protocol/utils/common/uniswapUtils.ts:118-133 | the tokens attributed to all stakers together stay within the pool's reserves and miss their exact shares by a bounded amount each |
| Uniswap.CalculateRebalanceQuantity | index-protocol/utils/common/uniswapUtils.ts:83-116 | the overweight side by value is sold, the quantity is held, at the exact price the gap left is bounded on both sides, a given quantity overrides |
| DecimalOrder.StringOrderAgreesIff | index-protocol/utils/common/uniswapUtils.ts:162-167 | the order on big-number objects agrees with the numeric one if and only if zero padding keeps the order |
| DecimalOrder.AboveZeroIffPositive | index-protocol/utils/common/uniswapUtils.ts:111-113 | comparing an object with zero is numeric for every integer |
| UniswapAsWritten.MinAsWrittenIff | index-protocol/utils/common/uniswapUtils.ts:162-167 | taken literally, the minimum is right if and only if zero padding keeps the order |
| UniswapAsWritten.CalculateLPTokensIssuedAsWritten | index-protocol/utils/common/uniswapUtils.ts:8-28 | taken literally, an empty pool throws and a mint stays within its share if and only if padding keeps the order |
| UniswapAsWritten.LPTokensAsWrittenCanDilute | index-protocol/utils/common/uniswapUtils.ts:18-25 | a deposit into a pool at the locked minimum is credited with ten tokens where its share is nine |
| UniswapAsWritten.SqrtAsWritten | index-protocol/utils/common/uniswapUtils.ts:145-160 | taken literally, the search ends with the root if and only if the value is one to nine |
| PerpV2.CalculateUSDCTransferIn | index-protocol/utils/common/perpV2Utils.ts:85-130 | the total is the collateral share plus the quotes of longs less those of shorts, whatever the spot prices |
| PerpV2.CollateralShareBounds | index-protocol/utils/common/perpV2Utils.ts:92-105 | only the total of the four balances counts, funding where included, and its share is exact but for a bounded loss |
| PerpV2.TradeCostQuotes | index-protocol/utils/common/perpV2Utils.ts:109-126 | only the quotes for the traded amount matter, bought for a long and sold for a short |
| PerpV2.TradeCostIsWorth | index-protocol/utils/common/perpV2Utils.ts:109-126 | at bid and ask prices the trades cost what the units of the quantity are worth, but for two roundings a position |
| PerpV2.CalculateUSDCTransferOut | index-protocol/utils/common/perpV2Utils.ts:144-187 | the result is the magnitude of what the redeemed share is worth, and when it divides by zero |
| PerpV2.TransferOutBounds | index-protocol/utils/common/perpV2Utils.ts:165-171 | the close ratio and the released notional stay within the redeemed share, for longs and shorts |
| PerpV2.RealizedPnlBounds | index-protocol/utils/common/perpV2Utils.ts:164-184 | over the whole loop, what is realised beyond the quotes is at most the redeemed share of the open notional |
| PerpV2.ReleasedBounds | index-protocol/utils/common/perpV2Utils.ts:165-171 | a position releases its exact share of the notional, toward zero by at most what three roundings keep |
| PerpV2.ReleasedIsFloors | index-protocol/utils/common/perpV2Utils.ts:165-171 | in magnitude the released notional is a floor at the ratio, itself a floor of the closed base |
| PerpV2.RealizedPnlNear | index-protocol/utils/common/perpV2Utils.ts:164-184 | over the whole loop, what is realised beyond the quotes is the share of the net open notional but for the dust on each side |
| PerpV2.SignedQuotesAsked | index-protocol/utils/common/perpV2Utils.ts:173-184 | only the quotes for the share of each balance matter, sold for a long and bought for a short |
| PerpV2.SignedQuotesAreWorth | index-protocol/utils/common/perpV2Utils.ts:173-184 | at bid and ask prices the quotes are what the share of the balances is worth, but for the rounding of each |
| PerpV2.WorthNear | index-protocol/utils/common/perpV2Utils.ts:144-187 | a share is worth its collateral, the quotes and its part of the net open notional but for the dust, and that is what an account that covers the dust is paid |
| PerpV2.TransferOutOwed | index-protocol/utils/common/perpV2Utils.ts:151-187 | the absolute value is what is owed when collateral, quotes and the share of the net open notional cover the dust on one side, and is not when they fall short by more than the dust on the other |
| PerpV2.UnderwaterTransferOut | index-protocol/utils/common/perpV2Utils.ts:151-187 | a long closed far below its entry leaves five missing, and five are paid out |
| PerpV2.LiquidatedTransferOutIff | index-protocol/utils/common/perpV2Utils.ts:151-187 | without positions the transfer is what is owed if and only if the account is not under water or its share rounds to nothing |
| PerpV2.BankruptTransferOut | index-protocol/test/integration/perpV2LeverageV2SlippageIssuance.spec.ts:1332-1348 | a liquidated account owing three times its collateral is not transferred nothing |
| SlippageIssuance.IssueBaseUnitExact | index-protocol/test/integration/perpV2LeverageV2SlippageIssuance.spec.ts:439-451 | the base unit after an issue, exactly, in terms of two remainders |
| SlippageIssuance.BaseUnitIsLargest | index-protocol/test/integration/perpV2LeverageV2SlippageIssuance.spec.ts:439-451 | the base unit is the greatest amount of the base behind each token, on the position's side |
| SlippageIssuance.RedeemBaseUnitExact | index-protocol/test/integration/perpV2LeverageV2SlippageIssuance.spec.ts:1051-1063 | the base unit after a redeem, exactly, in terms of two remainders |
| SlippageIssuance.IssueKeepsBaseUnitIff | index-protocol/test/integration/perpV2LeverageV2SlippageIssuance.spec.ts:411-423 | an issue keeps the base unit if and only if the unit's remainder covers the trade's |
| SlippageIssuance.RedeemKeepsBaseUnitIff | index-protocol/test/integration/perpV2LeverageV2SlippageIssuance.spec.ts:1024-1036 | a redeem keeps the base unit if and only if both remainders together fit under the remaining supply |
| SlippageIssuance.BaseUnitMoves | index-protocol/test/integration/perpV2LeverageV2SlippageIssuance.spec.ts:411-423 | an issue and a redeem after which the base unit is another one |
| SlippageIssuance.RedeemsNeverThinPosition | index-protocol/test/integration/perpV2LeverageV2SlippageIssuance.spec.ts:1051-1063 | over every run of redeems the base behind a remaining token never shrinks and the position keeps its side |
| SlippageIssuance.RedeemAllInTurn | index-protocol/test/integration/perpV2LeverageV2SlippageIssuance.spec.ts:1051-1063 | two runs of redeems in turn are one, and a run of one sells its share or fails |
| SlippageIssuance.StepDrift | index-protocol/test/integration/perpV2LeverageV2SlippageIssuance.spec.ts:439-451 | an issue only thins the base behind each token and a redeem only thickens it, both by less than the dust of two roundings |
| SlippageIssuance.RunDrift | index-protocol/test/integration/perpV2LeverageV2SlippageIssuance.spec.ts:1051-1063 | over every run of issues and redeems the base behind each token drifts by at most the weight of the orders over the least supply |
| SlippageIssuance.RunIsItsOrders | index-protocol/test/integration/perpV2LeverageV2SlippageIssuance.spec.ts:1051-1063 | two runs in turn are one, and a run of one order is that order |
| SlippageIssuance.FeeAdjustedTransferBounds | index-protocol/test/integration/perpV2LeverageV2SlippageIssuance.spec.ts:189-191 | the adjusted transfer never exceeds the transfer and misses it by little |
| SlippageIssuance.FeeAdjustedTransferExact | index-protocol/test/integration/perpV2LeverageV2SlippageIssuance.spec.ts:189-191 | the adjusted transfer loses exactly the remainder of the unit per token, in whole units rounded up |
| SlippageIssuance.RealizedUSDCBounds | index-protocol/test/integration/perpV2LeverageV2SlippageIssuance.spec.ts:195-216 | rounding each unit's result on its own moves the realised total by less than one per unit |
| SlippageIssuance.CalculateRedemptionData | index-protocol/test/integration/perpV2LeverageV2SlippageIssuance.spec.ts:184-222 | the adjusted transfer and the total realised against the first position, and when it throws |
| SlippageIssuance.ReleasedIsShare | index-protocol/test/integration/perpV2LeverageV2SlippageIssuance.spec.ts:196-213 | for any signs a unit releases the part of the notional its traded base is of the position's, but for three roundings, on the side the signs make |
| SlippageIssuance.ReleasedIsFloors | index-protocol/test/integration/perpV2LeverageV2SlippageIssuance.spec.ts:196-213 | in magnitude the released notional is three floors in turn |
| SlippageIssuance.RealizedQuotes | index-protocol/test/integration/perpV2LeverageV2SlippageIssuance.spec.ts:195-216 | the total depends on the quotes only at each unit's token, its signed amount and a sale |
| SlippageIssuance.RealizedAtBid | index-protocol/test/integration/perpV2LeverageV2SlippageIssuance.spec.ts:195-216 | at a bid price a unit realises its amount's worth beside what it releases, but for two roundings |
| SlippageIssuance.FirstPositionIff | index-protocol/test/integration/perpV2LeverageV2SlippageIssuance.spec.ts:195-216 | the total against the first position is that of each market at every quote if and only if each market releases what the first position would for its unit |
| SlippageIssuance.FirstPositionSuffices | index-protocol/test/integration/perpV2LeverageV2SlippageIssuance.spec.ts:195-216 | in a single market, and wherever all positions have the first one's balances, the two totals agree |
| SlippageIssuance.FirstPositionMisprices | index-protocol/test/integration/perpV2LeverageV2SlippageIssuance.spec.ts:195-216 | two markets opened at ten and twenty are realised at minus twenty instead of minus thirty |
| AuctionRebalance.Auction.constructor | index-protocol/contracts/protocol/modules/v1/AuctionRebalanceModuleV1.sol:772-802 | an auction over any terms, with the set's position multiplier, and any stored unit and balance |
| AuctionRebalance.Auction.Bid | index-protocol/contracts/protocol/modules/v1/AuctionRebalanceModuleV1.sol:309-349 | the new state or none; a backed holding stays backed, gains what was received, and keeps its unit between its start and the target but for two roundings |
| AuctionRebalance.NetReceivedBounds | index-protocol/contracts/protocol/modules/v1/AuctionRebalanceModuleV1.sol:898-927 | a bid stays between the current and the target notional after its fee, and the whole quantity meets the target exactly |
| AuctionRebalance.AuctionQuantities | index-protocol/contracts/protocol/modules/v1/AuctionRebalanceModuleV1.sol:898-927 | the notionals, the quantity on auction and the fee, each as the greatest or least within its exact value |
| AuctionRebalance.StoredUnits | index-protocol/contracts/protocol/SetToken.sol:560-581 | a unit is stored as the most virtual ones within it and read back as the most real ones, and refused exactly when that is none |
| AuctionRebalance.Auction.EditUnit | index-protocol/contracts/protocol/SetToken.sol:238-242 | the stored unit is the real one over the multiplier, and units that would be read back as none are refused |
| AuctionRebalance.Auction.EditPosition | index-protocol/contracts/protocol/lib/Position.sol:206-258 | the stored unit after a transfer, or a refusal that changes nothing |
| AuctionRebalance.StoredBounds | index-protocol/contracts/protocol/SetToken.sol:560-581 | a unit is read back no higher, lower by a bounded amount, and as itself if and only if the multiplier divides it times PRECISE_UNIT |
| AuctionRebalance.UnitAfterBid | index-protocol/contracts/protocol/lib/Position.sol:206-258 | the new unit is the notional per token as it is read back, an airdrop plays no part, and the balance backs it again |
| AuctionRebalance.BidGoesThroughIff | index-protocol/contracts/protocol/modules/v1/AuctionRebalanceModuleV1.sol:772-802 | a bid on a backed holding goes through if and only if the unit is off its target, the quantity is within the auction and the new unit can be stored |
| AuctionRebalance.UnbackedBid | index-protocol/contracts/protocol/lib/Position.sol:206-258 | a balance that does not cover its position takes only a bid that leaves nothing |
| AuctionRebalance.BidKeepsUnit | index-protocol/contracts/protocol/modules/v1/AuctionRebalanceModuleV1.sol:898-927 | with a whole token outstanding a bid from above ends no lower than the target as it is read back, one from below no higher than the target, and a bid for everything at the target as it is read back |
| AuctionRebalance.BidsStayNear | index-protocol/contracts/protocol/modules/v1/AuctionRebalanceModuleV1.sol:309-349 | over every run of n bids a unit never rises above its start and the target, and falls below both by at most n times a bid's slack |
| AuctionRebalance.RunIsItsBids | index-protocol/contracts/protocol/modules/v1/AuctionRebalanceModuleV1.sol:309-349 | two runs in turn are one, and a run of one bid is that bid, or nothing where it reverts |
| AuctionRebalance.WholeBidEndsBelowTarget | index-protocol/contracts/protocol/modules/v1/AuctionRebalanceModuleV1.sol:898-927 | a bid for everything above a target of ten leaves a unit of nine and one to buy back |
| AuctionRebalance.EmptyBidLosesOne | index-protocol/contracts/protocol/SetToken.sol:560-581 | with one token outstanding and a multiplier up to one, a bid of nothing takes one off every unit above one that is not stored exactly |
| AuctionRebalance.BidsKeepSide | index-protocol/contracts/protocol/modules/v1/AuctionRebalanceModuleV1.sol:309-349 | over every run of bids a component stays on its side of a target that is stored exactly or not at all |
| AuctionRebalance.NeverCrossesTargetIff | index-protocol/contracts/protocol/modules/v1/AuctionRebalanceModuleV1.sol:309-349 | with a whole token outstanding, runs of bids respect a target if and only if the multiplier divides the target times PRECISE_UNIT or the target cannot be stored |
| AuctionRebalance.SmallSupplyCrosses | index-protocol/contracts/protocol/modules/v1/AuctionRebalanceModuleV1.sol:1030-1049 | for every supply below a whole token and every multiplier, a target that bids cross |
| AuctionRebalance.NeverCrossesIff | index-protocol/contracts/protocol/modules/v1/AuctionRebalanceModuleV1.sol:309-349 | runs of bids respect every target if and only if a whole token is outstanding and the multiplier divides PRECISE_UNIT |
| AuctionRebalance.StoredExact | index-protocol/contracts/protocol/SetToken.sol:560-581 | a unit is read back lower by exactly the remainder of its scaled value, in whole units rounded up |
| AuctionRebalance.WholeBidMeetsTargetIff | index-protocol/contracts/protocol/modules/v1/AuctionRebalanceModuleV1.sol:1078-1092 | with a whole token outstanding, a bid for everything meets its target by the module's test if and only if the remainder of the scaled target is at most one unit |
| AuctionRebalance.WholeBidsMeetIff | index-protocol/contracts/protocol/modules/v1/AuctionRebalanceModuleV1.sol:1078-1092 | bids for everything meet every target if and only if the multiplier is at most PRECISE_UNIT or exceeds it by a divisor of it |
| AuctionRebalance.QuoteIsWorth | index-protocol/contracts/protocol/modules/v1/AuctionRebalanceModuleV1.sol:856-858 | a sale brings the least that is worth its quantity at the price, a purchase pays the most within it |
| AuctionRebalance.SplittingBidNeverPays | index-protocol/contracts/protocol/modules/v1/AuctionRebalanceModuleV1.sol:856-858 | splitting a bid never pays the bidder and costs at most one per further part |
| PriceAdapters.ClampIsNearest | index-protocol/contracts/protocol/integration/auction-price/BoundedStepwiseLinearPriceAdapter.sol:59-71 | the clamped price is the greater or lesser of the moved price and its bound, and the boundary is the bound it moves to |
| PriceAdapters.ParametersChecked | index-protocol/contracts/protocol/integration/auction-price/BoundedStepwiseLinearPriceAdapter.sol:45-48 | the linear price exists if and only if its parameters are valid, and the others only if theirs are |
| PriceAdapters.CurveArgumentIsSteps | index-protocol/contracts/protocol/integration/auction-price/BoundedStepwiseExponentialPriceAdapter.sol:55-61 | the curves' argument stays the same from the start of a bucket to the next |
| PriceAdapters.ArgumentLimits | index-protocol/contracts/protocol/integration/auction-price/BoundedStepwiseExponentialPriceAdapter.sol:16-17 | a hundred is the last argument of the exponential, 2^254 - 1 that of the logarithm, and 2^255 the first word cast to a negative one |
| PriceAdapters.LinearPriceIsClamp | index-protocol/contracts/protocol/integration/auction-price/BoundedStepwiseLinearPriceAdapter.sol:24-72 | through its overflow guards the price is the first price moved by the slope and clamped, for every time and every slope |
| PriceAdapters.LinearPriceMonotone | index-protocol/contracts/protocol/integration/auction-price/BoundedStepwiseLinearPriceAdapter.sol:24-72 | the price stays within its bounds and moves one way over time |
| PriceAdapters.ExponentialPriceExact | index-protocol/contracts/protocol/integration/auction-price/BoundedStepwiseExponentialPriceAdapter.sol:28-88 | the guarded price wherever the cast does not wrap, and exactly when the call throws |
| PriceAdapters.GuardedIsFormulaIff | index-protocol/contracts/protocol/integration/auction-price/BoundedStepwiseExponentialPriceAdapter.sol:69-87 | the guarded price is the clamped formula if and only if the product fits a word or the formula is at its boundary by then |
| PriceAdapters.GuardAnswersEarly | index-protocol/contracts/protocol/integration/auction-price/BoundedStepwiseExponentialPriceAdapter.sol:69-87 | a range and factor for which the guard answers zero and the formula does not |
| PriceAdapters.ExponentialPriceMonotone | index-protocol/contracts/protocol/integration/auction-price/BoundedStepwiseExponentialPriceAdapter.sol:28-88 | where the cast does not wrap, the price stays within its bounds and moves one way over time |
| PriceAdapters.LogarithmicPriceExact | index-protocol/contracts/protocol/integration/auction-price/BoundedStepwiseLogarithmicPriceAdapter.sol:28-88 | the clamped formula wherever the cast does not wrap, and exactly when the call throws |
| PriceAdapters.LogarithmicPriceMonotone | index-protocol/contracts/protocol/integration/auction-price/BoundedStepwiseLogarithmicPriceAdapter.sol:28-88 | where the cast does not wrap, the price stays within its bounds and moves one way over time |
| PriceAdapters.WrappedCastThrows | index-protocol/contracts/protocol/integration/auction-price/BoundedStepwiseExponentialPriceAdapter.sol:58-73 | with a bucket of a second, a price at its boundary is followed a second later by a call that throws, for the exponential and for the logarithm |
| PriceAdapters.ExponentialNeverThrowsIff | index-protocol/contracts/protocol/integration/auction-price/BoundedStepwiseExponentialPriceAdapter.sol:55-73 | no elapsed time throws if and only if no reached bucket wraps or the first that does has a scaled exponential of at least one |
| PriceAdapters.LogarithmNeverThrowsIff | index-protocol/contracts/protocol/integration/auction-price/BoundedStepwiseLogarithmicPriceAdapter.sol:55-67 | no elapsed time throws if and only if no reached bucket wraps or the first that does wraps to within one of zero |
| PriceAdapters.WrappedPriceOutOfOrder | index-protocol/contracts/protocol/integration/auction-price/BoundedStepwiseExponentialPriceAdapter.sol:58-87 | a price at its lowest after the first second is near its start after the next, with no call throwing |
| PriceAdapters.ExponentialInOrderIff | index-protocol/contracts/protocol/integration/auction-price/BoundedStepwiseExponentialPriceAdapter.sol:28-88 | prices are in order and within bounds at every pair of elapsed words if and only if they are over the one step on which the cast begins to wrap |
| PriceAdapters.ExponentialOverWrapIff | index-protocol/contracts/protocol/integration/auction-price/BoundedStepwiseExponentialPriceAdapter.sol:58-87 | for a coefficient that fits a signed word, that step is in order if and only if the wrapped scaled exponential covers the way to the boundary |
| PriceAdapters.LogarithmInOrderIff | index-protocol/contracts/protocol/integration/auction-price/BoundedStepwiseLogarithmicPriceAdapter.sol:28-88 | the same single step decides the order of logarithmic prices |
| PriceAdapters.LogarithmOverWrapIff | index-protocol/contracts/protocol/integration/auction-price/BoundedStepwiseLogarithmicPriceAdapter.sol:62-87 | with a scaling factor above one that step is in order if and only if it does not throw |

## Left out

- Uniswap.Sqrt: the comparisons are read as numeric; the literal reading is `UniswapAsWritten.SqrtAsWritten`.
- Uniswap.CalculateLPTokensIssued: the comparisons are read as numeric; the literal reading is
  `UniswapAsWritten.CalculateLPTokensIssuedAsWritten`, where the branch on a zero supply is never taken.
- NavRuns.RunKeepsBacking: fee percentages are natural numbers with manager and protocol fees together at most one
  unit and the premium at most one unit; the valuation of each call is arbitrary and not tied to the reserve.
- FeeModule.AssetValueOverRun: every fee of the run is below one unit; at one unit the mint divides by zero.
- DebtIssuance.DebtIssuanceModule.Issue: position units stay fixed, so interest, liquidation and levering are absent.
- DebtIssuance.DebtIssuanceModule.Redeem: one supply stands for all holders; a redeem fails beyond it, not beyond one
  holder's balance.
- PerpV2.CalculateUSDCTransferIn: swap quotes are arbitrary, so nothing is said about how a quote moves with its size,
  beyond prices that do not (`PerpV2.TradeCostIsWorth`).
- SlippageIssuance.RunDrift: one market at a time, and every trade fills exactly the base it is placed for.
- PerpV2.TransferOutOwed: an account whose value lies within the dust, a rounding loss per position, is decided by neither
  half.
- AuctionRebalance.Auction.Bid: the bidder's limit on the quote asset, the set's balance of it, permissions, the time
  window and the transfers themselves are left out; one component at a time, and the quote asset's own target and the
  raising of targets are not part of it.
- AuctionRebalance.BidsStayNear: supply, multiplier, target unit and protocol fee stay fixed during the run, and the
  balance starts out covering the position.
- PriceAdapters.LogarithmOverWrapIff: a scaling factor of one is left to `PriceAdapters.LogarithmInOrderIff`.
- `calculateEngageQuantities`, `calculateRebalanceFlows`, `getReservesSafe`, `calculateExternalPositionUnit`,
  `calculateLeverageRatios`, `calculateTotalSlippage` and `calculateFlashLeverage`: one more use each of the same kernel.
- `leverUp`, `getNetFundingGrowth`, `getUSDCDeltaDueToFundingGrowth`, `calculateMaxIssueQuantity`: thin over contract reads.
- The constant price adapter, and the other modules under `contracts/protocol/modules`: out of scope; where the
  calculators and specs state what they do, the model follows those.
- Machine integer widths outside the price adapters, and gas: the calculators use unbounded integers.
- Deployment helpers, fixtures, the subgraph and the governance, staking, trade and Curve specs.
