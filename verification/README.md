# A verified model of the constant-product pool

This project models the on-chain program under `programs/cp-swap` as one state machine over exact
integer arithmetic, and proves what every instruction and every run of instructions keeps.

* `Rounding`, `Checked`: multiplication, floor and ceiling division by recursion, proved equal to the
  built-in operations, with division as the adjoint of multiplication; u64/u128 results of checked
  operations, panics and error codes.
* `Math`, `Fees`, `ConstantProduct`, `Calculator`: the ceiling division with its small-dividend
  case, the trading fee and its gross-up, the curve, and the two swap calculations.
* `Tokens`: mints with transfer fees; transfers, mints and burns as balance moves.
* `Oracle`: the hundred-slot ring of observations and the unbounded log it refines.
* `Pools`, `Transitions`: the pool as a value and every instruction as a function to its outcome or
  its error, with the checks in the order of the handlers.
* `Program`: the accounts as objects with mutable fields, the handlers as methods that update them
  in place and are proved equal to the transitions, and the runtime's transaction, which rolls a
  failed handler back.
* `Effects`: each instruction in closed form, from the fields of the pool and the arguments with the
  program's numbers written out: the error that refuses it, or all that it changes and moves; the
  transitions are proved to agree with it.
* `Invariants`, `Acceptance`, `Runs`, `Splitting`, `FeeOrder`, `RoundTrip`: the other theorems;
  `Counterexamples`: reachable pools on which two expectations fail.

A run (`Runs.Run`) is any list of swaps, deposits, withdrawals, fee collections, configuration and
status updates, donations to a vault and burns of pool tokens outside the program, by anyone, at any
clock values; a rejected transaction leaves no trace. A world is reachable when some configuration
was created and updated, a pool was created under it, and some run followed. A pool's curve reserve
is its vault less the protocol and fund fees owed out of it.

The environment enters as parameters: the clock, the balances of the caller's token accounts, and for
each mint the transfer fee of the current epoch together with whatever the token library answers as
the inverse fee. A holder's pool-token balance bounds a burn, as does the mint's supply. The
`integer_sqrt` of the library is given its floor-square-root contract, and a Newton iteration is
proved against it.

## What the code does that one might not expect

* `checked_ceil_div` is not a ceiling when the floored quotient is 0. An exact-output swap whose
  wanted product `x * dy` is positive but less than half of `y - dy` is priced at zero and then
  refused. `Math.SmallQuotientQuirk` and `Acceptance.SwapOutputAcceptedIff` give the exact conditions,
  `Counterexamples.PriceCanRoundToZero` a reachable pool where it happens to an output that an equal
  sale does buy, and `Acceptance.OutputChargedTrueCeiling` shows that whatever is accepted was charged
  the true ceiling.
* Collecting fees before or after a swap does not always reach the same pool: a request above what is
  owed takes less when it comes first. `FeeOrder.SwapInputOrder` and `FeeOrder.SwapOutputOrder` give
  the exact condition in the rates, the amount and the fees owed, `Counterexamples.OrderCanMatter` a
  reachable pool and an accepted swap for which the two orders differ.
* The final comparison of the constants and the equality checks on the swapped amounts never reject a
  swap on a reachable pool (`Acceptance.GuardsNeverReject`). A withdrawal of pool tokens that are in
  circulation never panics either: its clamps change nothing and its subtraction from the supply
  succeeds (`Acceptance.WithdrawalGuards`). One of more pool tokens than the supply counts can end in
  a panic, before the burn would refuse it; `Acceptance.WithdrawalPanicsIff` says exactly when and
  `Counterexamples.WithdrawalCanPanic` gives a reachable pool.
* The comment above `ObservationState::update` says writable at most once per second and that it
  returns an index; the code waits 15 seconds and returns nothing. The model follows the code.
* The comment above `update_amm_config` lists parameters 0 to 4; the code also takes 5, the fee for
  creating a pool, and 6, the switch that stops creation. The model follows the code.

## Model

| member | source | states |
|---|---|---|
| Math.CheckedCeilDiv | programs/cp-swap/src/utils/math.rs:19-46 | The step-by-step division returns, for all dividends and divisors, the true ceiling with the ceiling of the dividend over it, or the rounded answers 0 and 1 below the divisor |
| Math.LeastDivisor | programs/cp-swap/src/utils/math.rs:32-45 | For a quotient of at least 1 the second result is the least divisor that still gives the returned ceiling, and never exceeds the divisor given |
| Math.SmallQuotientQuirk | programs/cp-swap/src/utils/math.rs:20-31 | The first result is the true ceiling if and only if the dividend is 0 or its double reaches the divisor; it is 0 exactly when the double does not |
| Math.IntegerSqrt | programs/cp-swap/src/instructions/initialize.rs:268-272 | Newton's iteration ends in the floor of the square root |
| Fees.GrossUpExactAndLeast | programs/cp-swap/src/curve/fees.rs:53-66 | The pre-fee amount nets exactly the wanted amount and every smaller amount nets strictly less |
| Fees.GrossAdjoint | programs/cp-swap/src/curve/fees.rs:27-66 | An amount nets at least n if and only if it reaches the gross-up of n |
| Fees.TradingFeeValue | programs/cp-swap/src/curve/fees.rs:3-33 | On u64 amounts with a rate below 1,000,000 the fee f is computed without overflow and is the exact ceiling: (f - 1) * 1,000,000 < amount * rate <= f * 1,000,000 |
| Fees.SharesValue | programs/cp-swap/src/curve/fees.rs:35-51 | The protocol and the fund share of a fee are its millionths rounded down, for rates up to 1,000,000 |
| Fees.PreFeeValue | programs/cp-swap/src/curve/fees.rs:53-66 | The pre-fee amount g of a net amount n is n * 1,000,000 over 1,000,000 less the rate, rounded up, for every u64 amount and rate below 1,000,000 |
| Fees.SharesWithinFee | programs/cp-swap/src/curve/fees.rs:36-51 | Protocol and fund share together stay within the trade fee when their rates together stay within the denominator |
| Fees.NetSuperadditive | programs/cp-swap/src/curve/fees.rs:27-33 | Charging the fee on a sum leaves at least what charging it on the parts leaves |
| ConstantProduct.CurveAdjoint | programs/cp-swap/src/curve/constant_product.rs:19-45 | n units buy at least dy if and only if n reaches the ceiling price of dy |
| ConstantProduct.InputValue | programs/cp-swap/src/curve/constant_product.rs:19-30 | On u64 amounts the exact-input formula never overflows and never pays more than the reserve |
| ConstantProduct.OutputValue | programs/cp-swap/src/curve/constant_product.rs:32-45 | A nonzero exact-output price is the true ceiling; a zero price occurs exactly when twice the wanted product is below what is left |
| ConstantProduct.LpTokensToTradingTokens | programs/cp-swap/src/curve/constant_product.rs:52-92 | The in-place rounding of both amounts agrees, in value and in failure, with rounding up nonzero floors only |
| ConstantProduct.TokensForValue | programs/cp-swap/src/curve/constant_product.rs:52-92 | Rounded down the amount is the true floor, rounded up and nonzero the true ceiling, and zero exactly when the share is below one unit |
| Calculator.InputResult | programs/cp-swap/src/curve/calculator.rs:93-124 | Every exact-input swap of u64 amounts on a nonempty reserve has a result, with exact fees and the curve's output |
| Calculator.OutputResult | programs/cp-swap/src/curve/calculator.rs:126-156 | A result with a positive source amount is the exact gross-up of the true ceiling price |
| Calculator.OutputPriceable | programs/cp-swap/src/curve/calculator.rs:126-156 | A positive u64 price exists if and only if dy leaves some reserve, twice x * dy reaches y - dy, and the gross price fits |
| Calculator.InputConstantBound | programs/cp-swap/src/instructions/swap_base_input.rs:142-226 | The constant after an exact-input swap fits 128 bits and lies between x * y and x * y + x + net - 1 |
| Calculator.OutputConstantBound | programs/cp-swap/src/instructions/swap_base_output.rs:79-166 | The constant after an exact-output swap always fits 128 bits and, with a positive source amount, lies between x * y and x * y + y - dy - 1 |
| Calculator.SwapAdjunction | programs/cp-swap/src/curve/calculator.rs:93-156 | If dy costs a positive P then paying s, fees included, yields at least dy if and only if s >= P |
| Tokens.InverseFeeExact | programs/cp-swap/src/utils/token.rs:134-166 | In every branch, and whatever the library answers, sending the amount plus the accepted fee delivers exactly the amount |
| Tokens.AmountToSendIff | programs/cp-swap/src/utils/token.rs:134-166 | Exactly when there is an amount to send for what is wanted, which it is, and with which error a mint, a missing or wrong answer of the library, or an overflow refuses |
| Tokens.TransferFeeIsCappedCeiling | tests/utils/fee.ts:7-26 | The transfer fee is the proportional fee rounded up, or the maximum when that is less |
| Tokens.DeliveredSuperadditive | tests/utils/fee.ts:7-26 | Sending two amounts together delivers at least what sending them apart delivers |
| Tokens.DeliveredReaches | tests/utils/fee.ts:7-26 | Between an amount that delivers at most and one that delivers at least what is wanted, some amount delivers it exactly |
| Tokens.TransferFee | programs/cp-swap/src/utils/token.rs:169-184 | A transfer never costs more than it sends |
| Oracle.UpdateRefines | programs/cp-swap/src/states/oracle.rs:74-112 | An accepted update of the ring is exactly an append to an unbounded log of ticks, taken only 15 seconds or more after the last one, also when the clock repeats or runs backwards |
| Oracle.UpdateEffect | programs/cp-swap/src/states/oracle.rs:10-112 | Every update that does not abort: the first writes the current slot; within 15 seconds of the last observation nothing changes; from then on the next slot takes the clock and both cumulative prices, and no other slot changes |
| Oracle.ReadBack | programs/cp-swap/src/states/oracle.rs:80-111 | Reading back from the index visits the newest min(n, 100) ticks, newest first |
| Oracle.Telescoping | programs/cp-swap/src/states/oracle.rs:93-109 | Between two retained observations the wrapping difference is the price-time area modulo 2^128, and the area itself for prices below 2^96 over less than 2^32 seconds |
| Oracle.UpdateNeverAborts | programs/cp-swap/src/states/oracle.rs:89-94 | With prices below 2^96 and less than 2^32 seconds elapsed no multiplication aborts |
| Oracle.ObservationState.Update | programs/cp-swap/src/states/oracle.rs:74-112 | The in-place update keeps the array on the newest ticks of the log, and on an abort changes nothing |
| Pools.PriceMeaning | programs/cp-swap/src/states/pool.rs:153-159 | Each price is the other reserve over its own, floored at 32 fractional bits, and below 2^96 |
| Invariants.QuoteInputFair | programs/cp-swap/src/instructions/swap_base_input.rs:76-192 | An accepted exact-input quote has exact fees on what arrives after the transfer fee, pays the curve amount, respects the minimum, and does not lower the constant |
| Invariants.QuoteOutputFair | programs/cp-swap/src/instructions/swap_base_output.rs:9-132 | An accepted exact-output quote delivers exactly the amount asked for, charges the grossed-up ceiling within the maximum, and both transfer-fee gross-ups are exact |
| Invariants.SettleBooks | programs/cp-swap/src/instructions/swap_base_input.rs:194-254 | After an accepted swap the next reserves are exactly x + input - protocol - fund and y - output, and the input side keeps at least its net input |
| Invariants.DepositSafe | programs/cp-swap/src/instructions/deposit.rs:87-205 | A deposit credits each vault with exactly the ceiling of its share, stays within the maximums, and keeps the invariant and the value of a pool token |
| Invariants.WithdrawSafe | programs/cp-swap/src/instructions/withdraw.rs:99-220 | A withdrawal pays the exact floors, so the clamps change nothing, leaves both reserves positive, and keeps the invariant and the value of a pool token |
| Invariants.CollectProtocolSafe | programs/cp-swap/src/instructions/admin/collect_protocol_fee.rs:74-131 | Collecting never fails, takes what is owed up to the request, and leaves the reserves where they are |
| Invariants.CollectFundSafe | programs/cp-swap/src/instructions/admin/collect_fund_fee.rs:73-122 | The same for the fund bucket |
| Invariants.ConfigKeepsRates | programs/cp-swap/src/instructions/admin/update_config.rs:17-55 | Every accepted update keeps the bounds on the rates |
| Invariants.InitializeSafe | programs/cp-swap/src/instructions/initialize.rs:164-333 | A created pool starts on the invariant with the floored square root of its vaults as supply, 100 pool tokens never minted, and an opening time in the future |
| Invariants.StepSafe | programs/cp-swap/src/lib.rs:93-230 | Every accepted step keeps the invariant, does not lower the value of a pool token, and accounts for every token it moves |
| Acceptance.SwapInputAcceptedIff | programs/cp-swap/src/instructions/swap_base_input.rs:76-258 | Necessary and sufficient conditions for an exact-input swap on a valid pool; fee accrual, constant comparison and outgoing transfer are not among them |
| Acceptance.SwapOutputAcceptedIff | programs/cp-swap/src/instructions/swap_base_output.rs:9-198 | Necessary and sufficient conditions for an exact-output swap, the price that rounds to zero included |
| Acceptance.InitializeAcceptedIff | programs/cp-swap/src/instructions/initialize.rs:164-333 | Necessary and sufficient conditions for a creation, the product of what arrives reaching 10000 among them |
| Acceptance.DepositAcceptedIff | programs/cp-swap/src/instructions/deposit.rs:87-205 | Necessary and sufficient conditions for a deposit |
| Acceptance.WithdrawAcceptedIff | programs/cp-swap/src/instructions/withdraw.rs:99-220 | Necessary and sufficient conditions for a withdrawal |
| Acceptance.WithdrawalGuards | programs/cp-swap/src/instructions/withdraw.rs:112-216 | A withdrawal of no more pool tokens than are in circulation never panics: the shares stay within the reserves, so the clamps change nothing, the subtraction from the supply succeeds, and the token program refuses it only for an owner who holds too few |
| Acceptance.WithdrawalPanicsIff | programs/cp-swap/src/instructions/withdraw.rs:99-187 | A withdrawal panics if and only if it asks for more pool tokens than the supply counts, is enabled with some in circulation, and either a share exceeds 64 bits or the whole reserves reach the minimums |
| Counterexamples.WithdrawalCanPanic | programs/cp-swap/src/instructions/withdraw.rs:131-187 | A reachable pool on which asking for one pool token more than the supply panics |
| Acceptance.GuardsNeverReject | programs/cp-swap/src/instructions/swap_base_output.rs:128-166 | On a valid pool no swap ever fails the final comparison of the constants or an equality check |
| Acceptance.OutputChargedTrueCeiling | programs/cp-swap/src/instructions/swap_base_output.rs:9-198 | Every accepted exact-output swap was charged the true ceiling and delivers exactly the amount asked for |
| Counterexamples.ZeroPriceRefused | programs/cp-swap/src/instructions/swap_base_output.rs:79-166 | Every exact output whose doubled wanted product is below what it leaves is refused for a price of zero, whatever the maximum |
| Counterexamples.PriceCanRoundToZero | programs/cp-swap/src/utils/math.rs:20-31 | A reachable pool and an output with a positive true price that the division answers with 0: asked for exactly it is always refused, sold for that price it is bought |
| Acceptance.OracleReadyWhenRecent | programs/cp-swap/src/states/oracle.rs:88-110 | On a valid pool the oracle update cannot abort a swap while the last observation is less than 2^32 seconds old |
| Effects.SwapInputMeets | programs/cp-swap/src/instructions/swap_base_input.rs:76-258 | Every exact-input swap on a valid pool, from the pool and the arguments alone: which error refuses it; and if none does, it pays amountIn, receives what is delivered of floor(net * y / (x + net)), moves both vaults, accrues both shares of the fee, records the prices from before, and changes nothing else |
| Effects.SwapOutputMeets | programs/cp-swap/src/instructions/swap_base_output.rs:9-198 | Every exact-output swap on a valid pool likewise: which error refuses it; and if none does, exactly amountOut is delivered for at most maximumIn, what arrives being the grossed-up ceiling, with the same moves, accruals and record |
| Effects.DepositMeets | programs/cp-swap/src/instructions/deposit.rs:87-205 | Every deposit on a valid pool likewise: the ceilings of both shares arrive for at most the maximums, lp is minted, and nothing else changes |
| Effects.WithdrawMeets | programs/cp-swap/src/instructions/withdraw.rs:99-220 | Every withdrawal on a valid pool likewise: the floors of both shares are paid, at least the minimums are delivered, lp is burned, and nothing else changes |
| Effects.CollectMeets | programs/cp-swap/src/instructions/admin/collect_fund_fee.rs:73-122 | Each collection takes of each token the smaller of the request and its own bucket, out of that bucket and the vault, and leaves the other bucket and everything else |
| Effects.ConfigMeets | programs/cp-swap/src/instructions/admin/update_config.rs:17-79 | Which parameter sets which field, under which bound, and with which error it is refused |
| Effects.CreateConfigMeets | programs/cp-swap/src/lib.rs:58-78 | A configuration is created exactly for trade < 1,000,000 and protocol + fund <= 1,000,000, with the given owner for both buckets and pool creation allowed |
| Effects.CreationMeets | programs/cp-swap/src/instructions/initialize.rs:164-333 | Every creation in closed form: which error refuses it; and if none does, every field of the new pool, its oracle and its receipt |
| Effects.StepMeets | programs/cp-swap/src/lib.rs:93-230 | Every instruction runs with its own arguments and limits: each of the ten kinds of step on a valid pool is refused with the error that its closed form gives or, if it gives none, is accepted with exactly the effect that it gives |
| Effects.StatusStops | programs/cp-swap/src/states/pool.rs:122-140 | A status of 1 stops exactly deposits, 2 exactly withdrawals, 4 exactly swaps; every other step is accepted as if the status were 0 |
| Effects.ExecMeets | programs/cp-swap/src/lib.rs:93-230 | Every transaction on a valid world: accepted, it has the effect of its closed form, every total of the ledger grows by its part of the receipt, and the log takes its tick if 15 seconds have passed; refused, it leaves the world as it was |
| Effects.RunAppends | programs/cp-swap/src/lib.rs:93-230 | A run is its transactions one after another |
| Effects.ConfigRunAppends | programs/cp-swap/src/instructions/admin/update_config.rs:17-79 | Updates are made one after another; one that is refused leaves the configuration as it was |
| Effects.CreatedMeets | programs/cp-swap/src/lib.rs:58-108 | A world begins with a configuration, its updates and a pool created under the result, or with the error of the closed form |
| Effects.TicksApart | programs/cp-swap/src/states/oracle.rs:88-92 | In every reachable world recorded prices are at least 15 seconds apart |
| Runs.ReachableSafe | programs/cp-swap/src/instructions/initialize.rs:266-330 | Every reachable world satisfies the invariant: fees owed fit in the vaults, circulating pool tokens plus 100 stay within the supply, the supply squared within the product of the reserves, the books balance, and the ring refines the log |
| Runs.ValidPoolReadable | programs/cp-swap/src/states/pool.rs:142-159 | On a valid pool both reserves are positive, can be read, and can be priced |
| Runs.ShareValueNeverFalls | programs/cp-swap/src/curve/calculator.rs:205-337 | Over any run from a reachable world x' y' L^2 >= x y L'^2 |
| Runs.GainsBoundedByCurve | programs/cp-swap/src/curve/calculator.rs:205-337 | Over any run the users' net gains g0, g1 leave x - g0 > 0 and y - g1 > 0 and satisfy (x - g0)(y - g1) L^2 >= x y L'^2 |
| Runs.NoExtraction | programs/cp-swap/src/instructions/swap_base_input.rs:142-257 | Over any run that does not end with fewer pool tokens, users together cannot gain one token without losing some of the other |
| Runs.ReserveIsHistory | programs/cp-swap/src/states/pool.rs:142-151 | A reserve is all that users paid in less what they received, what mints withheld and what accrued as fees |
| Runs.FeeLedger | programs/cp-swap/src/instructions/admin/collect_protocol_fee.rs:82-99 | Per token and bucket, all that swaps accrued is what was collected plus what is owed |
| Runs.OracleReadings | programs/cp-swap/src/states/oracle.rs:74-112 | In every reachable world any two retained observations differ by the price-time area between them, exactly over less than 2^32 seconds |
| Splitting.SplittingNeverBeatsOneTrade | programs/cp-swap/src/curve/calculator.rs:93-124 | For any two mints and any list of swaps in one direction, exact-input and exact-output mixed, accepted one after another: one sale of all that they paid is accepted and receives at least as much, as long as the input mint's supply covers the vault and that payment; without a transfer fee it always does, and without that bound the sale is accepted if and only if the vault can hold what arrives |
| Splitting.BuyingAtOnceNeedNotCostMore | programs/cp-swap/src/curve/calculator.rs:126-156 | For any two mints there are answers of the token library with which one purchase of all that such a list received is accepted, receives exactly that, and costs at most what the list paid |
| Splitting.BuyingAtOnceNeverCostsMore | programs/cp-swap/src/curve/calculator.rs:126-156 | Between mints without transfer fees, one purchase of all that such a list received is accepted, receives exactly that, and costs at most what the list paid, whatever the token library answers |
| FeeOrder.SwapInputOrder | programs/cp-swap/src/instructions/admin/collect_protocol_fee.rs:82-99 | Collecting before an accepted exact-input swap never makes it fail or changes what it moves; both orders reach the same pool if and only if the request on the input token was owed before or the rates leave nothing of the delivered input for that bucket |
| FeeOrder.SwapOutputOrder | programs/cp-swap/src/instructions/admin/collect_fund_fee.rs:82-89 | The same for exact-output swaps, with the price in place of the delivered input |
| FeeOrder.SwapInputEitherOrder | programs/cp-swap/src/instructions/admin/collect_protocol_fee.rs:82-131 | An exact-input swap is accepted before a collection if and only if it is accepted after it, as long as the mint's supply covers the vault and the trader's tokens; without that bound, if and only if the vault also has room for the input with the fees still in it |
| FeeOrder.SwapOutputEitherOrder | programs/cp-swap/src/instructions/admin/collect_protocol_fee.rs:82-131 | The same for exact-output swaps |
| Counterexamples.OrderCanMatter | programs/cp-swap/src/instructions/admin/collect_protocol_fee.rs:85-97 | A reachable pool, an accepted swap and a collection whose two orders end in different pools |
| FeeOrder.DepositOrder | programs/cp-swap/src/instructions/deposit.rs:99-201 | A deposit that is accepted before a collection is accepted after it, moves the same, and both orders reach the same pool |
| FeeOrder.DepositEitherOrder | programs/cp-swap/src/instructions/admin/collect_protocol_fee.rs:82-131 | A deposit is accepted before a collection if and only if it is accepted after it, as long as the mints' supplies cover the vaults and the depositor's tokens; without that bound, if and only if both vaults also have room for it with the fees still in them |
| FeeOrder.WithdrawOrder | programs/cp-swap/src/instructions/withdraw.rs:112-216 | A withdrawal that is accepted before a collection is accepted after it, moves the same, and both orders reach the same pool |
| FeeOrder.WithdrawEitherOrder | programs/cp-swap/src/instructions/admin/collect_protocol_fee.rs:82-131 | A withdrawal is accepted before a collection if and only if it is accepted after it |
| RoundTrip.DepositThenWithdraw | programs/cp-swap/src/curve/constant_product.rs:52-92 | Without transfer fees, withdrawing what was just deposited is always accepted and returns of each token what was paid in or one unit less |
| Program.AmmConfig.Create | programs/cp-swap/src/lib.rs:58-78 | Creation succeeds exactly under the bounds on the rates and sets the fields |
| Program.AmmConfig.Update | programs/cp-swap/src/instructions/admin/update_config.rs:17-79 | Parameters 0 to 6 each set their own field, under their bounds and for owners with a nonzero account, and leave every other field; from 7 on, and whenever a bound fails, nothing changes |
| Program.PoolState.Initialize | programs/cp-swap/src/instructions/initialize.rs:164-333 | Filling new accounts step by step reaches the specified pool or the specified error |
| Program.PoolState.SwapBaseInput | programs/cp-swap/src/instructions/swap_base_input.rs:76-258 | The in-place handler reaches the pool, receipt and oracle log, or the error, that `Effects.SwapInputMeets` gives in closed form |
| Program.PoolState.SwapBaseOutput | programs/cp-swap/src/instructions/swap_base_output.rs:9-198 | The same for exact output |
| Program.PoolState.Deposit | programs/cp-swap/src/instructions/deposit.rs:87-205 | The in-place handler reaches the specified pool and receipt, or the specified error |
| Program.PoolState.Withdraw | programs/cp-swap/src/instructions/withdraw.rs:99-220 | The in-place handler reaches the specified pool and receipt, or the specified error |
| Program.PoolState.CollectProtocolFee | programs/cp-swap/src/instructions/admin/collect_protocol_fee.rs:74-131 | The in-place handler reaches the specified pool and receipt |
| Program.PoolState.CollectFundFee | programs/cp-swap/src/instructions/admin/collect_fund_fee.rs:73-122 | The in-place handler reaches the specified pool and receipt |
| Program.PoolState.Execute | programs/cp-swap/src/lib.rs:93-230 | A transaction is one step of the run, which `Effects.ExecMeets` gives in closed form: committed whole, or rolled back whole however far its handler got; and it returns the receipt or the error of that step |
| Program.Live | programs/cp-swap/src/lib.rs:45-231 | Objects created, configured and driven by any transactions follow the run of the model and end in a reachable, hence valid, world |

## Left out

* Splitting.BuyingAtOnceNeedNotCostMore: gives some answers of the token library and not all, because
  several amounts can deliver the same and another answer may name a larger one.
* Account validation, derived addresses, signer seeds, rent and account allocation: the right vaults
  and mints are taken as passed. Two different vault keys of the pool are the only pairing checked.
* A receiving token account that is the vault itself: such a transfer changes no balance but the
  transfer fee, so the step is then the modelled one followed by a donation of what was delivered.
* Overflow of a user's own token account: a mint's supply fits 64 bits, so no balance can exceed it.
* The supplies of the two tokens: the model lets a vault and the tokens outside it exceed 64 bits
  together, as no real mint does. Results that turn on room in a vault therefore state it, and also
  what holds under the bound that every real mint meets (`Tokens.WithinSupply`).
* The transfer, mint and burn wrappers take balances and return new ones; the accounts of users are
  only their balances at the time of the call.
* Mint extension checks enter `initialize` as one flag; transfer hooks and their effects are not
  part of this model.
* The pool creation fee payment, events, logging, `recent_epoch`, padding, struct sizes and decimals.
* Identity checks of the administrator and of the fee owners: those steps are open to everyone.
* A configuration shared by several pools: one pool is modelled, under a configuration that anyone's
  update may change between any two steps.
* The inverse transfer fee of the token library: any answer is allowed, and the program's own check
  of it is modelled.
* The `client` crate, the network scripts and the stale copy `initialize.rs.bak`.
