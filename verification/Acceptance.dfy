/** Exactly when instructions are accepted, and which of their guards can never fire. */
module Acceptance {
  import opened Checked
  import opened Rounding
  import opened Tokens
  import opened ConstantProduct
  import opened Calculator
  import opened Oracle
  import opened Pools
  import opened Transitions
  import opened Invariants
  import Fees
  import Math

  // ---------- Creation ----------

  /** The creator holds what is to be sent, and some of it arrives. */
  ghost predicate Fillable(mint: Mint, funds: u64, amount: u64) {
    amount <= funds && Delivered(mint, amount) > 0
  }

  /** A pool is created if and only if the mints are supported, creation is not disabled, the clock
      leaves a next second where the opening time has passed, both vaults can be filled, and the
      product of what arrives is at least the square of the locked pool tokens. */
  lemma InitializeAcceptedIff(c: Config, a: InitializeAccounts, amount0: u64, amount1: u64, openTime: u64)
    ensures Initialize(c, a, amount0, amount1, openTime).Ok? <==>
            && a.supported
            && !c.disableCreatePool
            && (openTime > a.now || a.now < U64_MAX)
            && Fillable(a.mint0, a.funds0, amount0)
            && Fillable(a.mint1, a.funds1, amount1)
            && Times(Delivered(a.mint0, amount0), Delivered(a.mint1, amount1)) >= 10_000
  {
    QuoteInitializeIff(c, a, amount0, amount1, openTime);
  }

  lemma QuoteInitializeIff(c: Config, a: InitializeAccounts, amount0: u64, amount1: u64, openTime: u64)
    ensures QuoteInitialize(c, a, amount0, amount1, openTime).Ok? <==>
            && a.supported
            && !c.disableCreatePool
            && (openTime > a.now || a.now < U64_MAX)
            && Fillable(a.mint0, a.funds0, amount0)
            && Fillable(a.mint1, a.funds1, amount1)
            && Times(Delivered(a.mint0, amount0), Delivered(a.mint1, amount1)) >= 10_000
  {
    FilledVaultsIff(a, amount0, amount1);
    LiquidityOfIff(Delivered(a.mint0, amount0), Delivered(a.mint1, amount1));
  }

  lemma FilledVaultsIff(a: InitializeAccounts, amount0: u64, amount1: u64)
    ensures var vaults := FilledVaults(a, amount0, amount1);
            && (vaults.Ok? <==> Fillable(a.mint0, a.funds0, amount0) && Fillable(a.mint1, a.funds1, amount1))
            && (vaults.Ok? ==> vaults.value == (Delivered(a.mint0, amount0), Delivered(a.mint1, amount1)))
  {
  }

  lemma LiquidityOfIff(vault0: u64, vault1: u64)
    ensures LiquidityOf(vault0, vault1).Ok?
    ensures LiquidityOf(vault0, vault1).value >= LOCKED_LP <==> Times(vault0, vault1) >= 10_000
  {
    ProductFits(vault0, vault1);
    Math.SqrtLargest(Times(vault0, vault1), 100);
    Math.SqrtLargest(Times(vault0, vault1), U64_MAX + 1);
  }

  // ---------- Swaps ----------

  /** What the curve pays for the input that amountIn delivers. */
  ghost function InputPays(p: Pool, a: SwapAccounts, amountIn: u64): int
    requires p.config.rates.Valid()
    requires p.Get(a.inputVault).Reserve() > 0 && p.Get(a.outputVault).Reserve() > 0
  {
    Fees.NetNonNegative(Delivered(a.inputMint, amountIn), p.config.rates.trade);
    AmountOut(Fees.Net(Delivered(a.inputMint, amountIn), p.config.rates.trade),
              p.Get(a.inputVault).Reserve(), p.Get(a.outputVault).Reserve())
  }

  /** The conditions that only the pool, the clock and the caller's accounts decide. */
  ghost predicate SwapOpen(p: Pool, a: SwapAccounts, amountIn: u64) {
    && p.Enabled(SwapFeature)
    && a.now >= p.openTime
    && a.inputVault != a.outputVault
    && a.funds >= amountIn
    && p.Get(a.inputVault).vault + Delivered(a.inputMint, amountIn) <= U64_MAX
  }

  /** The oracle can take the price the pool shows now. */
  ghost predicate OracleReady(p: Pool, now: u64) {
    var x, y := p.side0.Reserve(), p.side1.Reserve();
    && 0 < x <= U64_MAX && 0 < y <= U64_MAX
    && (var prices := TokenPriceX32(x, y).value; Takes(p.ring, now, prices.0, prices.1))
  }

  /** When the curve is asked for an exact input's output, and what it answers. */
  lemma AskInputIff(p: Pool, a: SwapAccounts, amountIn: u64)
    requires Inv(p)
    requires p.Get(a.inputVault).Reserve() > 0 && p.Get(a.outputVault).Reserve() > 0
    ensures 0 <= InputPays(p, a, amountIn) <= U64_MAX
    ensures var answer := AskInput(p, a, amountIn);
            && (answer.Ok? <==>
                && p.Enabled(SwapFeature)
                && a.now >= p.openTime
                && a.inputVault != a.outputVault
                && Delivered(a.inputMint, amountIn) > 0)
            && (answer.Err? ==> answer.error == AskInputError(p, a, amountIn))
            && (answer.Ok? ==> Consistent(answer.value)
                               && answer.value.result.destinationSwapped == InputPays(p, a, amountIn))
  {
    ReservesRead(p, a);
    var s, x, y := Delivered(a.inputMint, amountIn), p.Get(a.inputVault).Reserve(), p.Get(a.outputVault).Reserve();
    InputAnswer(s, x, y, p.config.rates);
    if p.Enabled(SwapFeature) && a.now >= p.openTime && a.inputVault != a.outputVault && s > 0 {
      AskInputAnswered(p, a, amountIn, ReadReserves(p, a).value, SwapBaseInput(s, x, y, p.config.rates).value);
    } else {
      AskInputRejected(p, a, amountIn);
    }
  }

  lemma AskInputAnswered(p: Pool, a: SwapAccounts, amountIn: u64, reserves: Reserves, r: SwapResult)
    requires p.Enabled(SwapFeature) && a.now >= p.openTime && Delivered(a.inputMint, amountIn) > 0
    requires ReadReserves(p, a) == Ok(reserves)
    requires SwapBaseInput(Delivered(a.inputMint, amountIn), reserves.x, reserves.y, p.config.rates) == Ok(r)
    ensures AskInput(p, a, amountIn) == Ok(Answer(Delivered(a.inputMint, amountIn), reserves, r))
  {
  }

  lemma AskInputRejected(p: Pool, a: SwapAccounts, amountIn: u64)
    requires !p.Enabled(SwapFeature) || a.now < p.openTime || Delivered(a.inputMint, amountIn) == 0
             || a.inputVault == a.outputVault
    ensures AskInput(p, a, amountIn) == Err(AskInputError(p, a, amountIn))
  {
  }

  /** Which of the first checks of an exact-input swap speaks first. */
  ghost function AskInputError(p: Pool, a: SwapAccounts, amountIn: u64): Error {
    if !p.Enabled(SwapFeature) || a.now < p.openTime then NotApproved
    else if Delivered(a.inputMint, amountIn) == 0 then RequireGtViolated
    else InvalidVault
  }

  /** An answer that the equality check and the multiplication of the handler accept. */
  ghost predicate Consistent(answer: Answer) {
    ConstantAfter(answer.result).Ok? && answer.result.sourceSwapped == answer.asked
  }

  /** The checks that follow the curve's answer to an exact input. */
  lemma AcceptInputIff(a: SwapAccounts, amountIn: u64, minimumOut: u64, answer: Answer)
    requires Consistent(answer) && answer.result.destinationSwapped <= U64_MAX
    ensures var q := AcceptInput(a, amountIn, minimumOut, answer);
            && (q.Ok? <==> Delivered(a.outputMint, answer.result.destinationSwapped) > 0
                           && Delivered(a.outputMint, answer.result.destinationSwapped) >= minimumOut)
            && (q.Err? ==> q.error == if Delivered(a.outputMint, answer.result.destinationSwapped) == 0
                                      then RequireGtViolated else ExceededSlippage)
  {
  }

  /** An exact-input quote of a valid pool, in full: what it is when accepted, and that only these
      checks reject it. */
  lemma QuoteInputIff(p: Pool, a: SwapAccounts, amountIn: u64, minimumOut: u64)
    requires Inv(p)
    requires p.Get(a.inputVault).Reserve() > 0 && p.Get(a.outputVault).Reserve() > 0
    ensures 0 <= InputPays(p, a, amountIn) <= U64_MAX
    ensures QuoteInput(p, a, amountIn, minimumOut).Ok? <==>
            && p.Enabled(SwapFeature)
            && a.now >= p.openTime
            && a.inputVault != a.outputVault
            && Delivered(a.inputMint, amountIn) > 0
            && Delivered(a.outputMint, InputPays(p, a, amountIn)) > 0
            && Delivered(a.outputMint, InputPays(p, a, amountIn)) >= minimumOut
    ensures QuoteInput(p, a, amountIn, minimumOut).Err? ==>
              QuoteInput(p, a, amountIn, minimumOut).error in
                {NotApproved, InvalidVault, RequireGtViolated, ExceededSlippage}
  {
    AskInputIff(p, a, amountIn);
    if AskInput(p, a, amountIn).Ok? {
      AcceptInputIff(a, amountIn, minimumOut, AskInput(p, a, amountIn).value);
    }
  }

  /** A fair quote of an open pool settles exactly when the oracle can take the price. */
  lemma SettleIff(p: Pool, a: SwapAccounts, q: Quote)
    requires Inv(p) && Fair(p, a, q)
    requires a.funds >= q.sendIn && p.Get(a.inputVault).vault + Delivered(a.inputMint, q.sendIn) <= U64_MAX
    ensures Settle(p, a, q).Ok? <==> Takes(p.ring, a.now, q.reserves.price0, q.reserves.price1)
  {
    UpdatedIff(p.ring, a.now, q.reserves.price0, q.reserves.price1);
    ReceiveInputOk(p.Get(a.inputVault), a, q);
    assert q.sendOut <= p.Get(a.outputVault).vault;
  }

  lemma ReceiveInputOk(side: Side, a: SwapAccounts, q: Quote)
    requires side.Owed() <= side.vault
    requires q.result.protocolFee + q.result.fundFee <= q.result.tradeFee <= Delivered(a.inputMint, q.sendIn)
    requires q.constantAfter >= q.reserves.constant
    requires a.funds >= q.sendIn && side.vault + Delivered(a.inputMint, q.sendIn) <= U64_MAX
    ensures ReceiveInput(side, a, q).Ok?
  {
  }

  lemma SettleNeeds(p: Pool, a: SwapAccounts, q: Quote)
    requires q.sendIn > 0 && Settle(p, a, q).Ok?
    ensures a.funds >= q.sendIn && p.Get(a.inputVault).vault + Delivered(a.inputMint, q.sendIn) <= U64_MAX
  {
    ReceiveInputNeeds(p.Get(a.inputVault), a, q);
  }

  lemma ReceiveInputNeeds(side: Side, a: SwapAccounts, q: Quote)
    requires q.sendIn > 0
    ensures ReceiveInput(side, a, q).Ok? ==>
              a.funds >= q.sendIn && side.vault + Delivered(a.inputMint, q.sendIn) <= U64_MAX
  {
  }

  /** An exact-input swap on a valid pool is accepted if and only if the pool is open to it, the
      caller can pay, the output reaches the minimum and is not zero, the vault can hold the
      input, and the oracle can take the price.  No fee accrual, constant comparison or
      outgoing transfer ever rejects it. */
  lemma SwapInputAcceptedIff(p: Pool, a: SwapAccounts, amountIn: u64, minimumOut: u64)
    requires Inv(p)
    ensures p.side0.Reserve() > 0 && p.side1.Reserve() > 0
    ensures 0 <= InputPays(p, a, amountIn) <= U64_MAX
    ensures SwapInput(p, a, amountIn, minimumOut).Ok? <==>
            && SwapOpen(p, a, amountIn)
            && Delivered(a.inputMint, amountIn) > 0
            && Delivered(a.outputMint, InputPays(p, a, amountIn)) > 0
            && Delivered(a.outputMint, InputPays(p, a, amountIn)) >= minimumOut
            && OracleReady(p, a.now)
  {
    ReservesPositive(p);
    QuoteInputIff(p, a, amountIn, minimumOut);
    if QuoteInput(p, a, amountIn, minimumOut).Ok? {
      var q := QuoteInput(p, a, amountIn, minimumOut).value;
      QuoteInputFair(p, a, amountIn, minimumOut);
      if SwapOpen(p, a, amountIn) {
        SettleIff(p, a, q);
      } else if Settle(p, a, q).Ok? {
        SettleNeeds(p, a, q);
      }
    }
  }

  /** The final comparison of the constants and the equality checks on the swapped amounts never
      reject a swap on a valid pool, whichever way it is quoted. */
  lemma GuardsNeverReject(p: Pool, a: SwapAccounts, amount: u64, limit: u64)
    requires Inv(p)
    ensures SwapInput(p, a, amount, limit).Err? ==>
              SwapInput(p, a, amount, limit).error !in {RequireGteViolated, RequireEqViolated}
    ensures SwapOutput(p, a, limit, amount).Err? ==>
              SwapOutput(p, a, limit, amount).error !in {RequireGteViolated, RequireEqViolated}
  {
    ReservesPositive(p);
    QuoteInputIff(p, a, amount, limit);
    if QuoteInput(p, a, amount, limit).Ok? {
      QuoteInputFair(p, a, amount, limit);
      SettleErrors(p, a, QuoteInput(p, a, amount, limit).value);
    }
    QuoteOutputErrors(p, a, limit, amount);
    if QuoteOutput(p, a, limit, amount).Ok? {
      QuoteOutputFair(p, a, limit, amount);
      SettleErrors(p, a, QuoteOutput(p, a, limit, amount).value);
    }
  }

  lemma QuoteOutputErrors(p: Pool, a: SwapAccounts, maximumIn: u64, amountOut: u64)
    ensures QuoteOutput(p, a, maximumIn, amountOut).Err? ==>
              QuoteOutput(p, a, maximumIn, amountOut).error !in {RequireGteViolated, RequireEqViolated}
  {
    AskOutputErrors(p, a, amountOut);
    if AskOutput(p, a, amountOut).Ok? {
      AskOutputConsistent(p, a, amountOut);
      AcceptOutputErrors(a, maximumIn, AskOutput(p, a, amountOut).value);
    }
  }

  lemma AskOutputErrors(p: Pool, a: SwapAccounts, amountOut: u64)
    ensures AskOutput(p, a, amountOut).Err? ==>
              AskOutput(p, a, amountOut).error !in {RequireGteViolated, RequireEqViolated}
  {
    AmountToSendErrors(a.outputMint, amountOut);
    ReadErrors(p, a);
    if AmountToSend(a.outputMint, amountOut).Ok? && ReadReserves(p, a).Ok? {
      var dy, reserves := AmountToSend(a.outputMint, amountOut).value, ReadReserves(p, a).value;
      OutputErrors(dy, reserves.x, reserves.y, p.config.rates);
    }
  }

  lemma AskOutputConsistent(p: Pool, a: SwapAccounts, amountOut: u64)
    requires AskOutput(p, a, amountOut).Ok?
    ensures var answer := AskOutput(p, a, amountOut).value;
            answer.result.destinationSwapped == answer.asked
  {
    AskOutputParts(p, a, amountOut);
    var answer := AskOutput(p, a, amountOut).value;
    OutputErrors(answer.asked, answer.reserves.x, answer.reserves.y, p.config.rates);
  }

  lemma AmountToSendErrors(mint: Mint, wanted: u64)
    ensures AmountToSend(mint, wanted).Err? ==>
              AmountToSend(mint, wanted).error in {InvalidInput, Panic, TransferFeeCalculateNotMatch}
  {
  }

  lemma ReadErrors(p: Pool, a: SwapAccounts)
    ensures ReadReserves(p, a).Err? ==> ReadReserves(p, a).error in {InvalidVault, Panic}
  {
  }

  lemma AcceptOutputErrors(a: SwapAccounts, maximumIn: u64, answer: Answer)
    requires answer.result.destinationSwapped == answer.asked
    ensures AcceptOutput(a, maximumIn, answer).Err? ==>
              AcceptOutput(a, maximumIn, answer).error !in {RequireGteViolated, RequireEqViolated}
  {
  }

  lemma SettleErrors(p: Pool, a: SwapAccounts, q: Quote)
    requires q.constantAfter >= q.reserves.constant
    ensures Settle(p, a, q).Err? ==> Settle(p, a, q).error in {Panic, TokenProgramError}
  {
  }

  /** A settled quote is charged the true ceiling of x * dy / (y - dy), net of the trade fee. */
  ghost predicate TrueCeiling(p: Pool, a: SwapAccounts, q: Quote) {
    var x, y := p.Get(a.inputVault).Reserve(), p.Get(a.outputVault).Reserve();
    && 0 <= x && 0 < q.sendOut < y
    && Fees.Net(Delivered(a.inputMint, q.sendIn), p.config.rates.trade) == Ceil(Times(x, q.sendOut), y - q.sendOut)
  }

  lemma GrossIsTrueCeiling(p: Pool, a: SwapAccounts, q: Quote)
    requires Read(p, a, q.reserves) && p.config.rates.Valid() && 0 < q.sendOut < q.reserves.y
    requires Delivered(a.inputMint, q.sendIn)
          == Fees.Gross(AmountIn(q.sendOut, q.reserves.x, q.reserves.y), p.config.rates.trade)
    ensures TrueCeiling(p, a, q)
  {
    Fees.NetOfGross(AmountIn(q.sendOut, q.reserves.x, q.reserves.y), p.config.rates.trade);
  }

  /** Every accepted exact-output swap was charged the true ceiling, although the division can
      answer 0 for a positive dividend; it delivers exactly the amount asked for and takes the
      quoted amount out of the vault. */
  lemma OutputChargedTrueCeiling(p: Pool, a: SwapAccounts, maximumIn: u64, amountOut: u64)
    requires Inv(p) && SwapOutput(p, a, maximumIn, amountOut).Ok?
    ensures var q := QuoteOutput(p, a, maximumIn, amountOut).value;
            var o := SwapOutput(p, a, maximumIn, amountOut).value;
            && TrueCeiling(p, a, q)
            && Swapped(p, a, q, o.pool)
            && o.receipt == SwapReceipt(a, q)
            && Delivered(a.outputMint, q.sendOut) == amountOut
            && q.sendIn <= maximumIn
  {
    var q := QuoteOutput(p, a, maximumIn, amountOut).value;
    QuoteOutputFair(p, a, maximumIn, amountOut);
    SettleBooks(p, a, q);
    GrossIsTrueCeiling(p, a, q);
  }

  /** What must leave the vault for amountOut to arrive. */
  ghost function Leaves(a: SwapAccounts, amountOut: u64): u64
    requires AmountToSend(a.outputMint, amountOut).Ok?
  {
    AmountToSend(a.outputMint, amountOut).value
  }

  /** An exact-output swap of dy has a price that is not rounded to nothing and fits. */
  ghost predicate Priceable(p: Pool, a: SwapAccounts, dy: int)
    requires p.config.rates.Valid()
    requires p.Get(a.inputVault).Reserve() > 0 && p.Get(a.outputVault).Reserve() > 0
  {
    var x, y := p.Get(a.inputVault).Reserve(), p.Get(a.outputVault).Reserve();
    && 0 <= dy < y
    && 2 * Times(x, dy) >= y - dy
    && Fees.Gross(AmountIn(dy, x, y), p.config.rates.trade) <= U64_MAX
  }

  ghost function Price(p: Pool, a: SwapAccounts, dy: int): u64
    requires p.config.rates.Valid()
    requires p.Get(a.inputVault).Reserve() > 0 && p.Get(a.outputVault).Reserve() > 0
    requires Priceable(p, a, dy)
  {
    Fees.Gross(AmountIn(dy, p.Get(a.inputVault).Reserve(), p.Get(a.outputVault).Reserve()), p.config.rates.trade)
  }

  /** An exact-output swap can be priced for the caller: its price can be grossed up for the input
      mint's transfer fee, and stays within maximumIn. */
  ghost predicate OutputAffordable(p: Pool, a: SwapAccounts, maximumIn: u64, amountOut: u64)
    requires p.config.rates.Valid()
    requires p.Get(a.inputVault).Reserve() > 0 && p.Get(a.outputVault).Reserve() > 0
  {
    && AmountToSend(a.outputMint, amountOut).Ok?
    && Priceable(p, a, Leaves(a, amountOut))
    && Sendable(a.inputMint, maximumIn, Price(p, a, Leaves(a, amountOut)))
  }

  /** What can be sent within a limit so that amount arrives. */
  ghost predicate Sendable(mint: Mint, maximum: u64, amount: int) {
    && 0 < amount <= U64_MAX
    && AmountToSend(mint, amount).Ok?
    && AmountToSend(mint, amount).value <= maximum
  }

  /** When the curve can be asked for an exact output, and what it answers. */
  lemma AskOutputIff(p: Pool, a: SwapAccounts, amountOut: u64)
    requires Inv(p) && p.side0.Reserve() > 0 && p.side1.Reserve() > 0
    ensures var answer := AskOutput(p, a, amountOut);
            && (answer.Ok? ==>
                  && Asked(p, a, amountOut)
                  && answer.value.asked == Leaves(a, amountOut)
                  && ConstantAfter(answer.value.result).Ok?
                  && answer.value.result.destinationSwapped == answer.value.asked
                  && (0 < answer.value.result.sourceSwapped <= U64_MAX <==> Priceable(p, a, Leaves(a, amountOut)))
                  && (Priceable(p, a, Leaves(a, amountOut)) ==>
                        answer.value.result.sourceSwapped == Price(p, a, Leaves(a, amountOut))))
            && (Asked(p, a, amountOut) && Priceable(p, a, Leaves(a, amountOut)) ==> answer.Ok?)
  {
    ReservesRead(p, a);
    var x, y := p.Get(a.inputVault).Reserve(), p.Get(a.outputVault).Reserve();
    if AskOutput(p, a, amountOut).Ok? {
      AskOutputParts(p, a, amountOut);
      OutputOutcome(Leaves(a, amountOut), x, y, p.config.rates);
    } else if Asked(p, a, amountOut) && Priceable(p, a, Leaves(a, amountOut)) {
      OutputOutcome(Leaves(a, amountOut), x, y, p.config.rates);
      AskOutputAnswered(p, a, amountOut, Leaves(a, amountOut), ReadReserves(p, a).value,
                        SwapBaseOutput(Leaves(a, amountOut), x, y, p.config.rates).value);
    }
  }

  lemma AskOutputAnswered(p: Pool, a: SwapAccounts, amountOut: u64, dy: u64, reserves: Reserves, r: SwapResult)
    requires Asked(p, a, amountOut) && dy == Leaves(a, amountOut)
    requires ReadReserves(p, a) == Ok(reserves)
    requires SwapBaseOutput(dy, reserves.x, reserves.y, p.config.rates) == Ok(r)
    ensures AskOutput(p, a, amountOut) == Ok(Answer(dy, reserves, r))
  {
    assert SwapBaseOutput(dy, reserves.x, reserves.y, p.config.rates).OkOr(ZeroTradingTokens) == Ok(r);
  }

  /** The conditions on an exact output that do not depend on its price. */
  ghost predicate Asked(p: Pool, a: SwapAccounts, amountOut: u64) {
    && amountOut > 0
    && p.Enabled(SwapFeature)
    && a.now >= p.openTime
    && a.inputVault != a.outputVault
    && AmountToSend(a.outputMint, amountOut).Ok?
  }

  /** The checks that follow the curve's answer to an exact output. */
  lemma AcceptOutputIff(a: SwapAccounts, maximumIn: u64, answer: Answer)
    requires ConstantAfter(answer.result).Ok? && answer.result.destinationSwapped == answer.asked
    ensures var q := AcceptOutput(a, maximumIn, answer);
            && (q.Ok? <==> Sendable(a.inputMint, maximumIn, answer.result.sourceSwapped))
            && (q.Ok? ==> AmountToSend(a.inputMint, answer.result.sourceSwapped) == Ok(q.value.sendIn))
  {
  }

  /** An exact-output quote of a valid pool is accepted exactly when swapping is open, the vaults
      differ and the output is affordable, and then it asks for the price and the transfer fee on
      top; the only price it is refused for is one that the ceiling division rounds to zero. */
  lemma QuoteOutputIff(p: Pool, a: SwapAccounts, maximumIn: u64, amountOut: u64)
    requires Inv(p)
    ensures p.side0.Reserve() > 0 && p.side1.Reserve() > 0
    ensures QuoteOutput(p, a, maximumIn, amountOut).Ok? <==>
            && amountOut > 0
            && p.Enabled(SwapFeature)
            && a.now >= p.openTime
            && a.inputVault != a.outputVault
            && OutputAffordable(p, a, maximumIn, amountOut)
    ensures QuoteOutput(p, a, maximumIn, amountOut).Ok? ==>
              AmountToSend(a.inputMint, Price(p, a, Leaves(a, amountOut)))
              == Ok(QuoteOutput(p, a, maximumIn, amountOut).value.sendIn)
  {
    ReservesPositive(p);
    AskOutputIff(p, a, amountOut);
    if AskOutput(p, a, amountOut).Ok? {
      AcceptOutputIff(a, maximumIn, AskOutput(p, a, amountOut).value);
    }
  }

  /** What arrives from an accepted exact-output quote is exactly its price. */
  lemma PriceArrives(p: Pool, a: SwapAccounts, maximumIn: u64, amountOut: u64)
    requires Inv(p) && QuoteOutput(p, a, maximumIn, amountOut).Ok?
    ensures p.side0.Reserve() > 0 && p.side1.Reserve() > 0 && OutputAffordable(p, a, maximumIn, amountOut)
    ensures Delivered(a.inputMint, QuoteOutput(p, a, maximumIn, amountOut).value.sendIn)
         == Price(p, a, Leaves(a, amountOut))
  {
    QuoteOutputIff(p, a, maximumIn, amountOut);
    AmountToSendExact(a.inputMint, Price(p, a, Leaves(a, amountOut)));
  }

  /** An exact-output swap on a valid pool is accepted if and only if the pool is open to it, the
      output is affordable, the caller can pay for it, the vault can hold the payment, and the
      oracle can take the price. */
  lemma SwapOutputAcceptedIff(p: Pool, a: SwapAccounts, maximumIn: u64, amountOut: u64)
    requires Inv(p)
    ensures p.side0.Reserve() > 0 && p.side1.Reserve() > 0
    ensures SwapOutput(p, a, maximumIn, amountOut).Ok? <==>
            && amountOut > 0
            && p.Enabled(SwapFeature)
            && a.now >= p.openTime
            && a.inputVault != a.outputVault
            && OutputAffordable(p, a, maximumIn, amountOut)
            && Payable(a.inputMint, a.funds, maximumIn, p.Get(a.inputVault).vault, Price(p, a, Leaves(a, amountOut)))
            && OracleReady(p, a.now)
  {
    QuoteOutputIff(p, a, maximumIn, amountOut);
    if QuoteOutput(p, a, maximumIn, amountOut).Ok? {
      QuoteOutputFair(p, a, maximumIn, amountOut);
      SettleOutputIff(p, a, maximumIn, QuoteOutput(p, a, maximumIn, amountOut).value,
                      Price(p, a, Leaves(a, amountOut)));
    }
  }

  /** A fair quote that asks for a price and the transfer fee on top settles exactly when that can
      be paid and the oracle can take the pool's price. */
  lemma SettleOutputIff(p: Pool, a: SwapAccounts, maximumIn: u64, q: Quote, price: u64)
    requires Inv(p) && Fair(p, a, q)
    requires Sendable(a.inputMint, maximumIn, price)
    requires AmountToSend(a.inputMint, price) == Ok(q.sendIn)
    ensures Settle(p, a, q).Ok? <==>
            && Payable(a.inputMint, a.funds, maximumIn, p.Get(a.inputVault).vault, price)
            && OracleReady(p, a.now)
  {
    AmountToSendExact(a.inputMint, price);
    if a.funds >= q.sendIn && p.Get(a.inputVault).vault + price <= U64_MAX {
      SettleIff(p, a, q);
    } else if Settle(p, a, q).Ok? {
      SettleNeeds(p, a, q);
    }
  }

  /** A depositor can pay what a vault is to be credited with. */
  ghost predicate Payable(mint: Mint, funds: u64, maximum: u64, vault: u64, amount: int) {
    && Sendable(mint, maximum, amount)
    && AmountToSend(mint, amount).value <= funds
    && vault + amount <= U64_MAX
  }

  // ---------- Liquidity ----------

  /** A deposit on a valid pool is accepted if and only if it is enabled, each token's share is at
      least one unit, both ceilings are payable, and the supply can grow.  Minting never fails
      on its own. */
  lemma DepositAcceptedIff(p: Pool, a: DepositAccounts, lp: u64, maximum0: u64, maximum1: u64)
    requires Inv(p)
    ensures Deposit(p, a, lp, maximum0, maximum1).Ok? <==>
            && lp > 0
            && p.Enabled(DepositFeature)
            && Times(lp, p.side0.Reserve()) >= p.lpSupply
            && Times(lp, p.side1.Reserve()) >= p.lpSupply
            && Payable(a.mint0, a.funds0, maximum0, p.side0.vault, Ceil(Times(lp, p.side0.Reserve()), p.lpSupply))
            && Payable(a.mint1, a.funds1, maximum1, p.side1.vault, Ceil(Times(lp, p.side1.Reserve()), p.lpSupply))
            && p.lpSupply + lp <= U64_MAX
  {
    CeilingComputed(lp, p.lpSupply, p.side0.Reserve());
    CeilingComputed(lp, p.lpSupply, p.side1.Reserve());
    DepositCases(p, a, lp, maximum0, maximum1,
                 Ceil(Times(lp, p.side0.Reserve()), p.lpSupply), Ceil(Times(lp, p.side1.Reserve()), p.lpSupply));
  }

  lemma CeilingComputed(lp: u64, supply: u64, reserve: u64)
    requires supply > 0
    ensures var amount := TokensFor(lp, supply, reserve, RoundUp);
            && amount.Ok?
            && (amount.value > 0 <==> Times(lp, reserve) >= supply)
            && (Times(lp, reserve) >= supply ==> amount.value == Ceil(Times(lp, reserve), supply))
  {
    ProductFits(lp, reserve);
    TokensForValue(lp, supply, reserve, RoundUp);
  }

  /** amount is what the nonzero rounded-up share is, where there is one. */
  ghost predicate ShareIs(tokens: Result<u128>, amount: nat) {
    tokens.Ok? && (tokens.value > 0 ==> tokens.value == amount)
  }

  /** The pool tokens stand for something on both sides. */
  ghost predicate Shared(p: Pool, lp: u64, direction: RoundDirection)
    requires p.side0.Owed() <= p.side0.vault && p.side1.Owed() <= p.side1.vault
  {
    var tokens0 := TokensFor(lp, p.lpSupply, p.side0.Reserve(), direction);
    var tokens1 := TokensFor(lp, p.lpSupply, p.side1.Reserve(), direction);
    tokens0.Ok? && tokens1.Ok? && tokens0.value > 0 && tokens1.value > 0
  }

  lemma SharesOfIff(p: Pool, lp: u64, direction: RoundDirection)
    requires p.side0.Owed() <= p.side0.vault && p.side1.Owed() <= p.side1.vault
    requires TokensFor(lp, p.lpSupply, p.side0.Reserve(), direction).Ok?
    requires TokensFor(lp, p.lpSupply, p.side1.Reserve(), direction).Ok?
    ensures var shares := SharesOf(p, lp, direction);
            && (shares.Ok? <==> Shared(p, lp, direction))
            && (shares.Err? ==> shares.error == ZeroTradingTokens)
            && (shares.Ok? ==>
                  shares.value == Shares(p.side0.Reserve(), p.side1.Reserve(),
                                         TradingTokens(TokensFor(lp, p.lpSupply, p.side0.Reserve(), direction).value,
                                                       TokensFor(lp, p.lpSupply, p.side1.Reserve(), direction).value)))
  {
  }

  lemma DepositOfIff(a: DepositAccounts, tokens: TradingTokens, maximum0: u64, maximum1: u64)
    requires tokens.token0 > 0 && tokens.token1 > 0
    ensures var t := DepositOf(a, tokens, maximum0, maximum1);
            && (t.Ok? <==> Sendable(a.mint0, maximum0, tokens.token0) && Sendable(a.mint1, maximum1, tokens.token1))
            && (t.Ok? ==>
                  && AmountToSend(a.mint0, tokens.token0) == Ok(t.value.amount0)
                  && AmountToSend(a.mint1, tokens.token1) == Ok(t.value.amount1))
  {
  }

  /** A deposit whose shares, if they are nonzero, are amount0 and amount1. */
  lemma DepositCases(p: Pool, a: DepositAccounts, lp: u64, maximum0: u64, maximum1: u64, amount0: nat, amount1: nat)
    requires Inv(p)
    requires ShareIs(TokensFor(lp, p.lpSupply, p.side0.Reserve(), RoundUp), amount0)
    requires ShareIs(TokensFor(lp, p.lpSupply, p.side1.Reserve(), RoundUp), amount1)
    ensures Deposit(p, a, lp, maximum0, maximum1).Ok? <==>
            && lp > 0
            && p.Enabled(DepositFeature)
            && Shared(p, lp, RoundUp)
            && Payable(a.mint0, a.funds0, maximum0, p.side0.vault, amount0)
            && Payable(a.mint1, a.funds1, maximum1, p.side1.vault, amount1)
            && p.lpSupply + lp <= U64_MAX
  {
    SharesOfIff(p, lp, RoundUp);
    PayableTransfers(a.mint0, a.funds0, maximum0, p.side0.vault, amount0);
    PayableTransfers(a.mint1, a.funds1, maximum1, p.side1.vault, amount1);
    if Shared(p, lp, RoundUp) {
      DepositOfIff(a, SharesOf(p, lp, RoundUp).value.tokens, maximum0, maximum1);
    }
    if QuoteDeposit(p, a, lp, maximum0, maximum1).Ok? {
      TakeDepositIff(p, a, lp, QuoteDeposit(p, a, lp, maximum0, maximum1).value);
    }
  }

  /** Moving a quoted deposit in fails only for want of funds or room. */
  lemma TakeDepositIff(p: Pool, a: DepositAccounts, lp: u64, terms: Terms)
    requires p.lpMintSupply <= p.lpSupply
    ensures TakeDeposit(p, a, lp, terms).Ok? <==>
            && TransferFromUser(a.mint0, a.funds0, p.side0.vault, terms.amount0).Ok?
            && TransferFromUser(a.mint1, a.funds1, p.side1.vault, terms.amount1).Ok?
            && p.lpSupply + lp <= U64_MAX
  {
  }

  /** Payable is what the limit and the transfer ask for together. */
  lemma PayableTransfers(mint: Mint, funds: u64, maximum: u64, vault: u64, amount: nat)
    ensures Payable(mint, funds, maximum, vault, amount) <==>
            && Sendable(mint, maximum, amount)
            && TransferFromUser(mint, funds, vault, AmountToSend(mint, amount).value).Ok?
  {
    if Sendable(mint, maximum, amount) {
      AmountToSendExact(mint, amount);
    }
  }

  /** A withdrawal on a valid pool is accepted if and only if it is enabled, the owner holds the
      pool tokens and they are in circulation, each token's share is at least one unit, and what
      arrives reaches the minimums. */
  lemma WithdrawAcceptedIff(p: Pool, a: WithdrawAccounts, lp: u64, minimum0: u64, minimum1: u64)
    requires Inv(p)
    ensures Withdraw(p, a, lp, minimum0, minimum1).Ok? <==>
            && lp > 0
            && p.Enabled(WithdrawFeature)
            && lp <= a.ownerLp && lp <= p.lpMintSupply
            && Times(lp, p.side0.Reserve()) >= p.lpSupply
            && Times(lp, p.side1.Reserve()) >= p.lpSupply
            && ReceivesAtLeast(a.mint0, Redeemed(p, lp, Token0), minimum0)
            && ReceivesAtLeast(a.mint1, Redeemed(p, lp, Token1), minimum1)
  {
    ShareComputed(lp, p.lpSupply, p.side0.Reserve());
    ShareComputed(lp, p.lpSupply, p.side1.Reserve());
    WithdrawQuoteIff(p, a, lp, minimum0, minimum1, Redeemed(p, lp, Token0), Redeemed(p, lp, Token1));
    if QuoteWithdraw(p, a, lp, minimum0, minimum1).Ok? {
      PayWithdrawalIff(p, a, lp, QuoteWithdraw(p, a, lp, minimum0, minimum1).value);
    }
  }

  /** The share of a reserve that pool tokens redeem. */
  ghost function Redeemed(p: Pool, lp: u64, t: Token): nat
    requires Inv(p)
  {
    Floor(Times(lp, p.Get(t).Reserve()), p.lpSupply)
  }

  lemma WithdrawalOfIff(a: WithdrawAccounts, shares: Shares, minimum0: u64, minimum1: u64)
    ensures var t := WithdrawalOf(a, shares, minimum0, minimum1);
            var amount0 := Min(shares.reserve0, shares.tokens.token0);
            var amount1 := Min(shares.reserve1, shares.tokens.token1);
            var fit := shares.tokens.token0 <= U64_MAX && shares.tokens.token1 <= U64_MAX;
            && (t.Ok? <==> fit && ReceivesAtLeast(a.mint0, amount0, minimum0)
                           && ReceivesAtLeast(a.mint1, amount1, minimum1))
            && (t.Ok? ==> t.value == Terms(amount0, amount1))
            && (t.Err? ==> t.error == if fit then ExceededSlippage else Panic)
  {
  }

  /** The quote of a withdrawal whose shares are amount0 and amount1: when it is accepted, and when
      it ends in a panic. */
  lemma WithdrawQuoteIff(p: Pool, a: WithdrawAccounts, lp: u64, minimum0: u64, minimum1: u64,
                         amount0: nat, amount1: nat)
    requires p.side0.Owed() <= p.side0.vault && p.side1.Owed() <= p.side1.vault
    requires TokensFor(lp, p.lpSupply, p.side0.Reserve(), RoundDown) == Ok(amount0)
    requires TokensFor(lp, p.lpSupply, p.side1.Reserve(), RoundDown) == Ok(amount1)
    ensures var q := QuoteWithdraw(p, a, lp, minimum0, minimum1);
            var paid0, paid1 := Min(p.side0.Reserve(), amount0), Min(p.side1.Reserve(), amount1);
            var asked := lp > 0 && p.lpMintSupply > 0 && p.Enabled(WithdrawFeature) && amount0 > 0 && amount1 > 0;
            var fit := amount0 <= U64_MAX && amount1 <= U64_MAX;
            && (q.Ok? <==>
                asked && fit && ReceivesAtLeast(a.mint0, paid0, minimum0) && ReceivesAtLeast(a.mint1, paid1, minimum1))
            && (q.Ok? ==> q.value == Terms(paid0, paid1))
            && (q == Err(Panic) <==> asked && !fit)
            && (q.Err? ==> q.error in {RequireGtViolated, NotApproved, ZeroTradingTokens, ExceededSlippage, Panic})
  {
    SharesOfIff(p, lp, RoundDown);
    if SharesOf(p, lp, RoundDown).Ok? {
      WithdrawalOfIff(a, SharesOf(p, lp, RoundDown).value, minimum0, minimum1);
    }
  }

  /** A withdrawal of pool tokens that are in circulation never panics: its clamps change nothing, its
      subtraction from the supply succeeds, and only an owner who holds too few makes the token
      program reject it. */
  lemma WithdrawalGuards(p: Pool, a: WithdrawAccounts, lp: u64, minimum0: u64, minimum1: u64)
    requires Inv(p) && lp <= p.lpMintSupply
    ensures Redeemed(p, lp, Token0) <= p.side0.Reserve() && Redeemed(p, lp, Token1) <= p.side1.Reserve()
    ensures var r := Withdraw(p, a, lp, minimum0, minimum1);
            && (r.Ok? ==> p.side0.vault - r.value.pool.side0.vault == Redeemed(p, lp, Token0)
                          && p.side1.vault - r.value.pool.side1.vault == Redeemed(p, lp, Token1))
            && (r.Err? ==> r.error != Panic && (r.error == TokenProgramError ==> a.ownerLp < lp))
  {
    ShareComputed(lp, p.lpSupply, p.side0.Reserve());
    ShareComputed(lp, p.lpSupply, p.side1.Reserve());
    WithdrawQuoteIff(p, a, lp, minimum0, minimum1, Redeemed(p, lp, Token0), Redeemed(p, lp, Token1));
    var q := QuoteWithdraw(p, a, lp, minimum0, minimum1);
    if q.Ok? {
      PayWithdrawalErrors(p, a, lp, q.value);
      if PayWithdrawal(p, a, lp, q.value).Ok? {
        PayWithdrawalBooks(p, a, lp, q.value);
      }
    }
  }

  lemma PayWithdrawalErrors(p: Pool, a: WithdrawAccounts, lp: u64, terms: Terms)
    requires terms.amount0 <= p.side0.vault && terms.amount1 <= p.side1.vault
    ensures var r := PayWithdrawal(p, a, lp, terms);
            && (r == Err(Panic) <==> lp > p.lpSupply)
            && (lp <= p.lpMintSupply && lp <= p.lpSupply && r.Err? ==> r.error == TokenProgramError && a.ownerLp < lp)
  {
  }

  /** More pool tokens than the supply redeem at least the whole reserve. */
  lemma OversizedShare(lp: u64, supply: u64, reserve: u64)
    requires lp > supply > 0
    ensures Floor(Times(lp, reserve), supply) >= reserve
  {
    TimesMono(supply, reserve, lp, reserve);
    TimesCommutes(supply, reserve);
    TimesIs(reserve, supply);
    FloorAdjoint(Times(lp, reserve), supply, reserve);
  }

  /** Exactly when a withdrawal on a valid pool panics: more pool tokens are asked for than the supply
      counts, in an enabled pool with some in circulation, and either a share does not fit, or
      the whole reserves, which the clamps leave of the shares, reach the minimums. */
  lemma WithdrawalPanicsIff(p: Pool, a: WithdrawAccounts, lp: u64, minimum0: u64, minimum1: u64)
    requires Inv(p)
    ensures Withdraw(p, a, lp, minimum0, minimum1) == Err(Panic) <==>
            && lp > p.lpSupply
            && p.lpMintSupply > 0
            && p.Enabled(WithdrawFeature)
            && (|| Redeemed(p, lp, Token0) > U64_MAX
                || Redeemed(p, lp, Token1) > U64_MAX
                || (ReceivesAtLeast(a.mint0, p.side0.Reserve(), minimum0)
                    && ReceivesAtLeast(a.mint1, p.side1.Reserve(), minimum1)))
  {
    ReservesPositive(p);
    ShareComputed(lp, p.lpSupply, p.side0.Reserve());
    ShareComputed(lp, p.lpSupply, p.side1.Reserve());
    if lp > p.lpSupply {
      OversizedShare(lp, p.lpSupply, p.side0.Reserve());
      OversizedShare(lp, p.lpSupply, p.side1.Reserve());
    }
    WithdrawQuoteIff(p, a, lp, minimum0, minimum1, Redeemed(p, lp, Token0), Redeemed(p, lp, Token1));
    var q := QuoteWithdraw(p, a, lp, minimum0, minimum1);
    if q.Ok? {
      PayWithdrawalErrors(p, a, lp, q.value);
    }
  }

  /** Moving a quoted withdrawal out fails only for want of pool tokens or of room in a vault. */
  lemma PayWithdrawalIff(p: Pool, a: WithdrawAccounts, lp: u64, terms: Terms)
    requires p.lpMintSupply <= p.lpSupply
    ensures PayWithdrawal(p, a, lp, terms).Ok? <==>
            && lp <= a.ownerLp && lp <= p.lpMintSupply
            && terms.amount0 <= p.side0.vault && terms.amount1 <= p.side1.vault
  {
  }

  ghost predicate ReceivesAtLeast(mint: Mint, amount: int, minimum: u64) {
    0 <= amount <= U64_MAX && Delivered(mint, amount) >= minimum
  }

  lemma ShareComputed(lp: u64, supply: u64, reserve: u64)
    requires supply > 0
    ensures TokensFor(lp, supply, reserve, RoundDown) == Ok(Floor(Times(lp, reserve), supply))
    ensures Floor(Times(lp, reserve), supply) > 0 <==> Times(lp, reserve) >= supply
    ensures lp <= supply ==> Floor(Times(lp, reserve), supply) <= reserve
  {
    ProductFits(lp, reserve);
    CeilPositive(Times(lp, reserve), supply);
    if lp <= supply {
      SideShrinks(lp, supply, reserve, Floor(Times(lp, reserve), supply));
    }
  }

  /** In a valid pool an oracle update never aborts while the last observation is less than 2^32
      seconds old. */
  lemma OracleReadyWhenRecent(p: Pool, now: u64)
    requires Inv(p)
    requires p.ring.initialized ==> now < p.ring.slots[p.ring.index].timestamp + 0x1_0000_0000
    ensures OracleReady(p, now)
  {
    ReservesPositive(p);
    var x, y := p.side0.Reserve(), p.side1.Reserve();
    PriceFits(y, x);
    PriceFits(x, y);
    var prices := TokenPriceX32(x, y).value;
    UpdateNeverAborts(p.ring, now, prices.0, prices.1);
    UpdatedIff(p.ring, now, prices.0, prices.1);
  }
}
