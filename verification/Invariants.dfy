/** The pool invariant, what every accepted step keeps, and what every accepted step accounts for. */
module Invariants {
  import opened Checked
  import opened Rounding
  import opened Tokens
  import opened ConstantProduct
  import opened Calculator
  import opened Oracle
  import opened Pools
  import opened Transitions
  import Math
  import Fees

  /** The invariant of every reachable pool: the fees owed fit in the vaults, at least the locked
      pool tokens are never in circulation, the pool tokens are backed by the product of the
      reserves, and the rates are in their bounds. */
  ghost predicate Inv(p: Pool) {
    && p.side0.Owed() <= p.side0.vault
    && p.side1.Owed() <= p.side1.vault
    && p.lpMintSupply + LOCKED_LP <= p.lpSupply
    && Times(p.lpSupply, p.lpSupply) <= Product(p)
    && p.config.rates.Valid()
  }

  ghost function Product(p: Pool): int {
    Times(p.side0.Reserve(), p.side1.Reserve())
  }

  /** k' / l'^2 >= k / l^2, without the division. */
  ghost predicate NotWorse(k: int, l: int, k': int, l': int) {
    Times(k', Times(l, l)) >= Times(k, Times(l', l'))
  }

  lemma NotWorseIs(k: int, l: int, k': int, l': int)
    ensures NotWorse(k, l, k', l') <==> k' * (l * l) >= k * (l' * l')
  {
    TimesIs(l, l);
    TimesIs(l', l');
    TimesIs(k', l * l);
    TimesIs(k, l' * l');
  }

  /** The squared value of a pool token, Product / lpSupply^2, did not fall from p to p'. */
  ghost predicate ShareKept(p: Pool, p': Pool) {
    NotWorse(Product(p), p.lpSupply, Product(p'), p'.lpSupply)
  }

  /** One token's books: tokens move between users, mints, fee recipients and the vault without
      loss, and each fee bucket changes by what accrued less what was collected. */
  ghost predicate Accounted(before: Side, after: Side, r: Receipt, t: Token) {
    && after.vault + r.users.received.Of(t) + r.users.withheld.Of(t)
       + r.collected.protocol.Of(t) + r.collected.fund.Of(t)
       == before.vault + r.users.paid.Of(t)
    && after.protocolFees + r.collected.protocol.Of(t) == before.protocolFees + r.accrued.protocol.Of(t)
    && after.fundFees + r.collected.fund.Of(t) == before.fundFees + r.accrued.fund.Of(t)
  }

  /** One token's books since the creation of the pool. */
  ghost predicate Books(side: Side, total: Receipt, t: Token) {
    && side.vault + total.users.received.Of(t) + total.users.withheld.Of(t)
       + total.collected.protocol.Of(t) + total.collected.fund.Of(t)
       == total.users.paid.Of(t)
    && side.protocolFees + total.collected.protocol.Of(t) == total.accrued.protocol.Of(t)
    && side.fundFees + total.collected.fund.Of(t) == total.accrued.fund.Of(t)
  }

  ghost predicate Safe(p: Pool, o: Outcome) {
    && Inv(o.pool)
    && ShareKept(p, o.pool)
    && Accounted(p.side0, o.pool.side0, o.receipt, Token0)
    && Accounted(p.side1, o.pool.side1, o.receipt, Token1)
    && (o.tick.Some? ==> o.tick.value.price0 < TWO_96 && o.tick.value.price1 < TWO_96)
  }

  // ---------- Arithmetic ----------

  /** A product that backs the old supply and keeps the share value backs the new supply. */
  lemma BackingKept(k: int, l: nat, k': int, l': nat)
    requires l > 0 && Times(l, l) <= k && NotWorse(k, l, k', l')
    ensures Times(l', l') <= k'
  {
    NotWorseIs(k, l, k', l');
    TimesIs(l, l);
    TimesIs(l', l');
    BackingArithmetic(k, l * l, k', l' * l');
  }

  lemma BackingArithmetic(k: int, s: nat, k': int, s': nat)
    requires s > 0 && s <= k && k' * s >= k * s'
    ensures s' <= k'
  {
    MulMono(s, k, s');
    assert s * s' == s' * s;
    Cancel(s', k', s);
  }

  /** Each reserve kept per pool token keeps the share value. */
  lemma ShareFromSides(x: nat, y: nat, l: nat, x': nat, y': nat, l': nat)
    requires Times(x', l) >= Times(x, l') && Times(y', l) >= Times(y, l')
    ensures NotWorse(Times(x, y), l, Times(x', y'), l')
  {
    TimesMono(Times(x, l'), Times(y, l'), Times(x', l), Times(y', l));
    Regroup(x, y, l');
    Regroup(x', y', l);
  }

  lemma Regroup(x: int, y: int, l: int)
    ensures Times(Times(x, l), Times(y, l)) == Times(Times(x, y), Times(l, l))
  {
    TimesIs(x, l);
    TimesIs(y, l);
    TimesIs(x, y);
    TimesIs(l, l);
    TimesIs(Times(x, l), Times(y, l));
    TimesIs(Times(x, y), Times(l, l));
    RegroupProducts(x, y, l);
  }

  lemma RegroupProducts(x: int, y: int, l: int)
    ensures (x * l) * (y * l) == (x * y) * (l * l)
  {
    assert (x * l) * (y * l) == x * (l * y) * l;
    assert (x * y) * (l * l) == x * (y * l) * l;
  }

  lemma ReservesPositive(p: Pool)
    requires Inv(p)
    ensures p.side0.Reserve() > 0 && p.side1.Reserve() > 0
  {
    TimesMono(100, 100, p.lpSupply, p.lpSupply);
    TimesIs(100, 100);
    TimesIs(p.side0.Reserve(), p.side1.Reserve());
  }

  /** A pool that keeps its books and its share value, with the same or a valid configuration,
      keeps the invariant. */
  lemma InvFromShare(p: Pool, p': Pool)
    requires Inv(p) && ShareKept(p, p')
    requires p'.side0.Owed() <= p'.side0.vault && p'.side1.Owed() <= p'.side1.vault
    requires p'.lpMintSupply + LOCKED_LP <= p'.lpSupply
    requires p'.config.rates.Valid()
    ensures Inv(p')
  {
    BackingKept(Product(p), p.lpSupply, Product(p'), p'.lpSupply);
  }

  /** With the same pool-token supply it is enough that the product does not fall. */
  lemma ShareFromProduct(p: Pool, p': Pool)
    requires p'.lpSupply == p.lpSupply && 0 <= Product(p) <= Product(p')
    ensures ShareKept(p, p')
  {
    TimesMono(Product(p), Times(p.lpSupply, p.lpSupply), Product(p'), Times(p.lpSupply, p.lpSupply));
  }

  // ---------- Swaps ----------

  /** Reading the reserves of a valid pool fails only for two equal vaults. */
  lemma ReservesRead(p: Pool, a: SwapAccounts)
    requires Inv(p)
    ensures ReadReserves(p, a).Ok? <==> a.inputVault != a.outputVault
    ensures ReadReserves(p, a).Ok? ==> Read(p, a, ReadReserves(p, a).value)
  {
    ReservesPositive(p);
    var x, y := p.side0.Reserve(), p.side1.Reserve();
    ProductFits(x, y);
    PriceMeaning(x, y);
    TimesCommutes(x, y);
  }

  /** The state a swap is quoted in: two different vaults and their positive reserves. */
  ghost predicate Read(p: Pool, a: SwapAccounts, r: Reserves) {
    && a.inputVault != a.outputVault
    && r.x == p.Get(a.inputVault).Reserve() > 0
    && r.y == p.Get(a.outputVault).Reserve() > 0
    && r.constant == Times(r.x, r.y)
    && TokenPriceX32(p.side0.Reserve(), p.side1.Reserve()) == Ok((r.price0, r.price1))
    && r.price0 < TWO_96 && r.price1 < TWO_96
  }

  /** A quote is fair when its fee shares fit in its trade fee, the trade fee in the delivered
      input, and the constant, the trade fee left aside, does not fall. */
  ghost predicate Fair(p: Pool, a: SwapAccounts, q: Quote) {
    var s, r := Delivered(a.inputMint, q.sendIn), q.reserves;
    && Read(p, a, r)
    && q.result.protocolFee + q.result.fundFee <= q.result.tradeFee <= s
    && q.sendOut <= r.y
    && q.constantAfter == Times(r.x + (s - q.result.tradeFee), r.y - q.sendOut)
    && q.constantAfter >= r.constant
  }

  /** The quote is the exact price of what its input delivers. */
  ghost predicate Exact(p: Pool, a: SwapAccounts, q: Quote) {
    && Priced(q.result, Delivered(a.inputMint, q.sendIn), q.sendOut, q.reserves.x, q.reserves.y, p.config.rates)
    && Delivered(a.inputMint, q.sendIn) > 0
    && Delivered(a.outputMint, q.sendOut) > 0
  }

  lemma SharesFit(r: SwapResult, s: nat, out: nat, x: nat, y: nat, rates: Rates)
    requires rates.Valid() && Priced(r, s, out, x, y, rates)
    ensures r.protocolFee + r.fundFee <= r.tradeFee <= s
  {
    Fees.SharesWithinFee(r.tradeFee, rates.protocol, rates.fund);
    Fees.NetNonNegative(s, rates.trade);
  }

  /** Where the parts of an exact-input quote come from. */
  ghost predicate InputParts(p: Pool, a: SwapAccounts, q: Quote, amountIn: u64) {
    && q.sendIn == amountIn
    && 0 < Delivered(a.inputMint, amountIn)
    && SwapBaseInput(Delivered(a.inputMint, amountIn), q.reserves.x, q.reserves.y, p.config.rates) == Ok(q.result)
    && q.result.destinationSwapped == q.sendOut
    && ConstantAfter(q.result) == Ok(q.constantAfter)
    && Delivered(a.outputMint, q.sendOut) > 0
  }

  lemma AskInputParts(p: Pool, a: SwapAccounts, amountIn: u64)
    requires AskInput(p, a, amountIn).Ok?
    ensures var answer := AskInput(p, a, amountIn).value;
            && answer.asked == Delivered(a.inputMint, amountIn) > 0
            && ReadReserves(p, a) == Ok(answer.reserves)
            && SwapBaseInput(answer.asked, answer.reserves.x, answer.reserves.y, p.config.rates) == Ok(answer.result)
  {
  }

  lemma AcceptInputParts(a: SwapAccounts, amountIn: u64, minimumOut: u64, answer: Answer)
    requires AcceptInput(a, amountIn, minimumOut, answer).Ok?
    ensures var q := AcceptInput(a, amountIn, minimumOut, answer).value;
            && q.reserves == answer.reserves && q.result == answer.result
            && ConstantAfter(q.result) == Ok(q.constantAfter)
            && q.sendIn == amountIn && q.sendOut == q.result.destinationSwapped
            && Delivered(a.outputMint, q.sendOut) > 0
            && Delivered(a.outputMint, q.sendOut) >= minimumOut
  {
  }

  lemma QuoteInputParts(p: Pool, a: SwapAccounts, amountIn: u64, minimumOut: u64)
    requires QuoteInput(p, a, amountIn, minimumOut).Ok?
    ensures var q := QuoteInput(p, a, amountIn, minimumOut).value;
            && ReadReserves(p, a) == Ok(q.reserves)
            && InputParts(p, a, q, amountIn)
            && Delivered(a.outputMint, q.sendOut) >= minimumOut
  {
    AskInputParts(p, a, amountIn);
    AcceptInputParts(a, amountIn, minimumOut, AskInput(p, a, amountIn).value);
  }

  lemma InputPartsFair(p: Pool, a: SwapAccounts, q: Quote, amountIn: u64)
    requires Read(p, a, q.reserves) && p.config.rates.Valid() && InputParts(p, a, q, amountIn)
    ensures Exact(p, a, q) && Fair(p, a, q)
    ensures Fees.Net(Delivered(a.inputMint, amountIn), p.config.rates.trade) >= 0
    ensures q.sendOut == AmountOut(Fees.Net(Delivered(a.inputMint, amountIn), p.config.rates.trade),
                                   q.reserves.x, q.reserves.y)
  {
    var s, x, y, rates := Delivered(a.inputMint, amountIn), q.reserves.x, q.reserves.y, p.config.rates;
    InputResult(s, x, y, rates);
    InputConstant(q.result, Fees.Net(s, rates.trade), x, y);
    SharesFit(q.result, s, q.sendOut, x, y, rates);
  }

  /** An accepted exact-input quote is exact and fair, and pays what the curve gives for the
      delivered input less the trade fee. */
  lemma QuoteInputFair(p: Pool, a: SwapAccounts, amountIn: u64, minimumOut: u64)
    requires Inv(p) && QuoteInput(p, a, amountIn, minimumOut).Ok?
    ensures var q := QuoteInput(p, a, amountIn, minimumOut).value;
            && Exact(p, a, q)
            && Fair(p, a, q)
            && q.sendIn == amountIn
            && Fees.Net(Delivered(a.inputMint, amountIn), p.config.rates.trade) >= 0
            && q.sendOut == AmountOut(Fees.Net(Delivered(a.inputMint, amountIn), p.config.rates.trade),
                                      q.reserves.x, q.reserves.y)
            && Delivered(a.outputMint, q.sendOut) >= minimumOut
  {
    ReservesRead(p, a);
    QuoteInputParts(p, a, amountIn, minimumOut);
    InputPartsFair(p, a, QuoteInput(p, a, amountIn, minimumOut).value, amountIn);
  }

  /** Where the parts of an exact-output quote come from. */
  ghost predicate OutputParts(p: Pool, a: SwapAccounts, q: Quote, amountOut: u64) {
    var r := SwapBaseOutput(q.sendOut, q.reserves.x, q.reserves.y, p.config.rates);
    && amountOut > 0
    && AmountToSend(a.outputMint, amountOut) == Ok(q.sendOut)
    && r == Ok(q.result)
    && 0 < q.result.sourceSwapped <= U64_MAX
    && AmountToSend(a.inputMint, q.result.sourceSwapped) == Ok(q.sendIn)
    && ConstantAfter(q.result) == Ok(q.constantAfter)
  }

  lemma AskOutputParts(p: Pool, a: SwapAccounts, amountOut: u64)
    requires AskOutput(p, a, amountOut).Ok?
    ensures var answer := AskOutput(p, a, amountOut).value;
            && p.Enabled(SwapFeature) && a.now >= p.openTime
            && amountOut > 0 && AmountToSend(a.outputMint, amountOut) == Ok(answer.asked)
            && ReadReserves(p, a) == Ok(answer.reserves)
            && SwapBaseOutput(answer.asked, answer.reserves.x, answer.reserves.y, p.config.rates) == Ok(answer.result)
  {
  }

  lemma AcceptOutputParts(a: SwapAccounts, maximumIn: u64, answer: Answer)
    requires AcceptOutput(a, maximumIn, answer).Ok?
    ensures var q := AcceptOutput(a, maximumIn, answer).value;
            && q.reserves == answer.reserves && q.result == answer.result && q.sendOut == answer.asked
            && ConstantAfter(q.result) == Ok(q.constantAfter)
            && 0 < q.result.sourceSwapped <= U64_MAX && q.sendIn <= maximumIn
            && AmountToSend(a.inputMint, q.result.sourceSwapped) == Ok(q.sendIn)
  {
  }

  lemma QuoteOutputParts(p: Pool, a: SwapAccounts, maximumIn: u64, amountOut: u64)
    requires QuoteOutput(p, a, maximumIn, amountOut).Ok?
    ensures var q := QuoteOutput(p, a, maximumIn, amountOut).value;
            && ReadReserves(p, a) == Ok(q.reserves)
            && OutputParts(p, a, q, amountOut)
            && q.sendIn <= maximumIn
            && p.Enabled(SwapFeature) && a.now >= p.openTime
  {
    AskOutputParts(p, a, amountOut);
    AcceptOutputParts(a, maximumIn, AskOutput(p, a, amountOut).value);
  }

  /** A result priced exactly, and grossed up exactly, makes a fair quote. */
  lemma PricedOutputFair(p: Pool, a: SwapAccounts, q: Quote)
    requires Read(p, a, q.reserves) && p.config.rates.Valid() && q.sendOut < q.reserves.y
    requires Exact(p, a, q) && q.result.sourceSwapped > 0
    requires Fees.Net(q.result.sourceSwapped, p.config.rates.trade) == AmountIn(q.sendOut, q.reserves.x, q.reserves.y)
    requires ConstantAfter(q.result) == Ok(q.constantAfter)
    ensures Fair(p, a, q)
  {
    OutputConstant(q.result, q.sendOut, q.reserves.x, q.reserves.y, p.config.rates);
    SharesFit(q.result, q.result.sourceSwapped, q.sendOut, q.reserves.x, q.reserves.y, p.config.rates);
  }

  /** An exact-output quote is exact and fair; it charges the grossed-up true ceiling and both
      transfer-fee gross-ups are exact. */
  lemma OutputPartsFair(p: Pool, a: SwapAccounts, q: Quote, amountOut: u64)
    requires Read(p, a, q.reserves) && p.config.rates.Valid() && OutputParts(p, a, q, amountOut)
    ensures Exact(p, a, q) && Fair(p, a, q)
    ensures q.sendOut < q.reserves.y
    ensures Delivered(a.outputMint, q.sendOut) == amountOut
    ensures Delivered(a.inputMint, q.sendIn)
         == Fees.Gross(AmountIn(q.sendOut, q.reserves.x, q.reserves.y), p.config.rates.trade)
  {
    AmountToSendExact(a.outputMint, amountOut);
    AmountToSendExact(a.inputMint, q.result.sourceSwapped);
    OutputResult(q.sendOut, q.reserves.x, q.reserves.y, p.config.rates);
    PricedOutputFair(p, a, q);
  }

  /** An accepted exact-output quote is exact and fair, delivers exactly the amount asked for, and
      charges the grossed-up true ceiling within the maximum. */
  lemma QuoteOutputFair(p: Pool, a: SwapAccounts, maximumIn: u64, amountOut: u64)
    requires Inv(p) && QuoteOutput(p, a, maximumIn, amountOut).Ok?
    ensures var q := QuoteOutput(p, a, maximumIn, amountOut).value;
            && Exact(p, a, q)
            && Fair(p, a, q)
            && q.sendIn <= maximumIn
            && q.sendOut < q.reserves.y
            && Delivered(a.outputMint, q.sendOut) == amountOut
            && Delivered(a.inputMint, q.sendIn)
               == Fees.Gross(AmountIn(q.sendOut, q.reserves.x, q.reserves.y), p.config.rates.trade)
  {
    ReservesRead(p, a);
    QuoteOutputParts(p, a, maximumIn, amountOut);
    OutputPartsFair(p, a, QuoteOutput(p, a, maximumIn, amountOut).value, amountOut);
  }

  /** The books of an accepted swap: the input side keeps what was delivered and owes the two fee
      shares out of it, the output side gives up what was sent, and nothing else changes but
      the oracle. */
  ghost predicate Swapped(p: Pool, a: SwapAccounts, q: Quote, p': Pool) {
    var destination, destination' := p.Get(a.outputVault), p'.Get(a.outputVault);
    && Received(p.Get(a.inputVault), p'.Get(a.inputVault), a, q)
    && destination'.vault == destination.vault - q.sendOut
    && destination'.protocolFees == destination.protocolFees
    && destination'.fundFees == destination.fundFees
    && p' == p.(side0 := p'.side0, side1 := p'.side1, ring := p'.ring)
  }

  /** The accrual and the incoming transfer, in numbers. */
  lemma ReceiveInputBooks(side: Side, a: SwapAccounts, q: Quote)
    requires ReceiveInput(side, a, q).Ok?
    ensures Received(side, ReceiveInput(side, a, q).value, a, q)
  {
  }

  ghost predicate Received(side: Side, side': Side, a: SwapAccounts, q: Quote) {
    && side'.vault == side.vault + Delivered(a.inputMint, q.sendIn)
    && side'.protocolFees == side.protocolFees + q.result.protocolFee
    && side'.fundFees == side.fundFees + q.result.fundFee
  }

  lemma SettleShape(p: Pool, a: SwapAccounts, q: Quote)
    requires a.inputVault != a.outputVault && Settle(p, a, q).Ok?
    ensures var p' := Settle(p, a, q).value.pool;
            && ReceiveInput(p.Get(a.inputVault), a, q) == Ok(p'.Get(a.inputVault))
            && q.sendOut <= p.Get(a.outputVault).vault
            && p'.Get(a.outputVault)
               == p.Get(a.outputVault).(vault := p.Get(a.outputVault).vault - q.sendOut)
            && p' == p.(side0 := p'.side0, side1 := p'.side1, ring := p'.ring)
    ensures Settle(p, a, q).value.receipt == SwapReceipt(a, q)
    ensures Settle(p, a, q).value.tick == Some(Tick(a.now, q.reserves.price0, q.reserves.price1))
  {
  }

  /** After an accepted swap the reserve of the input side is x + delivered - protocol - fund and
      that of the output side y - sent; the fee shares stay within the trade fee. */
  lemma SettleBooks(p: Pool, a: SwapAccounts, q: Quote)
    requires Inv(p) && Fair(p, a, q) && Settle(p, a, q).Ok?
    ensures var p' := Settle(p, a, q).value.pool;
            Swapped(p, a, q, p') && ReservesMoved(a, q, p')
    ensures Settle(p, a, q).value.receipt == SwapReceipt(a, q)
    ensures Settle(p, a, q).value.tick == Some(Tick(a.now, q.reserves.price0, q.reserves.price1))
  {
    var p' := Settle(p, a, q).value.pool;
    SettleShape(p, a, q);
    ReceiveInputBooks(p.Get(a.inputVault), a, q);
    ReservesFromBooks(p, a, q, p');
  }

  ghost predicate ReservesMoved(a: SwapAccounts, q: Quote, p': Pool) {
    var source', destination' := p'.Get(a.inputVault), p'.Get(a.outputVault);
    && source'.Reserve()
       == q.reserves.x + Delivered(a.inputMint, q.sendIn) - q.result.protocolFee - q.result.fundFee
    && source'.Reserve() >= q.reserves.x + (Delivered(a.inputMint, q.sendIn) - q.result.tradeFee)
    && destination'.Reserve() == q.reserves.y - q.sendOut
    && AmountWithoutFeeOk(source') && AmountWithoutFeeOk(destination')
  }

  lemma ReservesFromBooks(p: Pool, a: SwapAccounts, q: Quote, p': Pool)
    requires Inv(p) && Fair(p, a, q) && Swapped(p, a, q, p')
    ensures ReservesMoved(a, q, p')
  {
    Readable(p'.Get(a.inputVault));
    Readable(p'.Get(a.outputVault));
  }

  lemma Readable(side: Side)
    requires side.Owed() <= side.vault
    ensures AmountWithoutFeeOk(side)
  {
  }

  /** The next reading of this vault without fees succeeds and gives its reserve. */
  ghost predicate AmountWithoutFeeOk(side: Side) {
    side.Reserve() >= 0 && side.AmountWithoutFee() == Ok(side.Reserve())
  }

  lemma SettleProduct(p: Pool, a: SwapAccounts, q: Quote, p': Pool)
    requires Fair(p, a, q) && ReservesMoved(a, q, p')
    ensures Product(p') >= Product(p) >= 0
  {
    TimesMono(q.reserves.x + (Delivered(a.inputMint, q.sendIn) - q.result.tradeFee),
              p'.Get(a.outputVault).Reserve(),
              p'.Get(a.inputVault).Reserve(),
              p'.Get(a.outputVault).Reserve());
    ProductBySide(p, a.inputVault, a.outputVault);
    ProductBySide(p', a.inputVault, a.outputVault);
  }

  lemma ProductBySide(p: Pool, s: Token, t: Token)
    requires s != t
    ensures Product(p) == Times(p.Get(s).Reserve(), p.Get(t).Reserve())
  {
    TimesCommutes(p.side0.Reserve(), p.side1.Reserve());
  }

  /** The books of a swap add up for both tokens. */
  lemma SwapAccounted(p: Pool, a: SwapAccounts, q: Quote, p': Pool)
    requires a.inputVault != a.outputVault && Swapped(p, a, q, p')
    ensures Accounted(p.side0, p'.side0, SwapReceipt(a, q), Token0)
    ensures Accounted(p.side1, p'.side1, SwapReceipt(a, q), Token1)
  {
    TradeAccounted(p.Get(a.inputVault), p.Get(a.outputVault), p'.Get(a.inputVault), p'.Get(a.outputVault),
                   a.inputVault, a.outputVault,
                   q.sendIn, TransferFee(a.inputMint, q.sendIn), q.sendOut, TransferFee(a.outputMint, q.sendOut),
                   q.result.protocolFee, q.result.fundFee);
  }

  lemma TradeAccounted(source: Side, destination: Side, source': Side, destination': Side, s: Token, t: Token,
                       sendIn: nat, inFee: nat, sendOut: nat, outFee: nat, protocolFee: nat, fundFee: nat)
    requires s != t && outFee <= sendOut
    requires source'.vault == source.vault + sendIn - inFee
    requires source'.protocolFees == source.protocolFees + protocolFee
    requires source'.fundFees == source.fundFees + fundFee
    requires destination' == destination.(vault := destination'.vault)
    requires destination'.vault == destination.vault - sendOut
    ensures Accounted(source, source', TradeReceipt(s, sendIn, inFee, sendOut, outFee, protocolFee, fundFee), s)
    ensures Accounted(destination, destination',
                      TradeReceipt(s, sendIn, inFee, sendOut, outFee, protocolFee, fundFee), t)
  {
  }

  lemma SwapSafe(p: Pool, a: SwapAccounts, q: Quote, o: Outcome)
    requires Inv(p) && Fair(p, a, q)
    requires Swapped(p, a, q, o.pool) && ReservesMoved(a, q, o.pool)
    requires o.receipt == SwapReceipt(a, q)
    requires o.tick == Some(Tick(a.now, q.reserves.price0, q.reserves.price1))
    ensures Safe(p, o)
  {
    SwapAccounted(p, a, q, o.pool);
    SettleProduct(p, a, q, o.pool);
    ShareFromProduct(p, o.pool);
    InvFromShare(p, o.pool);
  }

  lemma SettleSafe(p: Pool, a: SwapAccounts, q: Quote)
    requires Inv(p) && Fair(p, a, q) && Settle(p, a, q).Ok?
    ensures Safe(p, Settle(p, a, q).value)
  {
    SettleBooks(p, a, q);
    SwapSafe(p, a, q, Settle(p, a, q).value);
  }

  // ---------- Liquidity ----------

  /** The terms of a deposit stay within the limits and deliver exactly the nonzero ceilings of
      the two shares. */
  lemma DepositTerms(p: Pool, a: DepositAccounts, lp: u64, maximum0: u64, maximum1: u64)
    requires Inv(p) && QuoteDeposit(p, a, lp, maximum0, maximum1).Ok?
    ensures var t := QuoteDeposit(p, a, lp, maximum0, maximum1).value;
            && DepositShares(p, lp, Delivered(a.mint0, t.amount0), Delivered(a.mint1, t.amount1))
            && t.amount0 <= maximum0 && t.amount1 <= maximum1
  {
    var amount0 := TokensFor(lp, p.lpSupply, p.side0.Reserve(), RoundUp).value;
    var amount1 := TokensFor(lp, p.lpSupply, p.side1.Reserve(), RoundUp).value;
    AmountToSendExact(a.mint0, amount0);
    AmountToSendExact(a.mint1, amount1);
  }

  /** The nonzero shares that lp pool tokens cost. */
  ghost predicate DepositShares(p: Pool, lp: u64, amount0: nat, amount1: nat) {
    && p.side0.Owed() <= p.side0.vault && p.side1.Owed() <= p.side1.vault
    && TokensFor(lp, p.lpSupply, p.side0.Reserve(), RoundUp) == Ok(amount0) && amount0 > 0
    && TokensFor(lp, p.lpSupply, p.side1.Reserve(), RoundUp) == Ok(amount1) && amount1 > 0
  }

  /** The books of an accepted deposit. */
  ghost predicate Deposited(p: Pool, a: DepositAccounts, lp: u64, t: Terms, o: Outcome) {
    && o.pool == p.(side0 := o.pool.side0, side1 := o.pool.side1,
                 lpSupply := o.pool.lpSupply, lpMintSupply := o.pool.lpMintSupply)
    && o.pool.side0 == p.side0.(vault := o.pool.side0.vault)
    && o.pool.side1 == p.side1.(vault := o.pool.side1.vault)
    && o.pool.side0.vault == p.side0.vault + Delivered(a.mint0, t.amount0)
    && o.pool.side1.vault == p.side1.vault + Delivered(a.mint1, t.amount1)
    && o.pool.lpSupply == p.lpSupply + lp
    && o.pool.lpMintSupply == p.lpMintSupply + lp
    && o.receipt == UserReceipt(Amounts(t.amount0, t.amount1), ZERO,
                                Amounts(TransferFee(a.mint0, t.amount0), TransferFee(a.mint1, t.amount1)))
    && o.tick == None
  }

  lemma TakeDepositBooks(p: Pool, a: DepositAccounts, lp: u64, t: Terms)
    requires TakeDeposit(p, a, lp, t).Ok?
    ensures Deposited(p, a, lp, t, TakeDeposit(p, a, lp, t).value)
  {
  }

  /** Nonzero contributions to both sides keep the share value. */
  lemma DepositKeepsShare(lp: u64, l: u64, x: u64, y: u64, amount0: u128, amount1: u128)
    requires TokensFor(lp, l, x, RoundUp) == Ok(amount0) && amount0 > 0
    requires TokensFor(lp, l, y, RoundUp) == Ok(amount1) && amount1 > 0
    ensures NotWorse(Times(x, y), l, Times(x + amount0, y + amount1), l + lp)
  {
    SideGrows(lp, l, x, amount0);
    SideGrows(lp, l, y, amount1);
    ShareFromSides(x, y, l, x + amount0, y + amount1, l + lp);
  }

  lemma DepositedAccounted(p: Pool, a: DepositAccounts, lp: u64, t: Terms, o: Outcome)
    requires Deposited(p, a, lp, t, o)
    ensures Accounted(p.side0, o.pool.side0, o.receipt, Token0)
    ensures Accounted(p.side1, o.pool.side1, o.receipt, Token1)
  {
  }

  lemma DepositedSafe(p: Pool, a: DepositAccounts, lp: u64, t: Terms, o: Outcome)
    requires Inv(p) && Deposited(p, a, lp, t, o)
    requires DepositShares(p, lp, Delivered(a.mint0, t.amount0), Delivered(a.mint1, t.amount1))
    ensures Safe(p, o)
  {
    DepositedAccounted(p, a, lp, t, o);
    DepositKeepsShare(lp, p.lpSupply, p.side0.Reserve(), p.side1.Reserve(),
                      Delivered(a.mint0, t.amount0), Delivered(a.mint1, t.amount1));
    InvFromShare(p, o.pool);
  }

  /** A deposit credits each vault with exactly the ceiling of its share. */
  lemma DepositSafe(p: Pool, a: DepositAccounts, lp: u64, maximum0: u64, maximum1: u64)
    requires Inv(p) && Deposit(p, a, lp, maximum0, maximum1).Ok?
    ensures var o := Deposit(p, a, lp, maximum0, maximum1).value;
            && Safe(p, o)
            && DepositShares(p, lp, o.pool.side0.vault - p.side0.vault, o.pool.side1.vault - p.side1.vault)
            && o.pool.lpSupply == p.lpSupply + lp && o.pool.lpMintSupply == p.lpMintSupply + lp
            && o.receipt.users.paid.token0 <= maximum0 && o.receipt.users.paid.token1 <= maximum1
  {
    var t := QuoteDeposit(p, a, lp, maximum0, maximum1).value;
    DepositTerms(p, a, lp, maximum0, maximum1);
    TakeDepositBooks(p, a, lp, t);
    DepositedSafe(p, a, lp, t, TakeDeposit(p, a, lp, t).value);
  }

  /** A nonzero contribution keeps the reserve per pool token. */
  lemma SideGrows(lp: u64, supply: u64, reserve: u64, amount: u128)
    requires TokensFor(lp, supply, reserve, RoundUp) == Ok(amount) && amount > 0
    ensures Times(reserve + amount, supply) >= Times(reserve, supply + lp)
  {
    TokensForValue(lp, supply, reserve, RoundUp);
    TimesAdds(reserve, amount, supply);
    TimesCommutes(reserve, supply);
    TimesCommutes(reserve, supply + lp);
    TimesAdds(supply, lp, reserve);
  }

  /** A redemption keeps the reserve per pool token, and takes less than the whole reserve when
      not all pool tokens are redeemed. */
  lemma SideShrinks(lp: u64, supply: u64, reserve: u64, amount: u128)
    requires TokensFor(lp, supply, reserve, RoundDown) == Ok(amount) && lp <= supply
    ensures amount <= reserve
    ensures Times(reserve - amount, supply) >= Times(reserve, supply - lp)
    ensures lp < supply && reserve > 0 ==> amount < reserve
  {
    TokensForValue(lp, supply, reserve, RoundDown);
    TimesAdds(reserve - amount, amount, supply);
    TimesAdds(supply - lp, lp, reserve);
    TimesCommutes(reserve, supply);
    TimesCommutes(reserve, supply - lp);
    TimesMono(lp, reserve, supply, reserve);
    TimesCancel(amount, reserve, supply);
    TimesCancel(reserve, amount, supply);
    if reserve > 0 {
      TimesCancel(supply, lp, reserve);
    }
  }

  /** The shares that lp pool tokens redeem, each less than the whole reserve. */
  ghost predicate WithdrawShares(p: Pool, lp: u64, amount0: nat, amount1: nat) {
    && 0 < amount0 < p.side0.Reserve() && 0 < amount1 < p.side1.Reserve()
    && TokensFor(lp, p.lpSupply, p.side0.Reserve(), RoundDown) == Ok(amount0)
    && TokensFor(lp, p.lpSupply, p.side1.Reserve(), RoundDown) == Ok(amount1)
  }

  /** The terms of a withdrawal are exactly the floors of the two shares: the clamps to the
      reserves change nothing. */
  lemma WithdrawTerms(p: Pool, a: WithdrawAccounts, lp: u64, minimum0: u64, minimum1: u64)
    requires Inv(p) && QuoteWithdraw(p, a, lp, minimum0, minimum1).Ok? && lp < p.lpSupply
    ensures var t := QuoteWithdraw(p, a, lp, minimum0, minimum1).value;
            && WithdrawShares(p, lp, t.amount0, t.amount1)
            && Delivered(a.mint0, t.amount0) >= minimum0 && Delivered(a.mint1, t.amount1) >= minimum1
  {
    ReservesPositive(p);
    SideShrinks(lp, p.lpSupply, p.side0.Reserve(), TokensFor(lp, p.lpSupply, p.side0.Reserve(), RoundDown).value);
    SideShrinks(lp, p.lpSupply, p.side1.Reserve(), TokensFor(lp, p.lpSupply, p.side1.Reserve(), RoundDown).value);
  }

  /** The books of an accepted withdrawal. */
  ghost predicate Withdrawn(p: Pool, a: WithdrawAccounts, lp: u64, t: Terms, o: Outcome) {
    && o.pool == p.(side0 := o.pool.side0, side1 := o.pool.side1,
                 lpSupply := o.pool.lpSupply, lpMintSupply := o.pool.lpMintSupply)
    && o.pool.side0 == p.side0.(vault := o.pool.side0.vault)
    && o.pool.side1 == p.side1.(vault := o.pool.side1.vault)
    && o.pool.side0.vault == p.side0.vault - t.amount0
    && o.pool.side1.vault == p.side1.vault - t.amount1
    && o.pool.lpSupply == p.lpSupply - lp
    && o.pool.lpMintSupply == p.lpMintSupply - lp
    && o.receipt == UserReceipt(ZERO, Amounts(Delivered(a.mint0, t.amount0), Delivered(a.mint1, t.amount1)),
                                Amounts(TransferFee(a.mint0, t.amount0), TransferFee(a.mint1, t.amount1)))
    && o.tick == None
  }

  lemma PayWithdrawalBooks(p: Pool, a: WithdrawAccounts, lp: u64, t: Terms)
    requires PayWithdrawal(p, a, lp, t).Ok?
    ensures Withdrawn(p, a, lp, t, PayWithdrawal(p, a, lp, t).value)
  {
  }

  /** Redemptions from both sides keep the share value. */
  lemma WithdrawalKeepsShare(lp: u64, l: u64, x: u64, y: u64, amount0: u128, amount1: u128)
    requires lp <= l
    requires TokensFor(lp, l, x, RoundDown) == Ok(amount0) && TokensFor(lp, l, y, RoundDown) == Ok(amount1)
    ensures amount0 <= x && amount1 <= y
    ensures NotWorse(Times(x, y), l, Times(x - amount0, y - amount1), l - lp)
  {
    SideShrinks(lp, l, x, amount0);
    SideShrinks(lp, l, y, amount1);
    ShareFromSides(x, y, l, x - amount0, y - amount1, l - lp);
  }

  lemma WithdrawnAccounted(p: Pool, a: WithdrawAccounts, lp: u64, t: Terms, o: Outcome)
    requires Withdrawn(p, a, lp, t, o)
    ensures Accounted(p.side0, o.pool.side0, o.receipt, Token0)
    ensures Accounted(p.side1, o.pool.side1, o.receipt, Token1)
  {
  }

  lemma WithdrawnSafe(p: Pool, a: WithdrawAccounts, lp: u64, t: Terms, o: Outcome)
    requires Inv(p) && Withdrawn(p, a, lp, t, o) && WithdrawShares(p, lp, t.amount0, t.amount1)
    ensures Safe(p, o)
  {
    WithdrawnAccounted(p, a, lp, t, o);
    WithdrawalKeepsShare(lp, p.lpSupply, p.side0.Reserve(), p.side1.Reserve(), t.amount0, t.amount1);
    InvFromShare(p, o.pool);
  }

  /** A permitted withdrawal never drains the pool: its clamps to the reserves change nothing,
      it pays the exact floors, and both reserves stay positive. */
  lemma WithdrawSafe(p: Pool, a: WithdrawAccounts, lp: u64, minimum0: u64, minimum1: u64)
    requires Inv(p) && Withdraw(p, a, lp, minimum0, minimum1).Ok?
    ensures var o := Withdraw(p, a, lp, minimum0, minimum1).value;
            && Safe(p, o)
            && p.side0.vault >= o.pool.side0.vault && p.side1.vault >= o.pool.side1.vault
            && WithdrawShares(p, lp, p.side0.vault - o.pool.side0.vault, p.side1.vault - o.pool.side1.vault)
            && o.pool.side0.Reserve() > 0 && o.pool.side1.Reserve() > 0
            && o.pool.lpSupply == p.lpSupply - lp && o.pool.lpMintSupply == p.lpMintSupply - lp
            && o.receipt.users.received.token0 >= minimum0 && o.receipt.users.received.token1 >= minimum1
  {
    var t := QuoteWithdraw(p, a, lp, minimum0, minimum1).value;
    PayWithdrawalBooks(p, a, lp, t);
    WithdrawTerms(p, a, lp, minimum0, minimum1);
    WithdrawnSafe(p, a, lp, t, PayWithdrawal(p, a, lp, t).value);
  }

  // ---------- Every step ----------

  /** Collecting fees never fails, takes of each token what is owed up to the request, and leaves
      both curve reserves where they are. */
  lemma CollectProtocolSafe(p: Pool, requested0: u64, requested1: u64)
    requires Inv(p)
    ensures CollectProtocolFee(p, requested0, requested1).Ok?
    ensures var o := CollectProtocolFee(p, requested0, requested1).value;
            && Safe(p, o)
            && o.pool.side0.Reserve() == p.side0.Reserve() && o.pool.side1.Reserve() == p.side1.Reserve()
            && UpTo(o.receipt.collected.protocol.token0, requested0, p.side0.protocolFees)
            && UpTo(o.receipt.collected.protocol.token1, requested1, p.side1.protocolFees)
            && o.receipt.collected.fund == ZERO
  {
    var o := CollectProtocolFee(p, requested0, requested1).value;
    ShareFromProduct(p, o.pool);
    InvFromShare(p, o.pool);
  }

  lemma CollectFundSafe(p: Pool, requested0: u64, requested1: u64)
    requires Inv(p)
    ensures CollectFundFee(p, requested0, requested1).Ok?
    ensures var o := CollectFundFee(p, requested0, requested1).value;
            && Safe(p, o)
            && o.pool.side0.Reserve() == p.side0.Reserve() && o.pool.side1.Reserve() == p.side1.Reserve()
            && UpTo(o.receipt.collected.fund.token0, requested0, p.side0.fundFees)
            && UpTo(o.receipt.collected.fund.token1, requested1, p.side1.fundFees)
            && o.receipt.collected.protocol == ZERO
  {
    var o := CollectFundFee(p, requested0, requested1).value;
    ShareFromProduct(p, o.pool);
    InvFromShare(p, o.pool);
  }

  /** taken is the most that neither the request nor what is owed exceeds. */
  ghost predicate UpTo(taken: nat, requested: nat, owed: nat) {
    taken <= requested && taken <= owed && (taken == requested || taken == owed)
  }

  lemma DonateSafe(p: Pool, t: Token, mint: Mint, funds: u64, amount: u64)
    requires Inv(p) && Donate(p, t, mint, funds, amount).Ok?
    ensures Safe(p, Donate(p, t, mint, funds, amount).value)
  {
    var o := Donate(p, t, mint, funds, amount).value;
    TimesMono(p.side0.Reserve(), p.side1.Reserve(), o.pool.side0.Reserve(), o.pool.side1.Reserve());
    ShareFromProduct(p, o.pool);
    InvFromShare(p, o.pool);
  }

  /** Every update of the configuration keeps the bounds on the rates. */
  lemma ConfigKeepsRates(c: Config, param: u8, value: u64, account: Option<nat>)
    requires c.rates.Valid() && UpdateAmmConfig(c, param, value, account).Ok?
    ensures UpdateAmmConfig(c, param, value, account).value.rates.Valid()
  {
  }

  /** Every accepted step keeps the invariant, does not lower the value of a pool token, and
      accounts for every token it moves. */
  lemma StepSafe(p: Pool, op: Op)
    requires Inv(p) && Step(p, op).Ok?
    ensures Safe(p, Step(p, op).value)
  {
    match op
    case OpSwapInput(a, amountIn, minimumOut) =>
      QuoteInputFair(p, a, amountIn, minimumOut);
      SettleSafe(p, a, QuoteInput(p, a, amountIn, minimumOut).value);
    case OpSwapOutput(a, maximumIn, amountOut) =>
      QuoteOutputFair(p, a, maximumIn, amountOut);
      SettleSafe(p, a, QuoteOutput(p, a, maximumIn, amountOut).value);
    case OpDeposit(a, lp, maximum0, maximum1) => DepositSafe(p, a, lp, maximum0, maximum1);
    case OpWithdraw(a, lp, minimum0, minimum1) => WithdrawSafe(p, a, lp, minimum0, minimum1);
    case OpCollectProtocolFee(requested0, requested1) => CollectProtocolSafe(p, requested0, requested1);
    case OpCollectFundFee(requested0, requested1) => CollectFundSafe(p, requested0, requested1);
    case OpUpdateAmmConfig(param, value, account) => ShareFromProduct(p, Step(p, op).value.pool);
    case OpUpdatePoolStatus(status) => ShareFromProduct(p, Step(p, op).value.pool);
    case OpDonate(t, mint, funds, amount) => DonateSafe(p, t, mint, funds, amount);
    case OpBurnLp(balance, amount) => ShareFromProduct(p, Step(p, op).value.pool);
  }

  /** A created pool starts on the invariant, its supply the floor of the square root of the
      product of its vaults. */
  lemma InitializeSafe(c: Config, a: InitializeAccounts, amount0: u64, amount1: u64, openTime: u64)
    requires c.rates.Valid() && Initialize(c, a, amount0, amount1, openTime).Ok?
    ensures var o := Initialize(c, a, amount0, amount1, openTime).value;
            && Inv(o.pool)
            && o.pool.lpSupply * o.pool.lpSupply <= Product(o.pool) < (o.pool.lpSupply + 1) * (o.pool.lpSupply + 1)
            && o.pool.lpMintSupply + LOCKED_LP == o.pool.lpSupply
            && o.pool.side0 == Side(Delivered(a.mint0, amount0), 0, 0) && o.pool.side0.vault > 0
            && o.pool.side1 == Side(Delivered(a.mint1, amount1), 0, 0) && o.pool.side1.vault > 0
            && o.pool.openTime == (if openTime > a.now then openTime else a.now + 1)
            && (forall f: Feature :: o.pool.Enabled(f))
            && Books(o.pool.side0, o.receipt, Token0)
            && Books(o.pool.side1, o.receipt, Token1)
            && Refines(o.pool.ring, [])
  {
    var p := Initialize(c, a, amount0, amount1, openTime).value.pool;
    Math.SqrtBounds(Times(p.side0.vault, p.side1.vault));
    TimesIs(p.lpSupply, p.lpSupply);
  }
}
