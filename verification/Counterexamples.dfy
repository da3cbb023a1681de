/** Reachable pools on which two expectations fail: that the order of a fee collection and a swap
    does not matter, and that every output that has a price can be asked for exactly. */
module Counterexamples {
  import opened Checked
  import opened Rounding
  import opened Tokens
  import opened ConstantProduct
  import opened Calculator
  import opened Pools
  import opened Transitions
  import opened Invariants
  import opened Acceptance
  import opened FeeOrder
  import opened Runs
  import Fees
  import Math

  // ---------- New pools ----------

  /** A configuration with these rates and a pool of two classic mints created under it at time 0. */
  function BirthOf(rates: Rates, amount0: u64, amount1: u64): Birth {
    Birth(rates, 0, 1, [], InitializeAccounts(true, 0, Classic, Classic, amount0, amount1), amount0, amount1, 0)
  }

  /** What such a birth leaves. */
  ghost predicate Newborn(p: Pool, rates: Rates, amount0: u64, amount1: u64) {
    && Inv(p)
    && p.side0.vault == p.side0.Reserve() == amount0
    && p.side1.vault == p.side1.Reserve() == amount1
    && p.openTime == 1 && p.Enabled(SwapFeature) && p.Enabled(WithdrawFeature)
    && p.config.rates == rates
    && !p.ring.initialized
  }

  lemma Give(rates: Rates, amount0: u64, amount1: u64) returns (w: World)
    requires rates.Valid() && 0 < amount0 && 0 < amount1 && amount0 * amount1 >= 10_000
    ensures Reachable(w) && Newborn(w.pool, rates, amount0, amount1)
    ensures 10_201 <= amount0 * amount1 <= 4_000_000 ==> w.pool.lpMintSupply > 0 && w.pool.lpSupply < U64_MAX
  {
    var b := BirthOf(rates, amount0, amount1);
    TimesIs(amount0, amount1);
    LiquidityOfIff(amount0, amount1);
    var config := CreateAmmConfig(b.rates, b.createPoolFee, b.owner).value;
    InitializeSafe(config, b.accounts, b.amount0, b.amount1, b.openTime);
    w := Created(b).value;
    SupplyBetween(amount0 * amount1, w.pool.lpSupply);
    assert w == Run(w, []);
  }

  lemma SupplyBetween(product: nat, root: nat)
    requires root * root <= product < (root + 1) * (root + 1)
    ensures 10_201 <= product <= 4_000_000 ==> 100 < root < 2_001
  {
    SquareOrder(root + 1, 101);
    SquareOrder(2_001, root);
  }

  /** A trader of classic tokens who pays with token 0 at time 1. */
  ghost predicate Trader(a: SwapAccounts, funds: u64) {
    && a.inputVault == Token0 && a.outputVault == Token1
    && a.now == 1
    && a.inputMint.Classic? && a.outputMint.Classic?
    && a.funds == funds
  }

  lemma SomeTrader(funds: u64) returns (a: SwapAccounts)
    ensures Trader(a, funds)
  {
    a := SwapAccounts(Token0, Token1, 1, Classic, Classic, funds);
  }

  /** A new pool takes a sale of something whose output is worth the minimum. */
  lemma SaleTaken(p: Pool, rates: Rates, amount0: u64, amount1: u64, a: SwapAccounts, amountIn: u64, minimumOut: u64)
    requires Newborn(p, rates, amount0, amount1) && Trader(a, amountIn)
    requires 0 < Fees.Net(amountIn, rates.trade) <= amountIn <= U64_MAX - amount0
    requires amount0 > 0 && AmountOut(Fees.Net(amountIn, rates.trade), amount0, amount1) > 0
    requires AmountOut(Fees.Net(amountIn, rates.trade), amount0, amount1) >= minimumOut
    ensures SwapInput(p, a, amountIn, minimumOut).Ok?
  {
    SaleOpen(p, rates, amount0, amount1, a, amountIn);
    SwapInputAcceptedIff(p, a, amountIn, minimumOut);
  }

  lemma SaleOpen(p: Pool, rates: Rates, amount0: u64, amount1: u64, a: SwapAccounts, amountIn: u64)
    requires Newborn(p, rates, amount0, amount1) && Trader(a, amountIn)
    requires 0 < Fees.Net(amountIn, rates.trade) <= amountIn <= U64_MAX - amount0
    ensures p.side0.Reserve() > 0 && p.side1.Reserve() > 0
    ensures SwapOpen(p, a, amountIn) && OracleReady(p, a.now)
    ensures Delivered(a.inputMint, amountIn) == amountIn
    ensures InputPays(p, a, amountIn) == AmountOut(Fees.Net(amountIn, rates.trade), amount0, amount1)
  {
    ReservesPositive(p);
    OracleReadyWhenRecent(p, a.now);
  }

  /** Anything buys something from a reserve that exceeds the other by as much. */
  lemma BuysSomething(n: nat, x: nat, y: nat)
    requires 0 < n && y >= x + n
    ensures AmountOut(n, x, y) > 0
  {
    TimesIs(n, y);
    MulMono(1, n, y);
    CeilPositive(n * y, x + n);
  }

  // ---------- The order of a collection and a swap ----------

  /** Rates and an amount that leave the protocol a share: of 100 the trade fee is ten percent, and
      half of that is the protocol's. */
  lemma AccruingSwap() returns (rates: Rates, amount: u64)
    ensures rates.Valid() && amount == 100
    ensures 0 < Fees.Net(amount, rates.trade) <= amount && Accrual(rates, ProtocolBucket, amount) > 0
  {
    rates, amount := Rates(100_000, 500_000, 0), 100;
    var d: nat := Fees.FEE_RATE_DENOMINATOR;
    var fee := Fees.Fee(amount, rates.trade);
    TimesIs(amount, rates.trade);
    CeilAdjoint(10_000_000, d, 10);
    CeilAdjoint(10_000_000, d, 9);
    assert fee == 10;
    TimesIs(fee, rates.protocol);
    CeilPositive(5_000_000, d);
  }

  lemma OneUnit() returns (k: Collection)
    ensures k.bucket == ProtocolBucket && k.requested0 == 1
  {
    k := Collection(ProtocolBucket, 1, 0);
  }

  /** A reachable pool, an accepted swap and a collection for which the two orders end in different
      pools: no fee is owed yet, so an early collection gets nothing and a late one takes a part
      of the new fee. */
  lemma OrderCanMatter() returns (w: World, a: SwapAccounts, amountIn: u64, k: Collection)
    ensures Reachable(w)
    ensures Collect(w.pool, k).Ok? && SwapInput(w.pool, a, amountIn, 0).Ok?
    ensures var early := SwapInput(Collect(w.pool, k).value.pool, a, amountIn, 0);
            var late := Collect(SwapInput(w.pool, a, amountIn, 0).value.pool, k);
            early.Ok? && late.Ok? && early.value.pool != late.value.pool
  {
    var rates, amount := AccruingSwap();
    w := Give(rates, 1_000, 2_000);
    amountIn := amount;
    a := SomeTrader(amount);
    k := OneUnit();
    BuysSomething(Fees.Net(amount, rates.trade), 1_000, 2_000);
    SaleTaken(w.pool, rates, 1_000, 2_000, a, amount, 0);
    SwapInputOrder(w.pool, k, a, amountIn, 0);
  }

  // ---------- A price that rounds to zero ----------

  /** Every exact output whose wanted product is below half of what it leaves is refused for its price
      of zero, whatever the buyer is ready to pay. */
  lemma ZeroPriceRefused(p: Pool, a: SwapAccounts, maximumIn: u64, amountOut: u64)
    requires Inv(p) && Asked(p, a, amountOut)
    requires Leaves(a, amountOut) < p.Get(a.outputVault).Reserve()
    requires 2 * Times(p.Get(a.inputVault).Reserve(), Leaves(a, amountOut))
           < p.Get(a.outputVault).Reserve() - Leaves(a, amountOut)
    ensures SwapOutput(p, a, maximumIn, amountOut) == Err(RequireGtViolated)
  {
    var x, y, dy := p.Get(a.inputVault).Reserve(), p.Get(a.outputVault).Reserve(), Leaves(a, amountOut);
    ReservesRead(p, a);
    PricedAtZero(dy, x, y, p.config.rates);
    OutputConstantBound(dy, x, y, p.config.rates);
    AskOutputAnswered(p, a, amountOut, dy, ReadReserves(p, a).value, SwapBaseOutput(dy, x, y, p.config.rates).value);
  }

  /** The division prices unit at zero, where its true price is as much again, and that much buys it. */
  ghost predicate WrongPrice(x: u64, y: u64, unit: u64) {
    && 0 < unit < y
    && 0 < 2 * Times(x, unit) < y - unit
    && Math.CeilDivResult(Times(x, unit), y - unit) == Ok((0, 0))
    && AmountIn(unit, x, y) == unit
    && AmountOut(unit, x, y) >= unit
  }

  lemma UnitPrice(x: u64, y: u64, unit: u64)
    requires unit == 1 && 0 < x && 2 * x < y - 1
    ensures WrongPrice(x, y, unit)
  {
    TimesIs(x, unit);
    ProductFits(x, unit);
    CeilAdjoint(Times(x, unit), y - unit, 1);
    CeilPositive(Times(x, unit), y - unit);
    BuysSomething(unit, x, y);
  }

  lemma NothingCharged(amount: nat, rate: nat)
    requires rate == 0
    ensures Fees.Net(amount, rate) == amount
  {
    TimesIs(amount, rate);
    CeilPositive(Times(amount, rate), Fees.FEE_RATE_DENOMINATOR);
  }

  /** Reserves of 1 and 10000, and one unit. */
  lemma ThinReserves() returns (x: u64, y: u64, unit: u64)
    ensures x > 0 && y > 0 && x * y >= 10_000 && unit <= U64_MAX - x
    ensures WrongPrice(x, y, unit)
  {
    x, y, unit := 1, 10_000, 1;
    UnitPrice(x, y, unit);
  }

  lemma NoRates(unit: u64) returns (rates: Rates)
    ensures rates.Valid() && Fees.Net(unit, rates.trade) == unit
  {
    rates := Rates(0, 0, 0);
    NothingCharged(unit, rates.trade);
  }

  /** On a reachable pool, of 1 and 10000, one unit of output has the true price of one unit and is
      priced at zero: asked for exactly it is refused, whatever the maximum, while the sale of one
      unit is accepted and pays at least what was asked for. */
  lemma PriceCanRoundToZero() returns (w: World, a: SwapAccounts, unit: u64)
    ensures Reachable(w) && Asked(w.pool, a, unit) && Leaves(a, unit) == unit
    ensures var x, y := w.pool.Get(a.inputVault).Reserve(), w.pool.Get(a.outputVault).Reserve();
            0 <= x <= U64_MAX && 0 <= y <= U64_MAX && WrongPrice(x, y, unit)
    ensures forall maximumIn: u64 :: SwapOutput(w.pool, a, maximumIn, unit) == Err(RequireGtViolated)
    ensures SwapInput(w.pool, a, unit, unit).Ok?
  {
    var x, y;
    x, y, unit := ThinReserves();
    var rates := NoRates(unit);
    w := Give(rates, x, y);
    a := SomeTrader(unit);
    forall maximumIn: u64
      ensures SwapOutput(w.pool, a, maximumIn, unit) == Err(RequireGtViolated)
    {
      ZeroPriceRefused(w.pool, a, maximumIn, unit);
    }
    SaleTaken(w.pool, rates, x, y, a, unit, unit);
  }

  // ---------- A withdrawal that panics ----------

  lemma AmpleReserves() returns (x: u64, y: u64)
    ensures x > 0 && y > 0 && 10_201 <= x * y <= 4_000_000
  {
    x, y := 1_000, 2_000;
  }

  /** Asking a pool that is open to withdrawals for one pool token more than its supply panics. */
  lemma OneTooMany(p: Pool, a: WithdrawAccounts, lp: u64)
    requires Inv(p) && p.lpMintSupply > 0 && p.Enabled(WithdrawFeature) && lp == p.lpSupply + 1
    ensures Redeemed(p, lp, Token0) >= p.side0.Reserve() && Redeemed(p, lp, Token1) >= p.side1.Reserve()
    ensures Withdraw(p, a, lp, 0, 0) == Err(Panic)
  {
    ReservesPositive(p);
    OversizedShare(lp, p.lpSupply, p.side0.Reserve());
    OversizedShare(lp, p.lpSupply, p.side1.Reserve());
    WithdrawalPanicsIff(p, a, lp, 0, 0);
  }

  /** On a reachable pool, of 1000 and 2000, a withdrawal of one pool token more than the supply counts
      is quoted the whole reserves and then ends in a panic, not in an error of the token program. */
  lemma WithdrawalCanPanic(a: WithdrawAccounts) returns (w: World, lp: u64)
    ensures Reachable(w) && Inv(w.pool) && lp == w.pool.lpSupply + 1
    ensures Redeemed(w.pool, lp, Token0) >= w.pool.side0.Reserve()
    ensures Redeemed(w.pool, lp, Token1) >= w.pool.side1.Reserve()
    ensures Withdraw(w.pool, a, lp, 0, 0) == Err(Panic)
  {
    var x, y := AmpleReserves();
    var rates := NoRates(1);
    w := Give(rates, x, y);
    lp := w.pool.lpSupply + 1;
    OneTooMany(w.pool, a, lp);
  }
}
