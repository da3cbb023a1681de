/** What each instruction does, in closed form: which error refuses it and, if none does, what it
    changes and moves.  The closed forms are written in the fields of the pool and the arguments, with
    no handler's function or constant in them; the theorems say that every step of a run agrees. */
module Effects {
  import opened Checked
  import opened Rounding
  import opened Tokens
  import opened ConstantProduct
  import opened Calculator
  import opened Oracle
  import opened Pools
  import opened Transitions
  import opened Invariants
  import opened Acceptance
  import opened Runs
  import Fees
  import Math

  // ---------- Quantities ----------

  ghost function ReserveOf(s: Side): int {
    s.vault - s.protocolFees - s.fundFees
  }

  /** What the invariant says, as far as the closed forms need it. */
  ghost predicate Sound(p: Pool) {
    && ReserveOf(p.side0) > 0 && ReserveOf(p.side1) > 0
    && p.lpMintSupply + 100 <= p.lpSupply
    && p.config.rates.trade < 1_000_000
    && p.config.rates.protocol + p.config.rates.fund <= 1_000_000
  }

  lemma InvSound(p: Pool)
    requires Inv(p)
    ensures Sound(p)
  {
    ReservesPositive(p);
  }

  /** The trade fee, rounded up, and the two shares cut from it, rounded down; rates are millionths. */
  ghost function TradeFee(r: Rates, arrived: nat): nat {
    Ceil(Times(arrived, r.trade), 1_000_000)
  }

  ghost function ProtocolShare(r: Rates, arrived: nat): nat {
    Floor(Times(TradeFee(r, arrived), r.protocol), 1_000_000)
  }

  ghost function FundShare(r: Rates, arrived: nat): nat {
    Floor(Times(TradeFee(r, arrived), r.fund), 1_000_000)
  }

  /** What the curve pays for arrived less the trade fee. */
  ghost function CurveOut(p: Pool, a: SwapAccounts, arrived: u64): (out: nat)
    requires Sound(p)
    ensures out <= U64_MAX
  {
    var x, y := ReserveOf(p.Get(a.inputVault)), ReserveOf(p.Get(a.outputVault));
    Fees.NetNonNegative(arrived, p.config.rates.trade);
    var net := arrived - TradeFee(p.config.rates, arrived);
    InputProduct(net, x, y);
    Floor(Times(net, y), x + net)
  }

  /** What must arrive for dy: the curve's price, rounded up, and enough for the trade fee on top. */
  ghost function CurveIn(p: Pool, a: SwapAccounts, dy: u64): nat
    requires Sound(p) && dy < ReserveOf(p.Get(a.outputVault))
  {
    var x, y := ReserveOf(p.Get(a.inputVault)), ReserveOf(p.Get(a.outputVault));
    Ceil(Times(Ceil(Times(x, dy), y - dy), 1_000_000), 1_000_000 - p.config.rates.trade)
  }

  /** The price of token 0 and of token 1 in the other one, with 32 fractional bits. */
  ghost function Price0(p: Pool): u128
    requires Sound(p)
  {
    Floor(ReserveOf(p.side1) * 0x1_0000_0000, ReserveOf(p.side0))
  }

  ghost function Price1(p: Pool): u128
    requires Sound(p)
  {
    Floor(ReserveOf(p.side0) * 0x1_0000_0000, ReserveOf(p.side1))
  }

  // ---------- Verdicts ----------

  /** An instruction is accepted or refused with an error; one overflow has two. */
  datatype Verdict = Accept | Refuse(error: Error) | RefuseEither(error: Error, other: Error)

  ghost predicate Meets<T>(r: Result<T>, v: Verdict) {
    match v
    case Accept => r.Ok?
    case Refuse(e) => r.Err? && r.error == e
    case RefuseEither(e, f) => r.Err? && (r.error == e || r.error == f)
  }

  /** The second half of a swap that sends sendIn, of which arrived arrives. */
  ghost function SettleVerdict(p: Pool, a: SwapAccounts, sendIn: u64, arrived: u64): Verdict
    requires Sound(p)
  {
    var s := p.Get(a.inputVault);
    if s.protocolFees + ProtocolShare(p.config.rates, arrived) > U64_MAX then Refuse(Panic)
    else if s.fundFees + FundShare(p.config.rates, arrived) > U64_MAX then Refuse(Panic)
    else if a.funds < sendIn || s.vault + arrived > U64_MAX then Refuse(TokenProgramError)
    else if !Takes(p.ring, a.now, Price0(p), Price1(p)) then Refuse(Panic)
    else Accept
  }

  ghost function SwapInputVerdict(p: Pool, a: SwapAccounts, amountIn: u64, minimumOut: u64): Verdict
    requires Sound(p)
  {
    var arrived := Delivered(a.inputMint, amountIn);
    var quoted := InputQuoteVerdict(p, a, arrived, minimumOut);
    if !quoted.Accept? then quoted else SettleVerdict(p, a, amountIn, arrived)
  }

  /** The first half: the checks of the request, of which arrived arrives, and of what it buys. */
  ghost function InputQuoteVerdict(p: Pool, a: SwapAccounts, arrived: u64, minimumOut: u64): Verdict
    requires Sound(p)
  {
    if p.status / 4 % 2 == 1 || a.now < p.openTime then Refuse(NotApproved)
    else if arrived == 0 then Refuse(RequireGtViolated)
    else if a.inputVault == a.outputVault then Refuse(InvalidVault)
    else
      var received := Delivered(a.outputMint, CurveOut(p, a, arrived));
      if received == 0 then Refuse(RequireGtViolated)
      else if received < minimumOut then Refuse(ExceededSlippage)
      else Accept
  }

  ghost function SwapOutputVerdict(p: Pool, a: SwapAccounts, maximumIn: u64, amountOut: u64): Verdict
    requires Sound(p)
  {
    var quoted := OutputQuoteVerdict(p, a, maximumIn, amountOut);
    if !quoted.Accept? then quoted
    else
      var price := CurveIn(p, a, AmountToSend(a.outputMint, amountOut).value);
      SettleVerdict(p, a, AmountToSend(a.inputMint, price).value, price)
  }

  /** The first half: the checks of the request, and its price. */
  ghost function OutputQuoteVerdict(p: Pool, a: SwapAccounts, maximumIn: u64, amountOut: u64): Verdict
    requires Sound(p)
  {
    if amountOut == 0 then Refuse(RequireGtViolated)
    else if p.status / 4 % 2 == 1 || a.now < p.openTime then Refuse(NotApproved)
    else
      var sendOut := AmountToSend(a.outputMint, amountOut);
      if sendOut.Err? then Refuse(sendOut.error)
      else if a.inputVault == a.outputVault then Refuse(InvalidVault)
      else PriceVerdict(p, a, maximumIn, sendOut.value)
  }

  /** The price of exactly dy: one of zero is refused like a zero amount, and one beyond 64 bits with
      one of two errors. */
  ghost function PriceVerdict(p: Pool, a: SwapAccounts, maximumIn: u64, dy: u64): Verdict
    requires Sound(p)
  {
    var x, y := ReserveOf(p.Get(a.inputVault)), ReserveOf(p.Get(a.outputVault));
    if dy >= y then Refuse(Panic)
    else if 2 * Times(x, dy) < y - dy then Refuse(RequireGtViolated)
    else if CurveIn(p, a, dy) > U64_MAX then RefuseEither(Panic, ZeroTradingTokens)
    else
      var sendIn := AmountToSend(a.inputMint, CurveIn(p, a, dy));
      if sendIn.Err? then Refuse(sendIn.error)
      else if sendIn.value > maximumIn then Refuse(ExceededSlippage)
      else Accept
  }

  ghost function DepositVerdict(p: Pool, a: DepositAccounts, lp: u64, maximum0: u64, maximum1: u64): Verdict
    requires Sound(p)
  {
    var shares0, shares1 := Times(lp, ReserveOf(p.side0)), Times(lp, ReserveOf(p.side1));
    if lp == 0 then Refuse(RequireGtViolated)
    else if p.status % 2 == 1 then Refuse(NotApproved)
    else if shares0 < p.lpSupply || shares1 < p.lpSupply then Refuse(ZeroTradingTokens)
    else
      var amount0, amount1 := Ceil(shares0, p.lpSupply), Ceil(shares1, p.lpSupply);
      if amount0 > U64_MAX then Refuse(Panic)
      else
        var send0 := AmountToSend(a.mint0, amount0);
        if send0.Err? then Refuse(send0.error)
        else if amount1 > U64_MAX then Refuse(Panic)
        else
          var send1 := AmountToSend(a.mint1, amount1);
          if send1.Err? then Refuse(send1.error)
          else if send0.value > maximum0 || send1.value > maximum1 then Refuse(ExceededSlippage)
          else if a.funds0 < send0.value || p.side0.vault + amount0 > U64_MAX then Refuse(TokenProgramError)
          else if a.funds1 < send1.value || p.side1.vault + amount1 > U64_MAX then Refuse(TokenProgramError)
          else if p.lpSupply + lp > U64_MAX then Refuse(Panic)
          else Accept
  }

  ghost function WithdrawVerdict(p: Pool, a: WithdrawAccounts, lp: u64, minimum0: u64, minimum1: u64): Verdict
    requires Sound(p)
  {
    var quoted := WithdrawQuoteVerdict(p, a, lp, minimum0, minimum1);
    if !quoted.Accept? then quoted
    else if lp > p.lpSupply then Refuse(Panic)
    else if lp > a.ownerLp || lp > p.lpMintSupply then Refuse(TokenProgramError)
    else Accept
  }

  /** The first half: the checks of the request and of what it pays. */
  ghost function WithdrawQuoteVerdict(p: Pool, a: WithdrawAccounts, lp: u64, minimum0: u64, minimum1: u64): Verdict
    requires Sound(p)
  {
    var shares0, shares1 := Times(lp, ReserveOf(p.side0)), Times(lp, ReserveOf(p.side1));
    if lp == 0 || p.lpMintSupply == 0 then Refuse(RequireGtViolated)
    else if p.status / 2 % 2 == 1 then Refuse(NotApproved)
    else if shares0 < p.lpSupply || shares1 < p.lpSupply then Refuse(ZeroTradingTokens)
    else
      var amount0, amount1 := Floor(shares0, p.lpSupply), Floor(shares1, p.lpSupply);
      if amount0 > U64_MAX || amount1 > U64_MAX then Refuse(Panic)
      else if Delivered(a.mint0, Least(ReserveOf(p.side0), amount0)) < minimum0 then Refuse(ExceededSlippage)
      else if Delivered(a.mint1, Least(ReserveOf(p.side1), amount1)) < minimum1 then Refuse(ExceededSlippage)
      else Accept
  }

  ghost function Least(a: int, b: int): int {
    if a <= b then a else b
  }

  ghost function ConfigVerdict(c: Config, param: u8, value: u64, account: Option<nat>): Verdict {
    if param == 0 then (if value < 1_000_000 then Accept else Refuse(Panic))
    else if param == 1 then (if value + c.rates.fund <= 1_000_000 then Accept else Refuse(Panic))
    else if param == 2 then (if value + c.rates.protocol <= 1_000_000 then Accept else Refuse(Panic))
    else if param == 3 || param == 4 then
      if account.None? then Refuse(Panic)
      else if account.value == 0 then Refuse(RequireKeysNeqViolated)
      else Accept
    else if param == 5 || param == 6 then Accept
    else Refuse(InvalidInput)
  }

  ghost function StepVerdict(p: Pool, op: Op): Verdict
    requires Sound(p)
  {
    match op
    case OpSwapInput(a, amountIn, minimumOut) => SwapInputVerdict(p, a, amountIn, minimumOut)
    case OpSwapOutput(a, maximumIn, amountOut) => SwapOutputVerdict(p, a, maximumIn, amountOut)
    case OpDeposit(a, lp, maximum0, maximum1) => DepositVerdict(p, a, lp, maximum0, maximum1)
    case OpWithdraw(a, lp, minimum0, minimum1) => WithdrawVerdict(p, a, lp, minimum0, minimum1)
    case OpCollectProtocolFee(_, _) => Accept
    case OpCollectFundFee(_, _) => Accept
    case OpUpdateAmmConfig(param, value, account) => ConfigVerdict(p.config, param, value, account)
    case OpUpdatePoolStatus(_) => Accept
    case OpDonate(t, mint, funds, amount) =>
      if amount > funds || p.Get(t).vault + Delivered(mint, amount) > U64_MAX then Refuse(TokenProgramError) else Accept
    case OpBurnLp(balance, amount) =>
      if balance < amount || p.lpMintSupply < amount then Refuse(TokenProgramError) else Accept
  }

  // ---------- Effects ----------

  /** A swap that sends sendIn in and sendOut out.  The input vault grows by what arrives, and owes the
      two shares of the trade fee on it; the output vault gives up sendOut; the oracle takes the
      prices from before; and nothing else changes. */
  ghost predicate SwapEffect(p: Pool, a: SwapAccounts, sendIn: u64, sendOut: u64, o: Outcome)
    requires Sound(p)
  {
    var arrived, left := Delivered(a.inputMint, sendIn), Delivered(a.outputMint, sendOut);
    var protocol, fund := ProtocolShare(p.config.rates, arrived), FundShare(p.config.rates, arrived);
    var source, destination := p.Get(a.inputVault), p.Get(a.outputVault);
    var source', destination' := o.pool.Get(a.inputVault), o.pool.Get(a.outputVault);
    && a.inputVault != a.outputVault
    && source'.vault == source.vault + arrived
    && source'.protocolFees == source.protocolFees + protocol
    && source'.fundFees == source.fundFees + fund
    && destination' == destination.(vault := destination'.vault)
    && destination'.vault == destination.vault - sendOut
    && o.pool == p.(side0 := o.pool.side0, side1 := o.pool.side1, ring := o.pool.ring)
    && Updated(p.ring, a.now, Price0(p), Price1(p)) == Ok(o.pool.ring)
    && o.tick == Some(Tick(a.now, Price0(p), Price1(p)))
    && o.receipt.users.paid == Pair(a.inputVault, sendIn, 0)
    && o.receipt.users.received == Pair(a.inputVault, 0, left)
    && o.receipt.users.withheld == Pair(a.inputVault, sendIn - arrived, sendOut - left)
    && o.receipt.accrued.protocol == Pair(a.inputVault, protocol, 0)
    && o.receipt.accrued.fund == Pair(a.inputVault, fund, 0)
    && o.receipt.collected == NO_FEES
  }

  ghost predicate SwapInputEffect(p: Pool, a: SwapAccounts, amountIn: u64, minimumOut: u64, o: Outcome)
    requires Sound(p)
  {
    var out := CurveOut(p, a, Delivered(a.inputMint, amountIn));
    SwapEffect(p, a, amountIn, out, o) && Delivered(a.outputMint, out) >= minimumOut
  }

  ghost predicate SwapOutputEffect(p: Pool, a: SwapAccounts, maximumIn: u64, amountOut: u64, o: Outcome)
    requires Sound(p)
  {
    var sendOut := AmountToSend(a.outputMint, amountOut);
    && sendOut.Ok? && Delivered(a.outputMint, sendOut.value) == amountOut
    && sendOut.value < ReserveOf(p.Get(a.outputVault))
    && CurveIn(p, a, sendOut.value) <= U64_MAX
    && (var sendIn := AmountToSend(a.inputMint, CurveIn(p, a, sendOut.value));
        && sendIn.Ok? && sendIn.value <= maximumIn
        && Delivered(a.inputMint, sendIn.value) == CurveIn(p, a, sendOut.value)
        && SwapEffect(p, a, sendIn.value, sendOut.value, o))
  }

  /** Nothing but the vaults and the two supplies of pool tokens. */
  ghost predicate LiquidityEffect(p: Pool, vault0: int, vault1: int, lpSupply: int, lpMintSupply: int, o: Outcome) {
    && o.pool == p.(side0 := o.pool.side0, side1 := o.pool.side1,
                 lpSupply := o.pool.lpSupply, lpMintSupply := o.pool.lpMintSupply)
    && o.pool.side0 == p.side0.(vault := o.pool.side0.vault) && o.pool.side0.vault == vault0
    && o.pool.side1 == p.side1.(vault := o.pool.side1.vault) && o.pool.side1.vault == vault1
    && o.pool.lpSupply == lpSupply && o.pool.lpMintSupply == lpMintSupply
    && o.tick == None
    && o.receipt.accrued == NO_FEES && o.receipt.collected == NO_FEES
  }

  /** A deposit sends what makes the rounded-up shares arrive, within the maximums, and mints lp. */
  ghost predicate DepositEffect(p: Pool, a: DepositAccounts, lp: u64, maximum0: u64, maximum1: u64, o: Outcome)
    requires Sound(p)
  {
    var amount0 := Ceil(Times(lp, ReserveOf(p.side0)), p.lpSupply);
    var amount1 := Ceil(Times(lp, ReserveOf(p.side1)), p.lpSupply);
    var paid := o.receipt.users.paid;
    && amount0 <= U64_MAX && AmountToSend(a.mint0, amount0) == Ok(paid.token0) && paid.token0 <= maximum0
    && amount1 <= U64_MAX && AmountToSend(a.mint1, amount1) == Ok(paid.token1) && paid.token1 <= maximum1
    && LiquidityEffect(p, p.side0.vault + amount0, p.side1.vault + amount1, p.lpSupply + lp, p.lpMintSupply + lp, o)
    && o.receipt.users.received == ZERO
    && o.receipt.users.withheld == Amounts(paid.token0 - amount0, paid.token1 - amount1)
  }

  /** A withdrawal pays the rounded-down shares, of which at least the minimums arrive, and burns lp. */
  ghost predicate WithdrawEffect(p: Pool, a: WithdrawAccounts, lp: u64, minimum0: u64, minimum1: u64, o: Outcome)
    requires Sound(p)
  {
    var amount0 := Floor(Times(lp, ReserveOf(p.side0)), p.lpSupply);
    var amount1 := Floor(Times(lp, ReserveOf(p.side1)), p.lpSupply);
    && amount0 < ReserveOf(p.side0) && Delivered(a.mint0, amount0) >= minimum0
    && amount1 < ReserveOf(p.side1) && Delivered(a.mint1, amount1) >= minimum1
    && LiquidityEffect(p, p.side0.vault - amount0, p.side1.vault - amount1, p.lpSupply - lp, p.lpMintSupply - lp, o)
    && o.receipt.users.paid == ZERO
    && o.receipt.users.received == Amounts(Delivered(a.mint0, amount0), Delivered(a.mint1, amount1))
    && o.receipt.users.withheld == Amounts(TransferFee(a.mint0, amount0), TransferFee(a.mint1, amount1))
  }

  /** A collection takes of each token what is owed in its bucket, up to the request, out of the bucket
      and the vault, and nothing else. */
  ghost predicate ProtocolEffect(p: Pool, requested0: u64, requested1: u64, o: Outcome) {
    var taken0, taken1 := Least(requested0, p.side0.protocolFees), Least(requested1, p.side1.protocolFees);
    && o.pool == p.(side0 := o.pool.side0, side1 := o.pool.side1)
    && o.pool.side0.vault == p.side0.vault - taken0 && o.pool.side1.vault == p.side1.vault - taken1
    && o.pool.side0.protocolFees == p.side0.protocolFees - taken0
    && o.pool.side1.protocolFees == p.side1.protocolFees - taken1
    && o.pool.side0.fundFees == p.side0.fundFees && o.pool.side1.fundFees == p.side1.fundFees
    && o.tick == None && o.receipt.users == NO_FLOW && o.receipt.accrued == NO_FEES
    && o.receipt.collected.protocol.token0 == taken0 && o.receipt.collected.protocol.token1 == taken1
    && o.receipt.collected.fund == ZERO
  }

  ghost predicate FundEffect(p: Pool, requested0: u64, requested1: u64, o: Outcome) {
    var taken0, taken1 := Least(requested0, p.side0.fundFees), Least(requested1, p.side1.fundFees);
    && o.pool == p.(side0 := o.pool.side0, side1 := o.pool.side1)
    && o.pool.side0.vault == p.side0.vault - taken0 && o.pool.side1.vault == p.side1.vault - taken1
    && o.pool.side0.fundFees == p.side0.fundFees - taken0
    && o.pool.side1.fundFees == p.side1.fundFees - taken1
    && o.pool.side0.protocolFees == p.side0.protocolFees && o.pool.side1.protocolFees == p.side1.protocolFees
    && o.tick == None && o.receipt.users == NO_FLOW && o.receipt.accrued == NO_FEES
    && o.receipt.collected.fund.token0 == taken0 && o.receipt.collected.fund.token1 == taken1
    && o.receipt.collected.protocol == ZERO
  }

  /** Each parameter sets its own field. */
  ghost predicate ConfigEffect(c: Config, param: u8, value: u64, account: Option<nat>, c': Config) {
    && c'.rates.trade == (if param == 0 then value else c.rates.trade)
    && c'.rates.protocol == (if param == 1 then value else c.rates.protocol)
    && c'.rates.fund == (if param == 2 then value else c.rates.fund)
    && (param == 3 ==> account == Some(c'.protocolOwner)) && (param != 3 ==> c'.protocolOwner == c.protocolOwner)
    && (param == 4 ==> account == Some(c'.fundOwner)) && (param != 4 ==> c'.fundOwner == c.fundOwner)
    && c'.createPoolFee == (if param == 5 then value else c.createPoolFee)
    && c'.disableCreatePool == (if param == 6 then value != 0 else c.disableCreatePool)
  }

  /** A gift raises its vault by what arrives. */
  ghost predicate DonateEffect(p: Pool, t: Token, mint: Mint, amount: u64, o: Outcome) {
    && o.pool == p.(side0 := o.pool.side0, side1 := o.pool.side1)
    && o.pool.Get(t) == p.Get(t).(vault := o.pool.Get(t).vault)
    && o.pool.Get(t).vault == p.Get(t).vault + Delivered(mint, amount)
    && (if t == Token0 then o.pool.side1 == p.side1 else o.pool.side0 == p.side0)
    && o.tick == None && o.receipt.accrued == NO_FEES && o.receipt.collected == NO_FEES
    && o.receipt.users.paid == Pair(t, amount, 0)
    && o.receipt.users.received == ZERO
    && o.receipt.users.withheld == Pair(t, TransferFee(mint, amount), 0)
  }

  ghost predicate Quiet(o: Outcome) {
    o.receipt == NOTHING && o.tick == None
  }

  ghost predicate Effect(p: Pool, op: Op, o: Outcome)
    requires Sound(p)
  {
    match op
    case OpSwapInput(a, amountIn, minimumOut) => SwapInputEffect(p, a, amountIn, minimumOut, o)
    case OpSwapOutput(a, maximumIn, amountOut) => SwapOutputEffect(p, a, maximumIn, amountOut, o)
    case OpDeposit(a, lp, maximum0, maximum1) => DepositEffect(p, a, lp, maximum0, maximum1, o)
    case OpWithdraw(a, lp, minimum0, minimum1) => WithdrawEffect(p, a, lp, minimum0, minimum1, o)
    case OpCollectProtocolFee(requested0, requested1) => ProtocolEffect(p, requested0, requested1, o)
    case OpCollectFundFee(requested0, requested1) => FundEffect(p, requested0, requested1, o)
    case OpUpdateAmmConfig(param, value, account) =>
      && o.pool == p.(config := o.pool.config) && Quiet(o)
      && ConfigEffect(p.config, param, value, account, o.pool.config)
    case OpUpdatePoolStatus(status) => o.pool == p.(status := status) && Quiet(o)
    case OpDonate(t, mint, _, amount) => DonateEffect(p, t, mint, amount, o)
    case OpBurnLp(_, amount) =>
      && o.pool == p.(lpMintSupply := o.pool.lpMintSupply) && Quiet(o)
      && o.pool.lpMintSupply == p.lpMintSupply - amount
  }

  // ---------- Swaps meet their closed forms ----------

  /** The closed-form quantities are the handlers'. */
  lemma SameQuantities(p: Pool, a: SwapAccounts, arrived: u64)
    requires Inv(p)
    ensures Sound(p)
    ensures TradeFee(p.config.rates, arrived) == Fees.Fee(arrived, p.config.rates.trade)
    ensures ProtocolShare(p.config.rates, arrived)
         == Fees.Share(Fees.Fee(arrived, p.config.rates.trade), p.config.rates.protocol)
    ensures FundShare(p.config.rates, arrived)
         == Fees.Share(Fees.Fee(arrived, p.config.rates.trade), p.config.rates.fund)
    ensures TokenPriceX32(p.side0.Reserve(), p.side1.Reserve()) == Ok((Price0(p), Price1(p)))
  {
    InvSound(p);
  }

  /** Accruing and receiving, in full. */
  lemma ReceiveVerdict(side: Side, a: SwapAccounts, q: Quote)
    requires q.result.protocolFee <= U64_MAX && q.result.fundFee <= U64_MAX
    requires q.constantAfter >= q.reserves.constant && q.sendIn > 0
    ensures Meets(ReceiveInput(side, a, q),
                  if side.protocolFees + q.result.protocolFee > U64_MAX then Refuse(Panic)
                  else if side.fundFees + q.result.fundFee > U64_MAX then Refuse(Panic)
                  else if a.funds < q.sendIn || side.vault + Delivered(a.inputMint, q.sendIn) > U64_MAX
                  then Refuse(TokenProgramError)
                  else Accept)
  {
  }

  lemma SettleMeets(p: Pool, a: SwapAccounts, q: Quote)
    requires Inv(p) && Fair(p, a, q) && Exact(p, a, q)
    ensures Sound(p)
    ensures Meets(Settle(p, a, q), SettleVerdict(p, a, q.sendIn, Delivered(a.inputMint, q.sendIn)))
  {
    SameQuantities(p, a, Delivered(a.inputMint, q.sendIn));
    ReceiveVerdict(p.Get(a.inputVault), a, q);
    UpdatedIff(p.ring, a.now, q.reserves.price0, q.reserves.price1);
    UpdatedErrors(p.ring, a.now, q.reserves.price0, q.reserves.price1);
    SettleFrom(p, a, q);
  }

  lemma UpdatedErrors(o: Ring, now: u64, price0: u128, price1: u128)
    ensures Updated(o, now, price0, price1).Err? ==> Updated(o, now, price0, price1).error == Panic
  {
  }

  /** A settlement fails as its parts do. */
  lemma SettleFrom(p: Pool, a: SwapAccounts, q: Quote)
    requires q.sendOut <= p.Get(a.outputVault).vault
    ensures var received := ReceiveInput(p.Get(a.inputVault), a, q);
            var ring := Updated(p.ring, a.now, q.reserves.price0, q.reserves.price1);
            && (received.Err? ==> Settle(p, a, q) == Err(received.error))
            && (received.Ok? && ring.Err? ==> Settle(p, a, q) == Err(ring.error))
            && (received.Ok? && ring.Ok? ==> Settle(p, a, q).Ok?)
  {
  }

  lemma SettleEffect(p: Pool, a: SwapAccounts, q: Quote)
    requires Inv(p) && Fair(p, a, q) && Exact(p, a, q) && Settle(p, a, q).Ok?
    ensures Sound(p) && SwapEffect(p, a, q.sendIn, q.sendOut, Settle(p, a, q).value)
  {
    SettleBooks(p, a, q);
    SettleTicks(p, a, q);
    SettledEffect(p, a, q, Settle(p, a, q).value);
  }

  lemma SettledEffect(p: Pool, a: SwapAccounts, q: Quote, o: Outcome)
    requires Inv(p) && Fair(p, a, q) && Exact(p, a, q)
    requires Swapped(p, a, q, o.pool) && o.receipt == SwapReceipt(a, q)
    requires o.tick == Some(Tick(a.now, q.reserves.price0, q.reserves.price1))
    requires Updated(p.ring, a.now, q.reserves.price0, q.reserves.price1) == Ok(o.pool.ring)
    ensures Sound(p) && SwapEffect(p, a, q.sendIn, q.sendOut, o)
  {
    SameQuantities(p, a, Delivered(a.inputMint, q.sendIn));
  }

  lemma CurveOutIs(p: Pool, a: SwapAccounts, amountIn: u64)
    requires Inv(p)
    ensures Sound(p) && p.side0.Reserve() > 0 && p.side1.Reserve() > 0
    ensures InputPays(p, a, amountIn) == CurveOut(p, a, Delivered(a.inputMint, amountIn))
  {
    InvSound(p);
    SameQuantities(p, a, Delivered(a.inputMint, amountIn));
  }

  /** The quote of an exact input meets its verdict and sends what the curve pays. */
  lemma QuoteInputMeets(p: Pool, a: SwapAccounts, amountIn: u64, minimumOut: u64)
    requires Inv(p)
    ensures Sound(p)
    ensures Meets(QuoteInput(p, a, amountIn, minimumOut),
                  InputQuoteVerdict(p, a, Delivered(a.inputMint, amountIn), minimumOut))
    ensures QuoteInput(p, a, amountIn, minimumOut).Ok? ==>
              var q := QuoteInput(p, a, amountIn, minimumOut).value;
              && q.sendIn == amountIn
              && q.sendOut == CurveOut(p, a, Delivered(a.inputMint, amountIn))
              && Delivered(a.outputMint, q.sendOut) >= minimumOut
  {
    CurveOutIs(p, a, amountIn);
    AskInputIff(p, a, amountIn);
    if AskInput(p, a, amountIn).Ok? {
      var answer := AskInput(p, a, amountIn).value;
      AcceptInputIff(a, amountIn, minimumOut, answer);
      if AcceptInput(a, amountIn, minimumOut, answer).Ok? {
        AcceptInputParts(a, amountIn, minimumOut, answer);
      }
    }
  }

  lemma SwapInputMeets(p: Pool, a: SwapAccounts, amountIn: u64, minimumOut: u64)
    requires Inv(p)
    ensures Sound(p)
    ensures Meets(SwapInput(p, a, amountIn, minimumOut), SwapInputVerdict(p, a, amountIn, minimumOut))
    ensures SwapInput(p, a, amountIn, minimumOut).Ok? ==>
              SwapInputEffect(p, a, amountIn, minimumOut, SwapInput(p, a, amountIn, minimumOut).value)
  {
    QuoteInputMeets(p, a, amountIn, minimumOut);
    if QuoteInput(p, a, amountIn, minimumOut).Ok? {
      var q := QuoteInput(p, a, amountIn, minimumOut).value;
      QuoteInputFair(p, a, amountIn, minimumOut);
      SettleMeets(p, a, q);
      if Settle(p, a, q).Ok? {
        SettleEffect(p, a, q);
      }
    }
  }

  /** What the curve answers to an exact output of dy, in full. */
  ghost predicate Answers(r: Result<SwapResult>, dy: u64, x: u64, y: u64, rates: Rates)
    requires rates.trade < 1_000_000
  {
    && (r.Err? ==> r.error == NoValue || r.error == Panic)
    && (r.Ok? ==> ConstantAfter(r.value).Ok? && r.value.destinationSwapped == dy)
    && (dy >= y ==> r == Err(Panic))
    && (dy < y && 2 * Times(x, dy) < y - dy ==> r.Ok? && r.value.sourceSwapped == 0)
    && (dy < y && 2 * Times(x, dy) >= y - dy ==>
          var gross := Fees.Gross(AmountIn(dy, x, y), rates.trade);
          if gross > U64_MAX then r.Err? || r.value.sourceSwapped > U64_MAX
          else r.Ok? && r.value.sourceSwapped == gross > 0)
  }

  lemma PriceAnswer(dy: u64, x: u64, y: u64, rates: Rates)
    requires rates.Valid()
    ensures Answers(SwapBaseOutput(dy, x, y, rates), dy, x, y, rates)
  {
    OutputErrors(dy, x, y, rates);
    OutputOutcome(dy, x, y, rates);
    if dy >= y {
      OutputTooMuch(dy, x, y, rates);
    } else if 2 * Times(x, dy) < y - dy {
      PricedAtZero(dy, x, y, rates);
    } else if SwapBaseOutput(dy, x, y, rates).Ok? {
      OutputResult(dy, x, y, rates);
    }
  }

  /** The checks before the curve is asked for an exact output. */
  lemma AskOutputRefused(p: Pool, a: SwapAccounts, amountOut: u64)
    requires !Asked(p, a, amountOut)
    ensures AskOutput(p, a, amountOut)
         == Err(if amountOut == 0 then RequireGtViolated
                else if !p.Enabled(SwapFeature) || a.now < p.openTime then NotApproved
                else if AmountToSend(a.outputMint, amountOut).Err? then AmountToSend(a.outputMint, amountOut).error
                else InvalidVault)
  {
  }

  /** An answer of the curve passes through, a missing one as the error for it. */
  lemma AskOutputUnpriced(p: Pool, a: SwapAccounts, amountOut: u64, dy: u64, reserves: Reserves, e: Error)
    requires Asked(p, a, amountOut) && dy == Leaves(a, amountOut)
    requires ReadReserves(p, a) == Ok(reserves)
    requires SwapBaseOutput(dy, reserves.x, reserves.y, p.config.rates) == Err(e)
    ensures AskOutput(p, a, amountOut) == Err(if e == NoValue then ZeroTradingTokens else e)
  {
    var priced: Result<SwapResult> := Err(e);
    assert SwapBaseOutput(dy, reserves.x, reserves.y, p.config.rates).OkOr(ZeroTradingTokens)
        == priced.OkOr(ZeroTradingTokens);
  }

  /** The checks after the curve has answered an exact output. */
  lemma AcceptOutputMeets(a: SwapAccounts, maximumIn: u64, answer: Answer)
    requires ConstantAfter(answer.result).Ok? && answer.result.destinationSwapped == answer.asked
    ensures var source := answer.result.sourceSwapped;
            Meets(AcceptOutput(a, maximumIn, answer),
                  if source > U64_MAX then Refuse(Panic)
                  else if source == 0 then Refuse(RequireGtViolated)
                  else if AmountToSend(a.inputMint, source).Err? then Refuse(AmountToSend(a.inputMint, source).error)
                  else if AmountToSend(a.inputMint, source).value > maximumIn then Refuse(ExceededSlippage)
                  else Accept)
  {
  }

  /** What the curve's answer is worth: the verdict on a price, from the answer alone. */
  ghost function AnswerVerdict(a: SwapAccounts, maximumIn: u64, r: Result<SwapResult>): Verdict {
    if r.Err? then Refuse(if r.error == NoValue then ZeroTradingTokens else r.error)
    else
      var source := r.value.sourceSwapped;
      if source > U64_MAX then Refuse(Panic)
      else if source == 0 then Refuse(RequireGtViolated)
      else if AmountToSend(a.inputMint, source).Err? then Refuse(AmountToSend(a.inputMint, source).error)
      else if AmountToSend(a.inputMint, source).value > maximumIn then Refuse(ExceededSlippage)
      else Accept
  }

  lemma QuoteOutputAnswers(p: Pool, a: SwapAccounts, maximumIn: u64, amountOut: u64, reserves: Reserves,
                           r: Result<SwapResult>)
    requires Asked(p, a, amountOut) && ReadReserves(p, a) == Ok(reserves)
    requires SwapBaseOutput(Leaves(a, amountOut), reserves.x, reserves.y, p.config.rates) == r
    requires r.Ok? ==> ConstantAfter(r.value).Ok? && r.value.destinationSwapped == Leaves(a, amountOut)
    ensures Meets(QuoteOutput(p, a, maximumIn, amountOut), AnswerVerdict(a, maximumIn, r))
  {
    var dy := Leaves(a, amountOut);
    if r.Err? {
      AskOutputUnpriced(p, a, amountOut, dy, reserves, r.error);
    } else {
      AskOutputAnswered(p, a, amountOut, dy, reserves, r.value);
      AcceptOutputMeets(a, maximumIn, Answer(dy, reserves, r.value));
    }
  }

  /** The verdict on the curve's answer is the verdict on the price. */
  lemma AnswerPriced(p: Pool, a: SwapAccounts, maximumIn: u64, dy: u64, r: Result<SwapResult>, q: Result<Quote>)
    requires Sound(p)
    requires Answers(r, dy, ReserveOf(p.Get(a.inputVault)), ReserveOf(p.Get(a.outputVault)), p.config.rates)
    requires Meets(q, AnswerVerdict(a, maximumIn, r))
    ensures Meets(q, PriceVerdict(p, a, maximumIn, dy))
  {
    if dy < ReserveOf(p.Get(a.outputVault)) {
      CurveInIs(p, a, dy);
    }
  }

  /** A request that passes the first checks meets the verdict on its price. */
  lemma AskedMeets(p: Pool, a: SwapAccounts, maximumIn: u64, amountOut: u64, dy: u64, reserves: Reserves)
    requires Inv(p) && Asked(p, a, amountOut) && dy == Leaves(a, amountOut)
    requires ReadReserves(p, a) == Ok(reserves) && Read(p, a, reserves)
    ensures Sound(p)
    ensures Meets(QuoteOutput(p, a, maximumIn, amountOut), PriceVerdict(p, a, maximumIn, dy))
  {
    InvSound(p);
    var r := SwapBaseOutput(dy, reserves.x, reserves.y, p.config.rates);
    PriceAnswer(dy, reserves.x, reserves.y, p.config.rates);
    QuoteOutputAnswers(p, a, maximumIn, amountOut, reserves, r);
    AnswerPriced(p, a, maximumIn, dy, r, QuoteOutput(p, a, maximumIn, amountOut));
  }

  /** The quote of an exact output meets its verdict. */
  lemma QuoteOutputMeets(p: Pool, a: SwapAccounts, maximumIn: u64, amountOut: u64)
    requires Inv(p)
    ensures Sound(p)
    ensures Meets(QuoteOutput(p, a, maximumIn, amountOut), OutputQuoteVerdict(p, a, maximumIn, amountOut))
  {
    InvSound(p);
    if !Asked(p, a, amountOut) {
      AskOutputRefused(p, a, amountOut);
    } else {
      ReservesRead(p, a);
      AskedMeets(p, a, maximumIn, amountOut, Leaves(a, amountOut), ReadReserves(p, a).value);
    }
  }

  lemma CurveInIs(p: Pool, a: SwapAccounts, dy: u64)
    requires Sound(p) && dy < ReserveOf(p.Get(a.outputVault))
    ensures CurveIn(p, a, dy)
         == Fees.Gross(AmountIn(dy, ReserveOf(p.Get(a.inputVault)), ReserveOf(p.Get(a.outputVault))),
                       p.config.rates.trade)
  {
  }

  /** What the parts of a quote say about what it sends and what arrives of it. */
  lemma PartsPriced(p: Pool, a: SwapAccounts, amountOut: u64, q: Quote)
    requires Sound(p) && p.config.rates.Valid() && Read(p, a, q.reserves) && OutputParts(p, a, q, amountOut)
    ensures q.sendOut < ReserveOf(p.Get(a.outputVault))
    ensures Delivered(a.outputMint, q.sendOut) == amountOut
    ensures Delivered(a.inputMint, q.sendIn) == CurveIn(p, a, q.sendOut) == q.result.sourceSwapped
  {
    OutputPartsFair(p, a, q, amountOut);
    CurveInIs(p, a, q.sendOut);
    AmountToSendExact(a.inputMint, q.result.sourceSwapped);
  }

  /** What an accepted quote sends and what arrives of it. */
  lemma QuotePrice(p: Pool, a: SwapAccounts, maximumIn: u64, amountOut: u64, q: Quote)
    requires Inv(p) && QuoteOutput(p, a, maximumIn, amountOut) == Ok(q)
    ensures Sound(p)
    ensures AmountToSend(a.outputMint, amountOut) == Ok(q.sendOut) && q.sendOut < ReserveOf(p.Get(a.outputVault))
    ensures Delivered(a.outputMint, q.sendOut) == amountOut
    ensures Delivered(a.inputMint, q.sendIn) == CurveIn(p, a, q.sendOut)
    ensures AmountToSend(a.inputMint, CurveIn(p, a, q.sendOut)) == Ok(q.sendIn) && q.sendIn <= maximumIn
  {
    InvSound(p);
    ReservesRead(p, a);
    QuoteOutputParts(p, a, maximumIn, amountOut);
    PartsPriced(p, a, amountOut, q);
  }

  lemma SwapOutputMeets(p: Pool, a: SwapAccounts, maximumIn: u64, amountOut: u64)
    requires Inv(p)
    ensures Sound(p)
    ensures Meets(SwapOutput(p, a, maximumIn, amountOut), SwapOutputVerdict(p, a, maximumIn, amountOut))
    ensures SwapOutput(p, a, maximumIn, amountOut).Ok? ==>
              SwapOutputEffect(p, a, maximumIn, amountOut, SwapOutput(p, a, maximumIn, amountOut).value)
  {
    QuoteOutputMeets(p, a, maximumIn, amountOut);
    if QuoteOutput(p, a, maximumIn, amountOut).Ok? {
      var q := QuoteOutput(p, a, maximumIn, amountOut).value;
      QuotePrice(p, a, maximumIn, amountOut, q);
      QuoteOutputFair(p, a, maximumIn, amountOut);
      SettleMeets(p, a, q);
      if Settle(p, a, q).Ok? {
        SettleEffect(p, a, q);
      }
    }
  }

  // ---------- Liquidity meets its closed forms ----------

  /** A nonzero share is rounded as asked; a share below one unit is refused. */
  lemma SharesMeet(p: Pool, lp: u64, direction: RoundDirection)
    requires Inv(p)
    ensures Sound(p)
    ensures Meets(SharesOf(p, lp, direction),
                  if Times(lp, ReserveOf(p.side0)) < p.lpSupply || Times(lp, ReserveOf(p.side1)) < p.lpSupply
                  then Refuse(ZeroTradingTokens)
                  else Accept)
    ensures SharesOf(p, lp, direction).Ok? ==>
              var shares := SharesOf(p, lp, direction).value;
              && shares.reserve0 == ReserveOf(p.side0) && shares.reserve1 == ReserveOf(p.side1)
              && shares.tokens.token0 == Share(Times(lp, ReserveOf(p.side0)), p.lpSupply, direction)
              && shares.tokens.token1 == Share(Times(lp, ReserveOf(p.side1)), p.lpSupply, direction)
  {
    InvSound(p);
    CeilingComputed(lp, p.lpSupply, p.side0.Reserve());
    CeilingComputed(lp, p.lpSupply, p.side1.Reserve());
    ShareComputed(lp, p.lpSupply, p.side0.Reserve());
    ShareComputed(lp, p.lpSupply, p.side1.Reserve());
    SharesOfIff(p, lp, direction);
  }

  ghost function Share(shares: nat, supply: nat, direction: RoundDirection): nat
    requires supply > 0
  {
    if direction == RoundUp then Ceil(shares, supply) else Floor(shares, supply)
  }

  lemma DepositOfMeets(a: DepositAccounts, tokens: TradingTokens, maximum0: u64, maximum1: u64)
    ensures Meets(DepositOf(a, tokens, maximum0, maximum1),
                  if tokens.token0 > U64_MAX then Refuse(Panic)
                  else if AmountToSend(a.mint0, tokens.token0).Err?
                  then Refuse(AmountToSend(a.mint0, tokens.token0).error)
                  else if tokens.token1 > U64_MAX then Refuse(Panic)
                    else if AmountToSend(a.mint1, tokens.token1).Err?
                    then Refuse(AmountToSend(a.mint1, tokens.token1).error)
                    else if AmountToSend(a.mint0, tokens.token0).value > maximum0
                            || AmountToSend(a.mint1, tokens.token1).value > maximum1
                      then Refuse(ExceededSlippage)
                      else Accept)
    ensures DepositOf(a, tokens, maximum0, maximum1).Ok? ==>
              && AmountToSend(a.mint0, tokens.token0).Ok? && AmountToSend(a.mint1, tokens.token1).Ok?
              && DepositOf(a, tokens, maximum0, maximum1).value
                 == Terms(AmountToSend(a.mint0, tokens.token0).value, AmountToSend(a.mint1, tokens.token1).value)
  {
  }

  lemma TakeDepositMeets(p: Pool, a: DepositAccounts, lp: u64, t: Terms, amount0: u64, amount1: u64)
    requires p.lpMintSupply <= p.lpSupply && t.amount0 > 0 && t.amount1 > 0
    requires Delivered(a.mint0, t.amount0) == amount0 && Delivered(a.mint1, t.amount1) == amount1
    ensures Meets(TakeDeposit(p, a, lp, t),
                  if a.funds0 < t.amount0 || p.side0.vault + amount0 > U64_MAX then Refuse(TokenProgramError)
                  else if a.funds1 < t.amount1 || p.side1.vault + amount1 > U64_MAX then Refuse(TokenProgramError)
                  else if p.lpSupply + lp > U64_MAX then Refuse(Panic)
                  else Accept)
  {
  }

  lemma DepositMeets(p: Pool, a: DepositAccounts, lp: u64, maximum0: u64, maximum1: u64)
    requires Inv(p)
    ensures Sound(p)
    ensures Meets(Deposit(p, a, lp, maximum0, maximum1), DepositVerdict(p, a, lp, maximum0, maximum1))
    ensures Deposit(p, a, lp, maximum0, maximum1).Ok? ==>
              DepositEffect(p, a, lp, maximum0, maximum1, Deposit(p, a, lp, maximum0, maximum1).value)
  {
    SharesMeet(p, lp, RoundUp);
    if SharesOf(p, lp, RoundUp).Ok? {
      var tokens := SharesOf(p, lp, RoundUp).value.tokens;
      DepositOfMeets(a, tokens, maximum0, maximum1);
      if DepositOf(a, tokens, maximum0, maximum1).Ok? {
        var t := DepositOf(a, tokens, maximum0, maximum1).value;
        CeilPositive(Times(lp, ReserveOf(p.side0)), p.lpSupply);
        CeilPositive(Times(lp, ReserveOf(p.side1)), p.lpSupply);
        AmountToSendExact(a.mint0, tokens.token0);
        AmountToSendExact(a.mint1, tokens.token1);
        TakeDepositMeets(p, a, lp, t, tokens.token0, tokens.token1);
        if TakeDeposit(p, a, lp, t).Ok? {
          TakeDepositBooks(p, a, lp, t);
        }
      }
    }
  }

  lemma WithdrawalOfMeets(a: WithdrawAccounts, shares: Shares, minimum0: u64, minimum1: u64)
    ensures var amount0 := Least(shares.reserve0, shares.tokens.token0);
            var amount1 := Least(shares.reserve1, shares.tokens.token1);
            && Meets(WithdrawalOf(a, shares, minimum0, minimum1),
                     if shares.tokens.token0 > U64_MAX || shares.tokens.token1 > U64_MAX then Refuse(Panic)
                     else if Delivered(a.mint0, amount0) < minimum0 then Refuse(ExceededSlippage)
                     else if Delivered(a.mint1, amount1) < minimum1 then Refuse(ExceededSlippage)
                     else Accept)
            && (WithdrawalOf(a, shares, minimum0, minimum1).Ok? ==>
                  WithdrawalOf(a, shares, minimum0, minimum1).value == Terms(amount0, amount1))
  {
  }

  lemma PayWithdrawalMeets(p: Pool, a: WithdrawAccounts, lp: u64, t: Terms)
    requires t.amount0 <= p.side0.vault && t.amount1 <= p.side1.vault
    ensures Meets(PayWithdrawal(p, a, lp, t),
                  if lp > p.lpSupply then Refuse(Panic)
                  else if lp > a.ownerLp || lp > p.lpMintSupply then Refuse(TokenProgramError)
                  else Accept)
  {
  }

  lemma WithdrawnEffect(p: Pool, a: WithdrawAccounts, lp: u64, minimum0: u64, minimum1: u64, t: Terms, o: Outcome)
    requires Sound(p) && Withdrawn(p, a, lp, t, o)
    requires t.amount0 == Floor(Times(lp, ReserveOf(p.side0)), p.lpSupply) < ReserveOf(p.side0)
    requires t.amount1 == Floor(Times(lp, ReserveOf(p.side1)), p.lpSupply) < ReserveOf(p.side1)
    requires Delivered(a.mint0, t.amount0) >= minimum0 && Delivered(a.mint1, t.amount1) >= minimum1
    ensures WithdrawEffect(p, a, lp, minimum0, minimum1, o)
  {
  }

  /** No clamp changes the floor of a share of less than all pool tokens. */
  lemma ShareBelowReserve(lp: nat, supply: nat, reserve: nat)
    requires lp < supply && reserve > 0
    ensures Floor(Times(lp, reserve), supply) < reserve
  {
    FloorAdjoint(Times(lp, reserve), supply, reserve);
    TimesIs(lp, reserve);
    MulMono(lp + 1, supply, reserve);
  }

  /** The quote of a withdrawal meets its verdict; its terms are the clamped floors of the shares. */
  lemma QuoteWithdrawMeets(p: Pool, a: WithdrawAccounts, lp: u64, minimum0: u64, minimum1: u64)
    requires Inv(p)
    ensures Sound(p)
    ensures Meets(QuoteWithdraw(p, a, lp, minimum0, minimum1), WithdrawQuoteVerdict(p, a, lp, minimum0, minimum1))
    ensures QuoteWithdraw(p, a, lp, minimum0, minimum1).Ok? ==>
              var t := QuoteWithdraw(p, a, lp, minimum0, minimum1).value;
              && t.amount0 == Least(ReserveOf(p.side0), Floor(Times(lp, ReserveOf(p.side0)), p.lpSupply))
              && t.amount1 == Least(ReserveOf(p.side1), Floor(Times(lp, ReserveOf(p.side1)), p.lpSupply))
              && Delivered(a.mint0, t.amount0) >= minimum0 && Delivered(a.mint1, t.amount1) >= minimum1
  {
    SharesMeet(p, lp, RoundDown);
    if SharesOf(p, lp, RoundDown).Ok? {
      WithdrawalOfMeets(a, SharesOf(p, lp, RoundDown).value, minimum0, minimum1);
    }
  }

  lemma WithdrawMeets(p: Pool, a: WithdrawAccounts, lp: u64, minimum0: u64, minimum1: u64)
    requires Inv(p)
    ensures Sound(p)
    ensures Meets(Withdraw(p, a, lp, minimum0, minimum1), WithdrawVerdict(p, a, lp, minimum0, minimum1))
    ensures Withdraw(p, a, lp, minimum0, minimum1).Ok? ==>
              WithdrawEffect(p, a, lp, minimum0, minimum1, Withdraw(p, a, lp, minimum0, minimum1).value)
  {
    QuoteWithdrawMeets(p, a, lp, minimum0, minimum1);
    if QuoteWithdraw(p, a, lp, minimum0, minimum1).Ok? {
      var t := QuoteWithdraw(p, a, lp, minimum0, minimum1).value;
      PayWithdrawalMeets(p, a, lp, t);
      if PayWithdrawal(p, a, lp, t).Ok? {
        ShareBelowReserve(lp, p.lpSupply, ReserveOf(p.side0));
        ShareBelowReserve(lp, p.lpSupply, ReserveOf(p.side1));
        PayWithdrawalBooks(p, a, lp, t);
        WithdrawnEffect(p, a, lp, minimum0, minimum1, t, PayWithdrawal(p, a, lp, t).value);
      }
    }
  }

  // ---------- Creation meets its closed form ----------

  ghost function CreateConfigVerdict(rates: Rates): Verdict {
    if rates.trade < 1_000_000 && rates.protocol + rates.fund <= 1_000_000 then Accept else Refuse(Panic)
  }

  /** A configuration is created under the bounds on its rates, with one owner for both buckets, and
      allows pools to be created. */
  lemma CreateConfigMeets(rates: Rates, createPoolFee: u64, owner: nat)
    ensures Meets(CreateAmmConfig(rates, createPoolFee, owner), CreateConfigVerdict(rates))
    ensures CreateAmmConfig(rates, createPoolFee, owner).Ok? ==>
              var c := CreateAmmConfig(rates, createPoolFee, owner).value;
              && c.rates == rates && c.createPoolFee == createPoolFee && !c.disableCreatePool
              && c.protocolOwner == c.fundOwner == owner
  {
  }

  ghost function CreationVerdict(c: Config, a: InitializeAccounts, amount0: u64, amount1: u64, openTime: u64): Verdict
  {
    var arrived0, arrived1 := Delivered(a.mint0, amount0), Delivered(a.mint1, amount1);
    if !a.supported then Refuse(NotSupportMint)
    else if c.disableCreatePool then Refuse(NotApproved)
    else if openTime <= a.now == U64_MAX then Refuse(Panic)
    else if amount0 > a.funds0 || amount1 > a.funds1 then Refuse(TokenProgramError)
    else if arrived0 == 0 || arrived1 == 0 then Refuse(EmptySupply)
    else if Times(arrived0, arrived1) < 10_000 then Refuse(InitLpAmountTooLess)
    else Accept
  }

  /** A new pool holds what arrived and owes nothing; it counts the floored square root of the product
      as supply and mints all but 100 of it; every feature is enabled once the opening time, moved to
      the next second if it has passed, is reached; and its oracle is empty. */
  ghost predicate CreationEffect(c: Config, a: InitializeAccounts, amount0: u64, amount1: u64, openTime: u64,
                                 o: Outcome)
  {
    var arrived0, arrived1 := Delivered(a.mint0, amount0), Delivered(a.mint1, amount1);
    var p, users := o.pool, o.receipt.users;
    && p.side0.vault == arrived0 && p.side0.protocolFees == p.side0.fundFees == 0
    && p.side1.vault == arrived1 && p.side1.protocolFees == p.side1.fundFees == 0
    && p.lpSupply * p.lpSupply <= arrived0 * arrived1 < (p.lpSupply + 1) * (p.lpSupply + 1)
    && p.lpMintSupply == p.lpSupply - 100
    && p.status == 0
    && p.openTime == (if openTime > a.now then openTime else a.now + 1)
    && p.config == c
    && !p.ring.initialized && p.ring.index == 0
    && (forall k :: 0 <= k < 100 ==> p.ring.slots[k].timestamp == 0)
    && o.tick == None && o.receipt.accrued == NO_FEES && o.receipt.collected == NO_FEES
    && users.paid.token0 == amount0 && users.paid.token1 == amount1
    && users.received == ZERO
    && users.withheld.token0 == TransferFee(a.mint0, amount0)
    && users.withheld.token1 == TransferFee(a.mint1, amount1)
  }

  lemma FilledVaultsMeet(a: InitializeAccounts, amount0: u64, amount1: u64)
    ensures Meets(FilledVaults(a, amount0, amount1),
                  if amount0 > a.funds0 || amount1 > a.funds1 then Refuse(TokenProgramError)
                  else if Delivered(a.mint0, amount0) == 0 || Delivered(a.mint1, amount1) == 0 then Refuse(EmptySupply)
                  else Accept)
  {
  }

  /** A creation ends as its parts do. */
  lemma QuoteInitializeMeets(c: Config, a: InitializeAccounts, amount0: u64, amount1: u64, openTime: u64)
    ensures Meets(QuoteInitialize(c, a, amount0, amount1, openTime),
                  CreationVerdict(c, a, amount0, amount1, openTime))
    ensures QuoteInitialize(c, a, amount0, amount1, openTime).Ok? ==>
              var q := QuoteInitialize(c, a, amount0, amount1, openTime).value;
              && q.vault0 == Delivered(a.mint0, amount0) && q.vault1 == Delivered(a.mint1, amount1)
              && q.opens == (if openTime > a.now then openTime else a.now + 1)
              && LiquidityOf(q.vault0, q.vault1) == Ok(q.liquidity)
  {
    FilledVaultsMeet(a, amount0, amount1);
    FilledVaultsIff(a, amount0, amount1);
    LiquidityOfIff(Delivered(a.mint0, amount0), Delivered(a.mint1, amount1));
    OpeningMeets(a.now, openTime);
  }

  lemma OpeningMeets(now: u64, openTime: u64)
    ensures Meets(OpeningTime(now, openTime), if openTime <= now == U64_MAX then Refuse(Panic) else Accept)
    ensures OpeningTime(now, openTime).Ok? ==>
              OpeningTime(now, openTime).value == if openTime > now then openTime else now + 1
  {
  }

  lemma LiquidityIsRoot(vault0: u64, vault1: u64, liquidity: u64)
    requires LiquidityOf(vault0, vault1) == Ok(liquidity)
    ensures liquidity * liquidity <= vault0 * vault1 < (liquidity + 1) * (liquidity + 1)
  {
    Math.SqrtBounds(Times(vault0, vault1));
    TimesIs(vault0, vault1);
  }

  lemma CreationMeets(c: Config, a: InitializeAccounts, amount0: u64, amount1: u64, openTime: u64)
    ensures Meets(Initialize(c, a, amount0, amount1, openTime), CreationVerdict(c, a, amount0, amount1, openTime))
    ensures Initialize(c, a, amount0, amount1, openTime).Ok? ==>
              CreationEffect(c, a, amount0, amount1, openTime, Initialize(c, a, amount0, amount1, openTime).value)
  {
    QuoteInitializeMeets(c, a, amount0, amount1, openTime);
    var r := QuoteInitialize(c, a, amount0, amount1, openTime);
    if r.Ok? {
      LiquidityIsRoot(r.value.vault0, r.value.vault1, r.value.liquidity);
    }
  }

  lemma CreatedFrom(b: Birth, updated: Config)
    requires CreateAmmConfig(b.rates, b.createPoolFee, b.owner).Ok?
    requires updated == ConfigRun(CreateAmmConfig(b.rates, b.createPoolFee, b.owner).value, b.updates)
    ensures var r := Initialize(updated, b.accounts, b.amount0, b.amount1, b.openTime);
            && (r.Ok? ==> Created(b) == Ok(World(r.value.pool, r.value.receipt, [])))
            && (r.Err? ==> Created(b) == Err(r.error))
  {
  }

  /** A world is created from a configuration, its updates, and a pool under the result. */
  lemma CreatedMeets(b: Birth, updated: Config)
    requires var c := CreateAmmConfig(b.rates, b.createPoolFee, b.owner);
             c.Ok? ==> updated == ConfigRun(c.value, b.updates)
    ensures Meets(Created(b), if !CreateConfigVerdict(b.rates).Accept? then Refuse(Panic)
                  else CreationVerdict(updated, b.accounts, b.amount0, b.amount1, b.openTime))
    ensures Created(b).Ok? ==>
              var w := Created(b).value;
              && CreationEffect(updated, b.accounts, b.amount0, b.amount1, b.openTime, Outcome(w.pool, w.ledger, None))
              && w.log == []
  {
    CreateConfigMeets(b.rates, b.createPoolFee, b.owner);
    if CreateConfigVerdict(b.rates).Accept? {
      CreatedFrom(b, updated);
      CreationMeets(updated, b.accounts, b.amount0, b.amount1, b.openTime);
    }
  }

  /** Updates are made one after another; one is refused and leaves the configuration as it is, or
      sets its field. */
  lemma {:induction false} ConfigRunAppends(c: Config, updates: seq<ConfigUpdate>, more: seq<ConfigUpdate>)
    ensures ConfigRun(c, []) == c
    ensures ConfigRun(c, updates + more) == ConfigRun(ConfigRun(c, updates), more)
    ensures |updates| == 1 ==>
              var u := updates[0];
              && (ConfigVerdict(c, u.param, u.value, u.account).Accept? ==>
                    ConfigEffect(c, u.param, u.value, u.account, ConfigRun(c, updates)))
              && (!ConfigVerdict(c, u.param, u.value, u.account).Accept? ==> ConfigRun(c, updates) == c)
    decreases |updates|
  {
    if updates == [] {
      assert updates + more == more;
    } else {
      var u := updates[0];
      assert (updates + more)[1..] == updates[1..] + more;
      ConfigMeets(c, u.param, u.value, u.account);
      var updated := UpdateAmmConfig(c, u.param, u.value, u.account);
      ConfigRunAppends(if updated.Ok? then updated.value else c, updates[1..], more);
    }
  }

  // ---------- Every step, and every run ----------

  lemma CollectMeets(p: Pool, requested0: u64, requested1: u64)
    requires Inv(p)
    ensures CollectProtocolFee(p, requested0, requested1).Ok?
    ensures ProtocolEffect(p, requested0, requested1, CollectProtocolFee(p, requested0, requested1).value)
    ensures CollectFundFee(p, requested0, requested1).Ok?
    ensures FundEffect(p, requested0, requested1, CollectFundFee(p, requested0, requested1).value)
  {
  }

  lemma ConfigMeets(c: Config, param: u8, value: u64, account: Option<nat>)
    ensures Meets(UpdateAmmConfig(c, param, value, account), ConfigVerdict(c, param, value, account))
    ensures UpdateAmmConfig(c, param, value, account).Ok? ==>
              ConfigEffect(c, param, value, account, UpdateAmmConfig(c, param, value, account).value)
  {
  }

  lemma DonateMeets(p: Pool, t: Token, mint: Mint, funds: u64, amount: u64)
    requires Sound(p)
    ensures Meets(Donate(p, t, mint, funds, amount), StepVerdict(p, OpDonate(t, mint, funds, amount)))
    ensures Donate(p, t, mint, funds, amount).Ok? ==>
              DonateEffect(p, t, mint, amount, Donate(p, t, mint, funds, amount).value)
  {
  }

  /** Every step on a valid pool is refused with the error that the closed form gives or, if it gives
      none, is accepted and has exactly the effect that the closed form gives. */
  lemma StepMeets(p: Pool, op: Op)
    requires Inv(p)
    ensures Sound(p)
    ensures Meets(Step(p, op), StepVerdict(p, op))
    ensures Step(p, op).Ok? ==> Effect(p, op, Step(p, op).value)
  {
    InvSound(p);
    match op
    case OpSwapInput(a, amountIn, minimumOut) => SwapInputMeets(p, a, amountIn, minimumOut);
    case OpSwapOutput(a, maximumIn, amountOut) => SwapOutputMeets(p, a, maximumIn, amountOut);
    case OpDeposit(a, lp, maximum0, maximum1) => DepositMeets(p, a, lp, maximum0, maximum1);
    case OpWithdraw(a, lp, minimum0, minimum1) => WithdrawMeets(p, a, lp, minimum0, minimum1);
    case OpCollectProtocolFee(requested0, requested1) => CollectMeets(p, requested0, requested1);
    case OpCollectFundFee(requested0, requested1) => CollectMeets(p, requested0, requested1);
    case OpUpdateAmmConfig(param, value, account) => ConfigMeets(p.config, param, value, account);
    case OpUpdatePoolStatus(status) =>
    case OpDonate(t, mint, funds, amount) => DonateMeets(p, t, mint, funds, amount);
    case OpBurnLp(balance, amount) =>
  }

  /** A transaction took w to w' and returned r: accepted, it has its effect, adds what it moved to the
      ledger, and offers its tick to the log; refused, it leaves no trace. */
  ghost predicate Landed(w: World, op: Op, w': World, r: Result<Receipt>)
    requires Sound(w.pool)
  {
    && Meets(r, StepVerdict(w.pool, op))
    && (r.Err? ==> w' == w)
    && (r.Ok? ==>
          exists tick: Option<Tick> ::
            && Effect(w.pool, op, Outcome(w'.pool, r.value, tick))
            && Added(w.ledger, r.value, w'.ledger)
            && w'.log == LogWith(w.log, tick))
  }

  /** total' is total with one receipt added, token by token and kind by kind. */
  ghost predicate Added(total: Receipt, r: Receipt, total': Receipt) {
    && Sum(total.users.paid, r.users.paid, total'.users.paid)
    && Sum(total.users.received, r.users.received, total'.users.received)
    && Sum(total.users.withheld, r.users.withheld, total'.users.withheld)
    && Sum(total.accrued.protocol, r.accrued.protocol, total'.accrued.protocol)
    && Sum(total.accrued.fund, r.accrued.fund, total'.accrued.fund)
    && Sum(total.collected.protocol, r.collected.protocol, total'.collected.protocol)
    && Sum(total.collected.fund, r.collected.fund, total'.collected.fund)
  }

  ghost predicate Sum(a: Amounts, b: Amounts, c: Amounts) {
    c.token0 == a.token0 + b.token0 && c.token1 == a.token1 + b.token1
  }

  lemma PlusAdds(total: Receipt, r: Receipt)
    ensures Added(total, r, total.Plus(r))
  {
  }

  /** What an accepted step makes of the world. */
  lemma ExecShape(w: World, op: Op, o: Outcome)
    requires Step(w.pool, op) == Ok(o)
    ensures Exec(w, op) == World(o.pool, w.ledger.Plus(o.receipt), LogWith(w.log, o.tick))
    ensures Returned(Step(w.pool, op)) == Ok(o.receipt)
  {
  }

  lemma Lands(w: World, op: Op, w': World, o: Outcome)
    requires Sound(w.pool) && StepVerdict(w.pool, op) == Accept && Effect(w.pool, op, o)
    requires w' == World(o.pool, w.ledger.Plus(o.receipt), LogWith(w.log, o.tick))
    ensures Landed(w, op, w', Ok(o.receipt))
  {
    PlusAdds(w.ledger, o.receipt);
    assert o == Outcome(w'.pool, o.receipt, o.tick);
  }

  /** Every transaction on a valid world. */
  lemma ExecMeets(w: World, op: Op)
    requires WorldInv(w)
    ensures Sound(w.pool)
    ensures Landed(w, op, Exec(w, op), Returned(Step(w.pool, op)))
  {
    StepMeets(w.pool, op);
    if Step(w.pool, op).Ok? {
      var o := Step(w.pool, op).value;
      ExecShape(w, op, o);
      Lands(w, op, Exec(w, op), o);
    }
  }

  /** The log after a tick, which it takes if it is the first or comes at least 15 seconds after the
      last. */
  ghost function LogWith(log: seq<Tick>, tick: Option<Tick>): seq<Tick> {
    if tick.None? then log
    else if log == [] || log[|log| - 1].time + 15 <= tick.value.time then log + [tick.value]
    else log
  }

  /** A run is its transactions, one after another. */
  lemma {:induction false} RunAppends(w: World, ops: seq<Op>, more: seq<Op>)
    ensures Run(w, []) == w
    ensures Run(w, ops + more) == Run(Run(w, ops), more)
    ensures |ops| == 1 ==> Run(w, ops) == Exec(w, ops[0])
    decreases |ops|
  {
    if ops == [] {
      assert ops + more == more;
    } else {
      assert (ops + more)[1..] == ops[1..] + more;
      RunAppends(Exec(w, ops[0]), ops[1..], more);
    }
  }

  // ---------- The oracle's pace, and the status byte ----------

  /** In every reachable world recorded prices are at least 15 seconds apart. */
  lemma TicksApart(w: World, k: nat)
    requires Reachable(w) && 0 < k < |w.log|
    ensures w.log[k].time - w.log[k - 1].time >= 15
  {
    ReachableSafe(w);
  }

  /** A status of 1 stops deposits and nothing else, 2 withdrawals, 4 swaps: what the stopped kind asks
      is not approved, and every other step is accepted as if the status were 0. */
  lemma StatusStops(p: Pool, op: Op)
    requires Inv(p)
    ensures p.status == 1 ==>
              && (op.OpDeposit? && op.lp > 0 ==> Step(p, op) == Err(NotApproved))
              && (Step(p, op).Ok? <==> !op.OpDeposit? && Step(p.(status := 0), op).Ok?)
    ensures p.status == 2 ==>
              && (op.OpWithdraw? && op.lp > 0 && p.lpMintSupply > 0 ==> Step(p, op) == Err(NotApproved))
              && (Step(p, op).Ok? <==> !op.OpWithdraw? && Step(p.(status := 0), op).Ok?)
    ensures p.status == 4 ==>
              && (op.OpSwapInput? ==> Step(p, op) == Err(NotApproved))
              && (op.OpSwapOutput? && op.amountOut > 0 ==> Step(p, op) == Err(NotApproved))
              && (Step(p, op).Ok? <==> !op.OpSwapInput? && !op.OpSwapOutput? && Step(p.(status := 0), op).Ok?)
  {
    var enabled := p.(status := 0);
    StepMeets(p, op);
    StepMeets(enabled, op);
    StatusVerdict(p, enabled, op);
  }

  /** Two pools that differ in their status alone. */
  ghost predicate Alike(p: Pool, q: Pool) {
    p == q.(status := p.status)
  }

  lemma SettleAlike(p: Pool, q: Pool, a: SwapAccounts, sendIn: u64, arrived: u64)
    requires Sound(p) && Sound(q) && Alike(p, q)
    ensures SettleVerdict(p, a, sendIn, arrived) == SettleVerdict(q, a, sendIn, arrived)
  {
  }

  lemma CurveOutAlike(p: Pool, q: Pool, a: SwapAccounts, arrived: u64)
    requires Sound(p) && Sound(q) && Alike(p, q)
    ensures CurveOut(p, a, arrived) == CurveOut(q, a, arrived)
  {
  }

  lemma SwapInputAlike(p: Pool, q: Pool, a: SwapAccounts, amountIn: u64, minimumOut: u64)
    requires Sound(p) && Sound(q) && Alike(p, q) && q.status / 4 % 2 == 0
    ensures SwapInputVerdict(p, a, amountIn, minimumOut)
         == if p.status / 4 % 2 == 1 then Refuse(NotApproved) else SwapInputVerdict(q, a, amountIn, minimumOut)
  {
    var arrived := Delivered(a.inputMint, amountIn);
    CurveOutAlike(p, q, a, arrived);
    SettleAlike(p, q, a, amountIn, arrived);
    InputQuoteAlike(p, q, a, arrived, minimumOut, CurveOut(p, a, arrived));
  }

  lemma InputQuoteAlike(p: Pool, q: Pool, a: SwapAccounts, arrived: u64, minimumOut: u64, out: u64)
    requires Sound(p) && Sound(q) && Alike(p, q) && q.status / 4 % 2 == 0
    requires out == CurveOut(p, a, arrived) == CurveOut(q, a, arrived)
    ensures InputQuoteVerdict(p, a, arrived, minimumOut)
         == if p.status / 4 % 2 == 1 then Refuse(NotApproved) else InputQuoteVerdict(q, a, arrived, minimumOut)
  {
  }

  lemma PriceAlike(p: Pool, q: Pool, a: SwapAccounts, maximumIn: u64, dy: u64)
    requires Sound(p) && Sound(q) && Alike(p, q)
    ensures PriceVerdict(p, a, maximumIn, dy) == PriceVerdict(q, a, maximumIn, dy)
    ensures dy < ReserveOf(p.Get(a.outputVault)) ==> CurveIn(p, a, dy) == CurveIn(q, a, dy)
  {
  }

  lemma SwapOutputAlike(p: Pool, q: Pool, a: SwapAccounts, maximumIn: u64, amountOut: u64)
    requires Sound(p) && Sound(q) && Alike(p, q) && q.status / 4 % 2 == 0
    ensures SwapOutputVerdict(p, a, maximumIn, amountOut)
         == if amountOut > 0 && p.status / 4 % 2 == 1 then Refuse(NotApproved)
            else SwapOutputVerdict(q, a, maximumIn, amountOut)
  {
    if OutputQuoteVerdict(q, a, maximumIn, amountOut).Accept? {
      var dy := AmountToSend(a.outputMint, amountOut).value;
      PriceAlike(p, q, a, maximumIn, dy);
      var price := CurveIn(q, a, dy);
      SettleAlike(p, q, a, AmountToSend(a.inputMint, price).value, price);
    } else if AmountToSend(a.outputMint, amountOut).Ok? {
      PriceAlike(p, q, a, maximumIn, AmountToSend(a.outputMint, amountOut).value);
    }
  }

  lemma LiquidityAlike(p: Pool, q: Pool, op: Op)
    requires Sound(p) && Sound(q) && Alike(p, q) && q.status == 0 && (op.OpDeposit? || op.OpWithdraw?)
    ensures op.OpDeposit? ==>
              StepVerdict(p, op) == if op.lp > 0 && p.status % 2 == 1 then Refuse(NotApproved) else StepVerdict(q, op)
    ensures op.OpWithdraw? ==>
              StepVerdict(p, op) == if op.lp > 0 && p.lpMintSupply > 0 && p.status / 2 % 2 == 1
              then Refuse(NotApproved) else StepVerdict(q, op)
  {
  }

  lemma StatusVerdict(p: Pool, q: Pool, op: Op)
    requires Sound(p) && Sound(q) && Alike(p, q) && q.status == 0
    ensures p.status == 1 ==>
              StepVerdict(p, op) == if op.OpDeposit? && op.lp > 0 then Refuse(NotApproved) else StepVerdict(q, op)
    ensures p.status == 2 ==>
              StepVerdict(p, op) == if op.OpWithdraw? && op.lp > 0 && p.lpMintSupply > 0 then Refuse(NotApproved)
              else StepVerdict(q, op)
    ensures p.status == 4 ==>
              StepVerdict(p, op) == if op.OpSwapInput? || (op.OpSwapOutput? && op.amountOut > 0)
              then Refuse(NotApproved) else StepVerdict(q, op)
  {
    match op
    case OpSwapInput(a, amountIn, minimumOut) => SwapInputAlike(p, q, a, amountIn, minimumOut);
    case OpSwapOutput(a, maximumIn, amountOut) => SwapOutputAlike(p, q, a, maximumIn, amountOut);
    case OpDeposit(_, _, _, _) => LiquidityAlike(p, q, op);
    case OpWithdraw(_, _, _, _) => LiquidityAlike(p, q, op);
    case _ =>
  }
}
