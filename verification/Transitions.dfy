/** Every instruction as a function from a pool to its outcome or the error that aborts the
    transaction.  The checks stand in the order of the handlers. */
module Transitions {
  import opened Checked
  import opened Rounding
  import opened Tokens
  import opened ConstantProduct
  import opened Calculator
  import opened Oracle
  import opened Pools
  import Math
  import Fees

  // ---------- Configuration ----------

  function CreateAmmConfig(rates: Rates, createPoolFee: u64, owner: nat): Result<Config> {
    if rates.Valid() then Ok(Config(rates, createPoolFee, false, owner, owner)) else Err(Panic)
  }

  /** account is the first of the remaining accounts, if there is one. */
  function UpdateAmmConfig(c: Config, param: u8, value: u64, account: Option<nat>): Result<Config> {
    if param == 0 then
      if value < Fees.FEE_RATE_DENOMINATOR then Ok(c.(rates := c.rates.(trade := value))) else Err(Panic)
    else if param == 1 then
      if value <= Fees.FEE_RATE_DENOMINATOR && value + c.rates.fund <= Fees.FEE_RATE_DENOMINATOR
      then Ok(c.(rates := c.rates.(protocol := value)))
      else Err(Panic)
    else if param == 2 then
      if value <= Fees.FEE_RATE_DENOMINATOR && value + c.rates.protocol <= Fees.FEE_RATE_DENOMINATOR
      then Ok(c.(rates := c.rates.(fund := value)))
      else Err(Panic)
    else if param == 3 || param == 4 then
      if account.None? then Err(Panic)
      else if account.value == 0 then Err(RequireKeysNeqViolated)
      else if param == 3 then Ok(c.(protocolOwner := account.value))
      else Ok(c.(fundOwner := account.value))
    else if param == 5 then Ok(c.(createPoolFee := value))
    else if param == 6 then Ok(c.(disableCreatePool := value != 0))
    else Err(InvalidInput)
  }

  /** A receipt that moves nothing but users' tokens. */
  function UserReceipt(paid: Amounts, received: Amounts, withheld: Amounts): Receipt {
    NOTHING.(users := Flow(paid, received, withheld))
  }

  // ---------- Creation ----------

  datatype InitializeAccounts = InitializeAccounts(
    supported: bool, now: u64, mint0: Mint, mint1: Mint, funds0: u64, funds1: u64)

  const LOCKED_LP: u64 := 100

  /** An opening time that has passed is moved to the next second. */
  function OpeningTime(now: u64, openTime: u64): Result<u64> {
    if openTime <= now then AddU64(now, 1) else Ok(openTime)
  }

  /** The new vaults after the creator's two transfers; neither may stay empty. */
  function FilledVaults(a: InitializeAccounts, amount0: u64, amount1: u64): (r: Result<(u64, u64)>)
    ensures r.Ok? ==> 0 < r.value.0 <= amount0 && 0 < r.value.1 <= amount1
  {
    var vault0 :- TransferFromUser(a.mint0, a.funds0, 0, amount0);
    var vault1 :- TransferFromUser(a.mint1, a.funds1, 0, amount1);
    :- ValidateSupply(vault0, vault1);
    Ok((vault0, vault1))
  }

  /** The first supply of pool tokens. */
  function LiquidityOf(vault0: u64, vault1: u64): Result<u64> {
    ToU64(Math.Sqrt(Times(vault0, vault1)))
  }

  /** What a creation that passes its checks sets: the opening time, the vaults and the supply. */
  datatype Creation = Creation(opens: u64, vault0: u64, vault1: u64, liquidity: u64)

  function QuoteInitialize(config: Config, a: InitializeAccounts, amount0: u64, amount1: u64, openTime: u64)
    : Result<Creation>
  {
    if !a.supported then Err(NotSupportMint)
    else
      :- Require(!config.disableCreatePool, NotApproved);
      var opens :- OpeningTime(a.now, openTime);
      var vaults :- FilledVaults(a, amount0, amount1);
      var liquidity :- LiquidityOf(vaults.0, vaults.1);
      :- Require(liquidity >= LOCKED_LP, InitLpAmountTooLess);
      Ok(Creation(opens, vaults.0, vaults.1, liquidity))
  }

  function Initialize(config: Config, a: InitializeAccounts, amount0: u64, amount1: u64, openTime: u64)
    : Result<Outcome>
  {
    var c :- QuoteInitialize(config, a, amount0, amount1, openTime);
    Ok(Outcome(Pool(Side(c.vault0, 0, 0), Side(c.vault1, 0, 0), c.liquidity, c.liquidity - LOCKED_LP, 0, c.opens,
                    config, EmptyRing()),
               UserReceipt(Amounts(amount0, amount1), ZERO, Amounts(amount0 - c.vault0, amount1 - c.vault1)),
               None))
  }

  // ---------- Swaps ----------

  datatype SwapAccounts = SwapAccounts(
    inputVault: Token, outputVault: Token, now: u64, inputMint: Mint, outputMint: Mint, funds: u64)

  /** What a swap reads from the pool before it computes anything. */
  datatype Reserves = Reserves(x: u64, y: u64, price0: u128, price1: u128, constant: u128)

  function ReadReserves(p: Pool, a: SwapAccounts): Result<Reserves> {
    if a.inputVault == a.outputVault then Err(InvalidVault)
    else
      var reserve0 :- p.side0.AmountWithoutFee();
      var reserve1 :- p.side1.AmountWithoutFee();
      var prices :- TokenPriceX32(reserve0, reserve1);
      var constant :- CheckedMul(reserve0, reserve1).Unwrap();
      Ok(if a.inputVault == Token0
         then Reserves(reserve0, reserve1, prices.0, prices.1, constant)
         else Reserves(reserve1, reserve0, prices.0, prices.1, constant))
  }

  /** A priced swap that passed its own checks and waits to be settled. */
  datatype Quote = Quote(
    reserves: Reserves, result: SwapResult, constantAfter: u128, sendIn: u64, sendOut: u64)

  /** What the curve answered: asked is the input that arrives or the output that leaves. */
  datatype Answer = Answer(asked: u64, reserves: Reserves, result: SwapResult)

  function AskInput(p: Pool, a: SwapAccounts, amountIn: u64): Result<Answer> {
    if !p.Enabled(SwapFeature) || a.now < p.openTime then Err(NotApproved)
    else
      var actualIn := SaturatingSub(amountIn, TransferFee(a.inputMint, amountIn));
      :- Require(actualIn > 0, RequireGtViolated);
      var reserves :- ReadReserves(p, a);
      var result :- SwapBaseInput(actualIn, reserves.x, reserves.y, p.config.rates).OkOr(ZeroTradingTokens);
      Ok(Answer(actualIn, reserves, result))
  }

  function AcceptInput(a: SwapAccounts, amountIn: u64, minimumOut: u64, answer: Answer): Result<Quote> {
    var result := answer.result;
    var after :- ConstantAfter(result);
    var swapped :- ToU64(result.sourceSwapped);
    :- Require(swapped == answer.asked, RequireEqViolated);
    var amountOut :- ToU64(result.destinationSwapped);
    :- Require(Delivered(a.outputMint, amountOut) > 0, RequireGtViolated);
    :- Require(Delivered(a.outputMint, amountOut) >= minimumOut, ExceededSlippage);
    Ok(Quote(answer.reserves, result, after, amountIn, amountOut))
  }

  function QuoteInput(p: Pool, a: SwapAccounts, amountIn: u64, minimumOut: u64): Result<Quote> {
    var answer :- AskInput(p, a, amountIn);
    AcceptInput(a, amountIn, minimumOut, answer)
  }

  function AskOutput(p: Pool, a: SwapAccounts, amountOut: u64): Result<Answer> {
    if amountOut == 0 then Err(RequireGtViolated)
    else
      :- Require(p.Enabled(SwapFeature) && a.now >= p.openTime, NotApproved);
      var actualOut :- AmountToSend(a.outputMint, amountOut);
      var reserves :- ReadReserves(p, a);
      var result :- SwapBaseOutput(actualOut, reserves.x, reserves.y, p.config.rates).OkOr(ZeroTradingTokens);
      Ok(Answer(actualOut, reserves, result))
  }

  function AcceptOutput(a: SwapAccounts, maximumIn: u64, answer: Answer): Result<Quote> {
    var result := answer.result;
    var after :- ConstantAfter(result);
    var source :- ToU64(result.sourceSwapped);
    :- Require(source > 0, RequireGtViolated);
    var sendIn :- AmountToSend(a.inputMint, source);
    :- Require(maximumIn >= sendIn, ExceededSlippage);
    var destination :- ToU64(result.destinationSwapped);
    :- Require(destination == answer.asked, RequireEqViolated);
    Ok(Quote(answer.reserves, result, after, sendIn, answer.asked))
  }

  function QuoteOutput(p: Pool, a: SwapAccounts, maximumIn: u64, amountOut: u64): Result<Quote> {
    var answer :- AskOutput(p, a, amountOut);
    AcceptOutput(a, maximumIn, answer)
  }

  /** The input side after it accrues the fee shares and receives the input. */
  function ReceiveInput(side: Side, a: SwapAccounts, q: Quote): Result<Side> {
    var protocolFee :- ToU64(q.result.protocolFee);
    var fundFee :- ToU64(q.result.fundFee);
    var protocolFees :- AddU64(side.protocolFees, protocolFee);
    var fundFees :- AddU64(side.fundFees, fundFee);
    :- Require(q.constantAfter >= q.reserves.constant, RequireGteViolated);
    var vault :- TransferFromUser(a.inputMint, a.funds, side.vault, q.sendIn);
    Ok(Side(vault, protocolFees, fundFees))
  }

  /** The second half of both swap handlers: accrue the fees, compare the constants, move the
      tokens, and record the price from before the swap. */
  function Settle(p: Pool, a: SwapAccounts, q: Quote): Result<Outcome> {
    var source :- ReceiveInput(p.Get(a.inputVault), a, q);
    var vaultOut :- TransferToUser(p.Get(a.outputVault).vault, q.sendOut);
    var ring :- Updated(p.ring, a.now, q.reserves.price0, q.reserves.price1);
    Ok(Outcome(p.Put(a.inputVault, source, p.Get(a.outputVault).(vault := vaultOut)).(ring := ring),
               SwapReceipt(a, q),
               Some(Tick(a.now, q.reserves.price0, q.reserves.price1))))
  }

  function SwapReceipt(a: SwapAccounts, q: Quote): Receipt {
    TradeReceipt(a.inputVault,
                 q.sendIn, TransferFee(a.inputMint, q.sendIn),
                 q.sendOut, TransferFee(a.outputMint, q.sendOut),
                 q.result.protocolFee, q.result.fundFee)
  }

  function TradeReceipt(t: Token, sendIn: nat, inFee: nat, sendOut: nat, outFee: nat, protocolFee: nat, fundFee: nat)
    : Receipt
    requires outFee <= sendOut
  {
    Receipt(Flow(Pair(t, sendIn, 0), Pair(t, 0, sendOut - outFee), Pair(t, inFee, outFee)),
            Buckets(Pair(t, protocolFee, 0), Pair(t, fundFee, 0)),
            NO_FEES)
  }

  function SwapInput(p: Pool, a: SwapAccounts, amountIn: u64, minimumOut: u64): Result<Outcome> {
    var q :- QuoteInput(p, a, amountIn, minimumOut);
    Settle(p, a, q)
  }

  function SwapOutput(p: Pool, a: SwapAccounts, maximumIn: u64, amountOut: u64): Result<Outcome> {
    var q :- QuoteOutput(p, a, maximumIn, amountOut);
    Settle(p, a, q)
  }

  // ---------- Liquidity ----------

  datatype DepositAccounts = DepositAccounts(mint0: Mint, mint1: Mint, funds0: u64, funds1: u64)

  /** What leaves the sender's account per token. */
  datatype Terms = Terms(amount0: u64, amount1: u64)

  /** The reserves, and the nonzero shares of them that pool tokens stand for. */
  datatype Shares = Shares(reserve0: u64, reserve1: u64, tokens: TradingTokens)

  function SharesOf(p: Pool, lp: u64, direction: RoundDirection): Result<Shares> {
    var reserve0 :- p.side0.AmountWithoutFee();
    var reserve1 :- p.side1.AmountWithoutFee();
    var tokens :- TradingTokensFor(lp, p.lpSupply, reserve0, reserve1, direction).OkOr(ZeroTradingTokens);
    :- Require(tokens.token0 != 0 && tokens.token1 != 0, ZeroTradingTokens);
    Ok(Shares(reserve0, reserve1, tokens))
  }

  function QuoteDeposit(p: Pool, a: DepositAccounts, lp: u64, maximum0: u64, maximum1: u64): Result<Terms> {
    if lp == 0 then Err(RequireGtViolated)
    else
      :- Require(p.Enabled(DepositFeature), NotApproved);
      var shares :- SharesOf(p, lp, RoundUp);
      DepositOf(a, shares.tokens, maximum0, maximum1)
  }

  /** What to send so that the shares arrive, within the limits. */
  function DepositOf(a: DepositAccounts, tokens: TradingTokens, maximum0: u64, maximum1: u64): Result<Terms> {
    var amount0 :- ToU64(tokens.token0);
    var send0 :- AmountToSend(a.mint0, amount0);
    var amount1 :- ToU64(tokens.token1);
    var send1 :- AmountToSend(a.mint1, amount1);
    :- Require(send0 <= maximum0 && send1 <= maximum1, ExceededSlippage);
    Ok(Terms(send0, send1))
  }

  function Deposit(p: Pool, a: DepositAccounts, lp: u64, maximum0: u64, maximum1: u64): Result<Outcome> {
    var terms :- QuoteDeposit(p, a, lp, maximum0, maximum1);
    TakeDeposit(p, a, lp, terms)
  }

  /** The second half of a deposit: move the tokens, mint the pool tokens. */
  function TakeDeposit(p: Pool, a: DepositAccounts, lp: u64, terms: Terms): Result<Outcome> {
    var vault0 :- TransferFromUser(a.mint0, a.funds0, p.side0.vault, terms.amount0);
    var vault1 :- TransferFromUser(a.mint1, a.funds1, p.side1.vault, terms.amount1);
    var lpSupply :- AddU64(p.lpSupply, lp);
    var lpMintSupply :- MintTo(p.lpMintSupply, lp);
    Ok(Outcome(p.(side0 := p.side0.(vault := vault0), side1 := p.side1.(vault := vault1),
               lpSupply := lpSupply, lpMintSupply := lpMintSupply),
               UserReceipt(Amounts(terms.amount0, terms.amount1), ZERO,
                           Amounts(TransferFee(a.mint0, terms.amount0), TransferFee(a.mint1, terms.amount1))),
               None))
  }

  /** ownerLp is the balance of the pool-token account that the burn is charged to. */
  datatype WithdrawAccounts = WithdrawAccounts(mint0: Mint, mint1: Mint, ownerLp: u64)

  function QuoteWithdraw(p: Pool, a: WithdrawAccounts, lp: u64, minimum0: u64, minimum1: u64): Result<Terms> {
    if lp == 0 then Err(RequireGtViolated)
    else
      :- Require(p.lpMintSupply > 0, RequireGtViolated);
      :- Require(p.Enabled(WithdrawFeature), NotApproved);
      var shares :- SharesOf(p, lp, RoundDown);
      WithdrawalOf(a, shares, minimum0, minimum1)
  }

  /** The shares, clamped to the reserves, if enough of them arrives. */
  function WithdrawalOf(a: WithdrawAccounts, shares: Shares, minimum0: u64, minimum1: u64): Result<Terms> {
    var token0 :- ToU64(shares.tokens.token0);
    var amount0: u64 := Min(shares.reserve0, token0);
    var token1 :- ToU64(shares.tokens.token1);
    var amount1: u64 := Min(shares.reserve1, token1);
    :- Require(Delivered(a.mint0, amount0) >= minimum0 && Delivered(a.mint1, amount1) >= minimum1, ExceededSlippage);
    Ok(Terms(amount0, amount1))
  }

  function Withdraw(p: Pool, a: WithdrawAccounts, lp: u64, minimum0: u64, minimum1: u64): Result<Outcome> {
    var terms :- QuoteWithdraw(p, a, lp, minimum0, minimum1);
    PayWithdrawal(p, a, lp, terms)
  }

  /** The second half of a withdrawal: burn the pool tokens, move the tokens. */
  function PayWithdrawal(p: Pool, a: WithdrawAccounts, lp: u64, terms: Terms): Result<Outcome> {
    var lpSupply :- ToU64(p.lpSupply - lp);
    var lpMintSupply :- Burn(a.ownerLp, p.lpMintSupply, lp);
    var vault0 :- TransferToUser(p.side0.vault, terms.amount0);
    var vault1 :- TransferToUser(p.side1.vault, terms.amount1);
    Ok(Outcome(p.(side0 := p.side0.(vault := vault0), side1 := p.side1.(vault := vault1),
               lpSupply := lpSupply, lpMintSupply := lpMintSupply),
               UserReceipt(ZERO, Amounts(Delivered(a.mint0, terms.amount0), Delivered(a.mint1, terms.amount1)),
                           Amounts(TransferFee(a.mint0, terms.amount0), TransferFee(a.mint1, terms.amount1))),
               None))
  }

  // ---------- Fee collection ----------

  function CollectProtocolFee(p: Pool, requested0: u64, requested1: u64): Result<Outcome> {
    var amount0: u64 := Min(requested0, p.side0.protocolFees);
    var amount1: u64 := Min(requested1, p.side1.protocolFees);
    var vault0 :- TransferToUser(p.side0.vault, amount0);
    var vault1 :- TransferToUser(p.side1.vault, amount1);
    Ok(Outcome(p.(side0 := Side(vault0, p.side0.protocolFees - amount0, p.side0.fundFees),
               side1 := Side(vault1, p.side1.protocolFees - amount1, p.side1.fundFees)),
               NOTHING.(collected := Buckets(Amounts(amount0, amount1), ZERO)),
               None))
  }

  function CollectFundFee(p: Pool, requested0: u64, requested1: u64): Result<Outcome> {
    var amount0: u64 := Min(requested0, p.side0.fundFees);
    var amount1: u64 := Min(requested1, p.side1.fundFees);
    var vault0 :- TransferToUser(p.side0.vault, amount0);
    var vault1 :- TransferToUser(p.side1.vault, amount1);
    Ok(Outcome(p.(side0 := Side(vault0, p.side0.protocolFees, p.side0.fundFees - amount0),
               side1 := Side(vault1, p.side1.protocolFees, p.side1.fundFees - amount1)),
               NOTHING.(collected := Buckets(ZERO, Amounts(amount0, amount1))),
               None))
  }

  // ---------- The environment ----------

  /** Anyone may send tokens into a vault. */
  function Donate(p: Pool, t: Token, mint: Mint, funds: u64, amount: u64): Result<Outcome> {
    var vault :- TransferFromUser(mint, funds, p.Get(t).vault, amount);
    Ok(Outcome(if t == Token0 then p.(side0 := p.side0.(vault := vault)) else p.(side1 := p.side1.(vault := vault)),
               UserReceipt(Pair(t, amount, 0), ZERO, Pair(t, TransferFee(mint, amount), 0)),
               None))
  }

  /** A holder may burn pool tokens outside the program, which leaves lpSupply as it is. */
  function BurnLp(p: Pool, balance: u64, amount: u64): Result<Outcome> {
    var lpMintSupply :- Burn(balance, p.lpMintSupply, amount);
    Ok(Outcome(p.(lpMintSupply := lpMintSupply), NOTHING, None))
  }

  // ---------- Steps ----------

  datatype Op =
    | OpSwapInput(swap: SwapAccounts, amountIn: u64, minimumOut: u64)
    | OpSwapOutput(swap: SwapAccounts, maximumIn: u64, amountOut: u64)
    | OpDeposit(deposit: DepositAccounts, lp: u64, maximum0: u64, maximum1: u64)
    | OpWithdraw(withdraw: WithdrawAccounts, lp: u64, minimum0: u64, minimum1: u64)
    | OpCollectProtocolFee(requested0: u64, requested1: u64)
    | OpCollectFundFee(requested0: u64, requested1: u64)
    | OpUpdateAmmConfig(param: u8, value: u64, account: Option<nat>)
    | OpUpdatePoolStatus(status: u8)
    | OpDonate(token: Token, mint: Mint, funds: u64, amount: u64)
    | OpBurnLp(balance: u64, amount: u64)

  function Step(p: Pool, op: Op): Result<Outcome> {
    match op
    case OpSwapInput(a, amountIn, minimumOut) => SwapInput(p, a, amountIn, minimumOut)
    case OpSwapOutput(a, maximumIn, amountOut) => SwapOutput(p, a, maximumIn, amountOut)
    case OpDeposit(a, lp, maximum0, maximum1) => Deposit(p, a, lp, maximum0, maximum1)
    case OpWithdraw(a, lp, minimum0, minimum1) => Withdraw(p, a, lp, minimum0, minimum1)
    case OpCollectProtocolFee(requested0, requested1) => CollectProtocolFee(p, requested0, requested1)
    case OpCollectFundFee(requested0, requested1) => CollectFundFee(p, requested0, requested1)
    case OpUpdateAmmConfig(param, value, account) =>
      var config :- UpdateAmmConfig(p.config, param, value, account);
      Ok(Outcome(p.(config := config), NOTHING, None))
    case OpUpdatePoolStatus(status) => Ok(Outcome(p.(status := status), NOTHING, None))
    case OpDonate(t, mint, funds, amount) => Donate(p, t, mint, funds, amount)
    case OpBurnLp(balance, amount) => BurnLp(p, balance, amount)
  }
}
