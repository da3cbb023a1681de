/** The program's accounts as objects, its handlers as methods that update them in place, and the
    runtime's transaction around a handler. */
module Program {
  import opened Checked
  import opened Rounding
  import opened Tokens
  import opened ConstantProduct
  import opened Calculator
  import opened Oracle
  import opened Pools
  import opened Transitions
  import opened Runs
  import Math
  import Fees

  class AmmConfig {
    var tradeFeeRate: u64
    var protocolFeeRate: u64
    var fundFeeRate: u64
    var createPoolFee: u64
    var disableCreatePool: bool
    var protocolOwner: nat
    var fundOwner: nat

    ghost function Value(): Config
      reads this
    {
      Config(Rates(tradeFeeRate, protocolFeeRate, fundFeeRate), createPoolFee, disableCreatePool,
             protocolOwner, fundOwner)
    }

    /** New account data is zero. */
    constructor ()
    {
      tradeFeeRate, protocolFeeRate, fundFeeRate, createPoolFee := 0, 0, 0, 0;
      disableCreatePool, protocolOwner, fundOwner := false, 0, 0;
    }

    method Create(rates: Rates, fee: u64, owner: nat) returns (r: Result<()>)
      modifies this
      ensures match CreateAmmConfig(rates, fee, owner)
              case Ok(c) => r == Ok(()) && Value() == c
              case Err(e) => r == Err(e)
      ensures r.Ok? <==> rates.trade < 1_000_000 && rates.protocol + rates.fund <= 1_000_000
      ensures r.Ok? ==>
                && tradeFeeRate == rates.trade && protocolFeeRate == rates.protocol && fundFeeRate == rates.fund
                && createPoolFee == fee && !disableCreatePool
                && protocolOwner == fundOwner == owner
    {
      if rates.trade >= Fees.FEE_RATE_DENOMINATOR {
        return Err(Panic);
      }
      :- Require(rates.protocol <= Fees.FEE_RATE_DENOMINATOR, Panic);
      :- Require(rates.fund <= Fees.FEE_RATE_DENOMINATOR, Panic);
      :- Require(rates.fund + rates.protocol <= Fees.FEE_RATE_DENOMINATOR, Panic);
      protocolOwner := owner;
      disableCreatePool := false;
      tradeFeeRate, protocolFeeRate, fundFeeRate := rates.trade, rates.protocol, rates.fund;
      createPoolFee := fee;
      fundOwner := owner;
      return Ok(());
    }

    method UpdateTradeFeeRate(rate: u64) returns (r: Check)
      modifies this`tradeFeeRate
      ensures r == if rate < 1_000_000 then Pass else Fail(Panic)
      ensures tradeFeeRate == if r.Pass? then rate else old(tradeFeeRate)
    {
      if rate >= Fees.FEE_RATE_DENOMINATOR {
        return Fail(Panic);
      }
      tradeFeeRate := rate;
      return Pass;
    }

    method UpdateProtocolFeeRate(rate: u64) returns (r: Check)
      modifies this`protocolFeeRate
      ensures r == if rate + fundFeeRate <= 1_000_000 then Pass else Fail(Panic)
      ensures protocolFeeRate == if r.Pass? then rate else old(protocolFeeRate)
    {
      if rate > Fees.FEE_RATE_DENOMINATOR || rate + fundFeeRate > Fees.FEE_RATE_DENOMINATOR {
        return Fail(Panic);
      }
      protocolFeeRate := rate;
      return Pass;
    }

    method UpdateFundFeeRate(rate: u64) returns (r: Check)
      modifies this`fundFeeRate
      ensures r == if rate + protocolFeeRate <= 1_000_000 then Pass else Fail(Panic)
      ensures fundFeeRate == if r.Pass? then rate else old(fundFeeRate)
    {
      if rate > Fees.FEE_RATE_DENOMINATOR || rate + protocolFeeRate > Fees.FEE_RATE_DENOMINATOR {
        return Fail(Panic);
      }
      fundFeeRate := rate;
      return Pass;
    }

    method Update(param: u8, value: u64, account: Option<nat>) returns (r: Result<()>)
      modifies this
      ensures match UpdateAmmConfig(old(Value()), param, value, account)
              case Ok(c) => r == Ok(()) && Value() == c
              case Err(e) => r == Err(e) && Value() == old(Value())
      ensures r.Ok? <==>
              || (param == 0 && value < 1_000_000)
              || (param == 1 && value + old(fundFeeRate) <= 1_000_000)
              || (param == 2 && value + old(protocolFeeRate) <= 1_000_000)
              || (3 <= param <= 4 && account.Some? && account.value != 0)
              || 5 <= param <= 6
      ensures tradeFeeRate == if r.Ok? && param == 0 then value else old(tradeFeeRate)
      ensures protocolFeeRate == if r.Ok? && param == 1 then value else old(protocolFeeRate)
      ensures fundFeeRate == if r.Ok? && param == 2 then value else old(fundFeeRate)
      ensures protocolOwner == if r.Ok? && param == 3 then account.value else old(protocolOwner)
      ensures fundOwner == if r.Ok? && param == 4 then account.value else old(fundOwner)
      ensures createPoolFee == if r.Ok? && param == 5 then value else old(createPoolFee)
      ensures disableCreatePool == if r.Ok? && param == 6 then value != 0 else old(disableCreatePool)
    {
      match param {
        case 0 => :- UpdateTradeFeeRate(value);
        case 1 => :- UpdateProtocolFeeRate(value);
        case 2 => :- UpdateFundFeeRate(value);
        case 3 =>
          if account.None? {
            return Err(Panic);
          }
          :- Require(account.value != 0, RequireKeysNeqViolated);
          protocolOwner := account.value;
        case 4 =>
          if account.None? {
            return Err(Panic);
          }
          :- Require(account.value != 0, RequireKeysNeqViolated);
          fundOwner := account.value;
        case 5 => createPoolFee := value;
        case 6 => disableCreatePool := value != 0;
        case _ => return Err(InvalidInput);
      }
      return Ok(());
    }
  }

  /** The pool's own fields as a value. */
  datatype Fields = Fields(side0: Side, side1: Side, lpSupply: u64, lpMintSupply: u64, status: u8, openTime: u64) {
    function ToPool(config: Config, ring: Ring): Pool {
      Pool(side0, side1, lpSupply, lpMintSupply, status, openTime, config, ring)
    }
  }

  /** The pool account together with the token accounts and the mint that belong to it. */
  class PoolState {
    const config: AmmConfig
    const oracle: ObservationState

    var vault0: u64
    var vault1: u64
    var lpMintSupply: u64

    var status: u8
    var lpSupply: u64
    var protocolFees0: u64
    var protocolFees1: u64
    var fundFees0: u64
    var fundFees1: u64
    var openTime: u64

    /** Everything moved by committed transactions. */
    ghost var ledger: Receipt

    ghost predicate Valid()
      reads this, oracle, oracle.observations
    {
      oracle.Valid()
    }

    function Side0(): Side
      reads this
    {
      Side(vault0, protocolFees0, fundFees0)
    }

    function Side1(): Side
      reads this
    {
      Side(vault1, protocolFees1, fundFees1)
    }

    function Save(): Fields
      reads this
    {
      Fields(Side0(), Side1(), lpSupply, lpMintSupply, status, openTime)
    }

    ghost function Value(): Pool
      requires oracle.observations.Length == OBSERVATION_NUM
      reads this, config, oracle, oracle.observations
    {
      Save().ToPool(config.Value(), oracle.Value())
    }

    ghost function History(): World
      requires oracle.observations.Length == OBSERVATION_NUM
      reads this, config, oracle, oracle.observations
    {
      World(Value(), ledger, oracle.log)
    }

    /** New accounts hold nothing. */
    constructor (config: AmmConfig, oracle: ObservationState)
      requires oracle.Valid()
      ensures Valid() && this.config == config && this.oracle == oracle
      ensures vault0 == vault1 == lpMintSupply == 0 && status == 0 && ledger == NOTHING
    {
      this.config, this.oracle := config, oracle;
      vault0, vault1, lpMintSupply, status, lpSupply := 0, 0, 0, 0, 0;
      protocolFees0, protocolFees1, fundFees0, fundFees1, openTime := 0, 0, 0, 0, 0;
      ledger := NOTHING;
    }

    /** Fills the vaults, mints the pool tokens and sets the pool's fields, on new accounts. */
    method Initialize(a: InitializeAccounts, amount0: u64, amount1: u64, openTime: u64) returns (r: Result<Receipt>)
      requires Valid() && oracle.Value() == EmptyRing()
      requires vault0 == vault1 == lpMintSupply == 0 && status == 0
      modifies this
      ensures Valid()
      ensures match Transitions.Initialize(config.Value(), a, amount0, amount1, openTime)
              case Ok(o) => r == Ok(o.receipt) && Value() == o.pool && ledger == o.receipt
              case Err(e) => r == Err(e)
    {
      if !a.supported {
        return Err(NotSupportMint);
      }
      :- Require(!config.disableCreatePool, NotApproved);
      var opens := openTime;
      if openTime <= a.now {
        opens :- AddU64(a.now, 1);
      }
      var filled := Fill(a, amount0, amount1);
      if filled.Err? {
        return Err(filled.error);
      }
      var liquidity := InitialLiquidity(vault0, vault1);
      :- Require(liquidity >= LOCKED_LP, InitLpAmountTooLess);
      lpMintSupply := liquidity - LOCKED_LP;
      SetNew(liquidity, opens);
      r := Ok(UserReceipt(Amounts(amount0, amount1), ZERO, Amounts(amount0 - vault0, amount1 - vault1)));
      ledger := r.value;
    }

    /** Sets the fields of a new pool account. */
    method SetNew(supply: u64, opens: u64)
      modifies this
      ensures Save() == Fields(Side(old(vault0), 0, 0), Side(old(vault1), 0, 0),
                               supply, old(lpMintSupply), old(status), opens)
      ensures ledger == old(ledger)
    {
      lpSupply := supply;
      protocolFees0, protocolFees1, fundFees0, fundFees1 := 0, 0, 0, 0;
      openTime := opens;
    }

    /** The creator's transfers into the new vaults. */
    method Fill(a: InitializeAccounts, amount0: u64, amount1: u64) returns (r: Result<()>)
      requires vault0 == vault1 == 0
      modifies this`vault0, this`vault1
      ensures match FilledVaults(a, amount0, amount1)
              case Ok(vaults) => r == Ok(()) && vault0 == vaults.0 && vault1 == vaults.1
              case Err(e) => r == Err(e)
    {
      vault0 :- TransferFromUser(a.mint0, a.funds0, vault0, amount0);
      vault1 :- TransferFromUser(a.mint1, a.funds1, vault1, amount1);
      :- ValidateSupply(vault0, vault1);
      return Ok(());
    }

    /** The floor of the square root of the product of the vaults; it always fits. */
    static method InitialLiquidity(amount0: u64, amount1: u64) returns (liquidity: u64)
      ensures LiquidityOf(amount0, amount1) == Ok(liquidity)
    {
      ProductFits(amount0, amount1);
      TimesIs(amount0, amount1);
      Math.SqrtLargest(Times(amount0, amount1), U64_MAX + 1);
      liquidity := Math.IntegerSqrt(amount0 * amount1);
    }

    // ---------- Swaps ----------

    method SwapBaseInput(a: SwapAccounts, amountIn: u64, minimumOut: u64) returns (r: Result<Receipt>)
      requires Valid()
      modifies this, oracle, oracle.observations
      ensures Valid() && ledger == old(ledger)
      ensures match SwapInput(old(Value()), a, amountIn, minimumOut)
              case Ok(o) =>
                && r == Ok(o.receipt) && Value() == o.pool
                && oracle.log == Appended(old(oracle.log), o.tick.value)
              case Err(e) => r == Err(e) && oracle.Value() == old(oracle.Value()) && oracle.log == old(oracle.log)
    {
      var quote := PriceInput(a, amountIn, minimumOut);
      if quote.Err? {
        return Err(quote.error);
      }
      r := Move(a, quote.value);
    }

    method SwapBaseOutput(a: SwapAccounts, maximumIn: u64, amountOutLessFee: u64) returns (r: Result<Receipt>)
      requires Valid()
      modifies this, oracle, oracle.observations
      ensures Valid() && ledger == old(ledger)
      ensures match SwapOutput(old(Value()), a, maximumIn, amountOutLessFee)
              case Ok(o) =>
                && r == Ok(o.receipt) && Value() == o.pool
                && oracle.log == Appended(old(oracle.log), o.tick.value)
              case Err(e) => r == Err(e) && oracle.Value() == old(oracle.Value()) && oracle.log == old(oracle.log)
    {
      var quote := PriceOutput(a, maximumIn, amountOutLessFee);
      if quote.Err? {
        return Err(quote.error);
      }
      r := Move(a, quote.value);
    }

    /** The first half of the exact-input handler.  The handler's equality check on the swapped
        amount holds by construction of the result, so it is not repeated here. */
    method PriceInput(a: SwapAccounts, amountIn: u64, minimumOut: u64) returns (r: Result<Quote>)
      requires Valid()
      ensures r == QuoteInput(Value(), a, amountIn, minimumOut)
    {
      if !StatusBitClear(status, SwapFeature) || a.now < openTime {
        return Err(NotApproved);
      }
      var actualIn := SaturatingSub(amountIn, TransferFee(a.inputMint, amountIn));
      :- Require(actualIn > 0, RequireGtViolated);
      var reserves :- ReadPool(a);
      var rates := Rates(config.tradeFeeRate, config.protocolFeeRate, config.fundFeeRate);
      var result :- Calculator.SwapBaseInput(actualIn, reserves.x, reserves.y, rates).OkOr(ZeroTradingTokens);
      var after :- ConstantAfter(result);
      var amountOut :- ToU64(result.destinationSwapped);
      :- Require(Delivered(a.outputMint, amountOut) > 0, RequireGtViolated);
      :- Require(Delivered(a.outputMint, amountOut) >= minimumOut, ExceededSlippage);
      return Ok(Quote(reserves, result, after, amountIn, amountOut));
    }

    /** The first half of the exact-output handler, likewise without its equality check. */
    method PriceOutput(a: SwapAccounts, maximumIn: u64, amountOutLessFee: u64) returns (r: Result<Quote>)
      requires Valid()
      ensures r == QuoteOutput(Value(), a, maximumIn, amountOutLessFee)
    {
      if amountOutLessFee == 0 {
        return Err(RequireGtViolated);
      }
      if !StatusBitClear(status, SwapFeature) || a.now < openTime {
        return Err(NotApproved);
      }
      var outFee :- TransferInverseFee(a.outputMint, amountOutLessFee);
      var actualOut :- AddU64(amountOutLessFee, outFee);
      var reserves :- ReadPool(a);
      var rates := Rates(config.tradeFeeRate, config.protocolFeeRate, config.fundFeeRate);
      var result :- Calculator.SwapBaseOutput(actualOut, reserves.x, reserves.y, rates).OkOr(ZeroTradingTokens);
      var after :- ConstantAfter(result);
      var source :- ToU64(result.sourceSwapped);
      :- Require(source > 0, RequireGtViolated);
      var inFee :- TransferInverseFee(a.inputMint, source);
      var sendIn :- AddU64(source, inFee);
      :- Require(maximumIn >= sendIn, ExceededSlippage);
      return Ok(Quote(reserves, result, after, sendIn, actualOut));
    }

    /** Checks the vaults and reads reserves, prices and the constant from before the swap. */
    method ReadPool(a: SwapAccounts) returns (r: Result<Reserves>)
      requires Valid()
      ensures r == ReadReserves(Value(), a)
    {
      if a.inputVault == a.outputVault {
        return Err(InvalidVault);
      }
      var reserve0 :- Side0().AmountWithoutFee();
      var reserve1 :- Side1().AmountWithoutFee();
      var prices :- TokenPriceX32(reserve0, reserve1);
      var constant :- CheckedMul(reserve0, reserve1).Unwrap();
      if a.inputVault == Token0 {
        return Ok(Reserves(reserve0, reserve1, prices.0, prices.1, constant));
      } else {
        return Ok(Reserves(reserve1, reserve0, prices.0, prices.1, constant));
      }
    }

    /** The second half of both swap handlers. */
    method Move(a: SwapAccounts, q: Quote) returns (r: Result<Receipt>)
      requires Valid() && a.inputVault != a.outputVault
      modifies this, oracle, oracle.observations
      ensures Valid() && ledger == old(ledger)
      ensures match Settle(old(Value()), a, q)
              case Ok(o) =>
                && r == Ok(o.receipt) && Value() == o.pool
                && oracle.log == Appended(old(oracle.log), o.tick.value)
              case Err(e) => r == Err(e) && oracle.Value() == old(oracle.Value()) && oracle.log == old(oracle.log)
    {
      var received := Receive(a, q);
      if received.Err? {
        return Err(received.error);
      }
      if a.outputVault == Token0 {
        vault0 :- TransferToUser(vault0, q.sendOut);
      } else {
        vault1 :- TransferToUser(vault1, q.sendOut);
      }
      var updated := oracle.Update(a.now, q.reserves.price0, q.reserves.price1);
      if updated.Err? {
        return Err(updated.error);
      }
      return Ok(SwapReceipt(a, q));
    }

    /** Accrues the fee shares, compares the constants and takes the input. */
    method Receive(a: SwapAccounts, q: Quote) returns (r: Result<()>)
      modifies this
      ensures match ReceiveInput(old(if a.inputVault == Token0 then Side0() else Side1()), a, q)
              case Ok(side) =>
                && r == Ok(())
                && Save() == (if a.inputVault == Token0 then old(Save()).(side0 := side)
                              else old(Save()).(side1 := side))
              case Err(e) => r == Err(e)
      ensures ledger == old(ledger)
    {
      var protocolFee :- ToU64(q.result.protocolFee);
      var fundFee :- ToU64(q.result.fundFee);
      if a.inputVault == Token0 {
        protocolFees0 :- AddU64(protocolFees0, protocolFee);
        fundFees0 :- AddU64(fundFees0, fundFee);
        :- Require(q.constantAfter >= q.reserves.constant, RequireGteViolated);
        vault0 :- TransferFromUser(a.inputMint, a.funds, vault0, q.sendIn);
      } else {
        protocolFees1 :- AddU64(protocolFees1, protocolFee);
        fundFees1 :- AddU64(fundFees1, fundFee);
        :- Require(q.constantAfter >= q.reserves.constant, RequireGteViolated);
        vault1 :- TransferFromUser(a.inputMint, a.funds, vault1, q.sendIn);
      }
      return Ok(());
    }

    // ---------- Liquidity ----------

    method Deposit(a: DepositAccounts, lp: u64, maximum0: u64, maximum1: u64) returns (r: Result<Receipt>)
      requires Valid()
      modifies this
      ensures Valid() && ledger == old(ledger)
      ensures match Transitions.Deposit(old(Value()), a, lp, maximum0, maximum1)
              case Ok(o) => r == Ok(o.receipt) && Value() == o.pool
              case Err(e) => r == Err(e)
    {
      var quote := PriceDeposit(a, lp, maximum0, maximum1);
      if quote.Err? {
        return Err(quote.error);
      }
      var send0, send1 := quote.value.amount0, quote.value.amount1;
      vault0 :- TransferFromUser(a.mint0, a.funds0, vault0, send0);
      vault1 :- TransferFromUser(a.mint1, a.funds1, vault1, send1);
      lpSupply :- AddU64(lpSupply, lp);
      lpMintSupply :- MintTo(lpMintSupply, lp);
      return Ok(UserReceipt(Amounts(send0, send1), ZERO,
                            Amounts(TransferFee(a.mint0, send0), TransferFee(a.mint1, send1))));
    }

    /** The first half of the deposit handler: what the sender's accounts have to pay. */
    method PriceDeposit(a: DepositAccounts, lp: u64, maximum0: u64, maximum1: u64) returns (r: Result<Terms>)
      requires Valid()
      ensures r == QuoteDeposit(Value(), a, lp, maximum0, maximum1)
    {
      if lp == 0 {
        return Err(RequireGtViolated);
      }
      :- Require(StatusBitClear(status, DepositFeature), NotApproved);
      var reserve0 :- Side0().AmountWithoutFee();
      var reserve1 :- Side1().AmountWithoutFee();
      var converted := LpTokensToTradingTokens(lp, lpSupply, reserve0, reserve1, RoundUp);
      var tokens :- converted.OkOr(ZeroTradingTokens);
      :- Require(tokens.token0 != 0 && tokens.token1 != 0, ZeroTradingTokens);
      var amount0 :- ToU64(tokens.token0);
      var fee0 :- TransferInverseFee(a.mint0, amount0);
      var send0 :- AddU64(amount0, fee0);
      var amount1 :- ToU64(tokens.token1);
      var fee1 :- TransferInverseFee(a.mint1, amount1);
      var send1 :- AddU64(amount1, fee1);
      :- Require(send0 <= maximum0 && send1 <= maximum1, ExceededSlippage);
      return Ok(Terms(send0, send1));
    }

    method Withdraw(a: WithdrawAccounts, lp: u64, minimum0: u64, minimum1: u64) returns (r: Result<Receipt>)
      requires Valid()
      modifies this
      ensures Valid() && ledger == old(ledger)
      ensures match Transitions.Withdraw(old(Value()), a, lp, minimum0, minimum1)
              case Ok(o) => r == Ok(o.receipt) && Value() == o.pool
              case Err(e) => r == Err(e)
    {
      var quote := PriceWithdrawal(a, lp, minimum0, minimum1);
      if quote.Err? {
        return Err(quote.error);
      }
      var amount0, amount1 := quote.value.amount0, quote.value.amount1;
      lpSupply :- ToU64(lpSupply - lp);
      lpMintSupply :- Burn(a.ownerLp, lpMintSupply, lp);
      vault0 :- TransferToUser(vault0, amount0);
      vault1 :- TransferToUser(vault1, amount1);
      return Ok(UserReceipt(ZERO, Amounts(Delivered(a.mint0, amount0), Delivered(a.mint1, amount1)),
                            Amounts(TransferFee(a.mint0, amount0), TransferFee(a.mint1, amount1))));
    }

    /** The first half of the withdrawal handler: what the vaults have to pay. */
    method PriceWithdrawal(a: WithdrawAccounts, lp: u64, minimum0: u64, minimum1: u64) returns (r: Result<Terms>)
      requires Valid()
      ensures r == QuoteWithdraw(Value(), a, lp, minimum0, minimum1)
    {
      if lp == 0 {
        return Err(RequireGtViolated);
      }
      :- Require(lpMintSupply > 0, RequireGtViolated);
      :- Require(StatusBitClear(status, WithdrawFeature), NotApproved);
      var reserve0 :- Side0().AmountWithoutFee();
      var reserve1 :- Side1().AmountWithoutFee();
      var converted := LpTokensToTradingTokens(lp, lpSupply, reserve0, reserve1, RoundDown);
      var tokens :- converted.OkOr(ZeroTradingTokens);
      :- Require(tokens.token0 != 0 && tokens.token1 != 0, ZeroTradingTokens);
      var token0 :- ToU64(tokens.token0);
      var amount0: u64 := Min(reserve0, token0);
      var token1 :- ToU64(tokens.token1);
      var amount1: u64 := Min(reserve1, token1);
      var receive0, receive1 := Delivered(a.mint0, amount0), Delivered(a.mint1, amount1);
      :- Require(receive0 >= minimum0 && receive1 >= minimum1, ExceededSlippage);
      return Ok(Terms(amount0, amount1));
    }

    // ---------- Fee collection ----------

    method CollectProtocolFee(requested0: u64, requested1: u64) returns (r: Result<Receipt>)
      requires Valid()
      modifies this
      ensures Valid() && ledger == old(ledger)
      ensures match Transitions.CollectProtocolFee(old(Value()), requested0, requested1)
              case Ok(o) => r == Ok(o.receipt) && Value() == o.pool
              case Err(e) => r == Err(e)
    {
      var amount0, amount1 := Min(requested0, protocolFees0), Min(requested1, protocolFees1);
      protocolFees0 := protocolFees0 - amount0;
      protocolFees1 := protocolFees1 - amount1;
      vault0 :- TransferToUser(vault0, amount0);
      vault1 :- TransferToUser(vault1, amount1);
      return Ok(NOTHING.(collected := Buckets(Amounts(amount0, amount1), ZERO)));
    }

    method CollectFundFee(requested0: u64, requested1: u64) returns (r: Result<Receipt>)
      requires Valid()
      modifies this
      ensures Valid() && ledger == old(ledger)
      ensures match Transitions.CollectFundFee(old(Value()), requested0, requested1)
              case Ok(o) => r == Ok(o.receipt) && Value() == o.pool
              case Err(e) => r == Err(e)
    {
      var amount0, amount1 := Min(requested0, fundFees0), Min(requested1, fundFees1);
      fundFees0 := fundFees0 - amount0;
      fundFees1 := fundFees1 - amount1;
      vault0 :- TransferToUser(vault0, amount0);
      vault1 :- TransferToUser(vault1, amount1);
      return Ok(NOTHING.(collected := Buckets(ZERO, Amounts(amount0, amount1))));
    }

    // ---------- The environment ----------

    method Donate(t: Token, mint: Mint, funds: u64, amount: u64) returns (r: Result<Receipt>)
      requires Valid()
      modifies this
      ensures Valid() && ledger == old(ledger)
      ensures match Transitions.Donate(old(Value()), t, mint, funds, amount)
              case Ok(o) => r == Ok(o.receipt) && Value() == o.pool
              case Err(e) => r == Err(e)
    {
      if t == Token0 {
        vault0 :- TransferFromUser(mint, funds, vault0, amount);
      } else {
        vault1 :- TransferFromUser(mint, funds, vault1, amount);
      }
      return Ok(UserReceipt(Pair(t, amount, 0), ZERO, Pair(t, TransferFee(mint, amount), 0)));
    }

    method BurnLp(balance: u64, amount: u64) returns (r: Result<Receipt>)
      requires Valid()
      modifies this
      ensures Valid() && ledger == old(ledger)
      ensures match Transitions.BurnLp(old(Value()), balance, amount)
              case Ok(o) => r == Ok(o.receipt) && Value() == o.pool
              case Err(e) => r == Err(e)
    {
      var burned := Burn(balance, lpMintSupply, amount);
      if burned.Err? {
        return Err(burned.error);
      }
      lpMintSupply := burned.value;
      return Ok(NOTHING);
    }

    // ---------- Transactions ----------

    method Dispatch(op: Op) returns (r: Result<Receipt>)
      requires Valid()
      modifies this, config, oracle, oracle.observations
      ensures Valid() && ledger == old(ledger)
      ensures match Step(old(Value()), op)
              case Ok(o) =>
                && r == Ok(o.receipt) && Value() == o.pool
                && oracle.log == if o.tick.Some? then Appended(old(oracle.log), o.tick.value) else old(oracle.log)
              case Err(e) =>
                && r == Err(e)
                && config.Value() == old(config.Value())
                && oracle.Value() == old(oracle.Value()) && oracle.log == old(oracle.log)
    {
      match op
      case OpSwapInput(a, amountIn, minimumOut) => r := SwapBaseInput(a, amountIn, minimumOut);
      case OpSwapOutput(a, maximumIn, amountOut) => r := SwapBaseOutput(a, maximumIn, amountOut);
      case _ => r := DispatchQuietly(op);
    }

    /** The instructions that do not touch the oracle. */
    method DispatchQuietly(op: Op) returns (r: Result<Receipt>)
      requires Valid() && !op.OpSwapInput? && !op.OpSwapOutput?
      modifies this, config
      ensures Valid() && ledger == old(ledger)
      ensures match Step(old(Value()), op)
              case Ok(o) => r == Ok(o.receipt) && Value() == o.pool && o.tick == None
              case Err(e) => r == Err(e) && config.Value() == old(config.Value())
    {
      match op
      case OpDeposit(a, lp, maximum0, maximum1) => r := Deposit(a, lp, maximum0, maximum1);
      case OpWithdraw(a, lp, minimum0, minimum1) => r := Withdraw(a, lp, minimum0, minimum1);
      case OpCollectProtocolFee(requested0, requested1) => r := CollectProtocolFee(requested0, requested1);
      case OpCollectFundFee(requested0, requested1) => r := CollectFundFee(requested0, requested1);
      case OpUpdateAmmConfig(param, value, account) =>
        var updated := config.Update(param, value, account);
        r := if updated.Err? then Err(updated.error) else Ok(NOTHING);
      case OpUpdatePoolStatus(newStatus) =>
        status := newStatus;
        r := Ok(NOTHING);
      case OpDonate(t, mint, funds, amount) => r := Donate(t, mint, funds, amount);
      case OpBurnLp(balance, amount) => r := BurnLp(balance, amount);
    }

    /** One transaction: a handler that fails half way is rolled back. */
    method Execute(op: Op) returns (r: Result<Receipt>)
      requires Valid()
      modifies this, config, oracle, oracle.observations
      ensures Valid()
      ensures History() == Exec(old(History()), op) && r == Returned(Step(old(Value()), op))
    {
      var saved := Save();
      r := Dispatch(op);
      if r.Err? {
        Restore(saved);
      } else {
        ledger := ledger.Plus(r.value);
      }
    }

    method Restore(saved: Fields)
      modifies this
      ensures Save() == saved && ledger == old(ledger)
    {
      vault0, protocolFees0, fundFees0 := saved.side0.vault, saved.side0.protocolFees, saved.side0.fundFees;
      vault1, protocolFees1, fundFees1 := saved.side1.vault, saved.side1.protocolFees, saved.side1.fundFees;
      lpSupply, lpMintSupply, status, openTime := saved.lpSupply, saved.lpMintSupply, saved.status, saved.openTime;
    }

    /** A list of transactions. */
    method ExecuteAll(ops: seq<Op>)
      requires Valid()
      modifies this, config, oracle, oracle.observations
      ensures Valid()
      ensures History() == Run(old(History()), ops)
    {
      var done := 0;
      while done < |ops|
        invariant done <= |ops|
        invariant Valid()
        invariant Run(History(), ops[done..]) == Run(old(History()), ops)
      {
        var r := Execute(ops[done]);
        assert ops[done..][1..] == ops[done + 1..];
        done := done + 1;
      }
    }
  }

  /** Creates and updates a configuration. */
  method Configure(b: Birth) returns (config: AmmConfig?)
    ensures config != null <==> CreateAmmConfig(b.rates, b.createPoolFee, b.owner).Ok?
    ensures config != null ==>
              && fresh(config)
              && config.Value() == ConfigRun(CreateAmmConfig(b.rates, b.createPoolFee, b.owner).value, b.updates)
  {
    config := new AmmConfig();
    var created := config.Create(b.rates, b.createPoolFee, b.owner);
    if created.Err? {
      return null;
    }
    ghost var first := config.Value();
    var done := 0;
    while done < |b.updates|
      invariant done <= |b.updates|
      invariant ConfigRun(config.Value(), b.updates[done..]) == ConfigRun(first, b.updates)
    {
      var u := b.updates[done];
      var updated := config.Update(u.param, u.value, u.account);
      assert b.updates[done..][1..] == b.updates[done + 1..];
      done := done + 1;
    }
  }

  /** Creates a pool on new accounts under a configuration. */
  method Open(config: AmmConfig, b: Birth) returns (pool: PoolState?)
    ensures var o := Transitions.Initialize(config.Value(), b.accounts, b.amount0, b.amount1, b.openTime);
            && (pool != null <==> o.Ok?)
            && (pool != null ==>
                  && pool.Valid() && fresh(pool) && fresh(pool.oracle) && fresh(pool.oracle.observations)
                  && pool.config == config
                  && pool.History() == World(o.value.pool, o.value.receipt, []))
  {
    var oracle := new ObservationState();
    pool := new PoolState(config, oracle);
    var initialized := pool.Initialize(b.accounts, b.amount0, b.amount1, b.openTime);
    if initialized.Err? {
      return null;
    }
  }

  /** The whole life of a pool: create and update a configuration, create the pool under it, run
      transactions.  Null when the creation fails; otherwise the objects follow the run of the
      model step by step and end in a reachable, hence valid, world. */
  method Live(b: Birth, ops: seq<Op>) returns (pool: PoolState?)
    ensures pool != null <==> Created(b).Ok?
    ensures pool != null ==>
              && pool.Valid()
              && pool.History() == Run(Created(b).value, ops)
              && Reachable(pool.History())
              && WorldInv(pool.History())
  {
    var config := Configure(b);
    if config == null {
      return null;
    }
    pool := Open(config, b);
    if pool == null {
      return null;
    }
    ghost var born := pool.History();
    assert Created(b) == Ok(born);
    pool.ExecuteAll(ops);
    ReachableSafe(pool.History());
  }
}
