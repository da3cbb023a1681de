/** Collecting owed fees before or after another instruction. */
module FeeOrder {
  import opened Checked
  import opened Rounding
  import opened Tokens
  import opened Calculator
  import opened Oracle
  import opened Pools
  import opened Transitions
  import opened Invariants
  import opened Acceptance
  import Fees

  datatype Bucket = ProtocolBucket | FundBucket

  /** A collection of at most the requested amounts from one bucket. */
  datatype Collection = Collection(bucket: Bucket, requested0: u64, requested1: u64) {
    function On(t: Token): u64 {
      if t == Token0 then requested0 else requested1
    }
  }

  function Collect(p: Pool, k: Collection): Result<Outcome> {
    if k.bucket == ProtocolBucket then CollectProtocolFee(p, k.requested0, k.requested1)
    else CollectFundFee(p, k.requested0, k.requested1)
  }

  function OwedIn(s: Side, b: Bucket): u64 {
    if b == ProtocolBucket then s.protocolFees else s.fundFees
  }

  function AccruedIn(q: Quote, b: Bucket): u128 {
    if b == ProtocolBucket then q.result.protocolFee else q.result.fundFee
  }

  /** One side after the collection of at most requested. */
  function CollectedSide(s: Side, b: Bucket, requested: u64): Side
    requires s.Owed() <= s.vault
  {
    var amount := Min(requested, OwedIn(s, b));
    if b == ProtocolBucket then Side(s.vault - amount, s.protocolFees - amount, s.fundFees)
    else Side(s.vault - amount, s.protocolFees, s.fundFees - amount)
  }

  function CollectedPool(p: Pool, k: Collection): Pool
    requires p.side0.Owed() <= p.side0.vault && p.side1.Owed() <= p.side1.vault
  {
    p.(side0 := CollectedSide(p.side0, k.bucket, k.requested0),
    side1 := CollectedSide(p.side1, k.bucket, k.requested1))
  }

  /** On a valid pool every collection succeeds, and this is what it leaves. */
  lemma CollectShape(p: Pool, k: Collection)
    requires Inv(p)
    ensures Collect(p, k).Ok?
    ensures Collect(p, k).value.pool == CollectedPool(p, k)
  {
  }

  /** A collection leaves a valid pool whose reserves, and all but whose balances, are as before. */
  lemma CollectKeeps(p: Pool, k: Collection)
    requires Inv(p)
    ensures Inv(CollectedPool(p, k))
    ensures var early := CollectedPool(p, k);
            && early == p.(side0 := early.side0, side1 := early.side1)
            && early.side0.Reserve() == p.side0.Reserve() && early.side1.Reserve() == p.side1.Reserve()
            && early.side0.vault <= p.side0.vault && early.side1.vault <= p.side1.vault
  {
    CollectShape(p, k);
    if k.bucket == ProtocolBucket {
      CollectProtocolSafe(p, k.requested0, k.requested1);
    } else {
      CollectFundSafe(p, k.requested0, k.requested1);
    }
  }

  /** A collection leaves the amounts without fees, which is all that quotes read of the sides. */
  lemma SameAmounts(p: Pool, k: Collection)
    requires Inv(p)
    ensures CollectedPool(p, k).side0.AmountWithoutFee() == p.side0.AmountWithoutFee()
    ensures CollectedPool(p, k).side1.AmountWithoutFee() == p.side1.AmountWithoutFee()
  {
  }

  /** A collection leaves what every quote reads, so every quote, as it was. */
  lemma QuotesUnchanged(p: Pool, k: Collection, a: SwapAccounts, amount: u64, limit: u64)
    requires Inv(p)
    ensures Collect(p, k).Ok?
    ensures var early := Collect(p, k).value.pool;
            && QuoteInput(early, a, amount, limit) == QuoteInput(p, a, amount, limit)
            && QuoteOutput(early, a, limit, amount) == QuoteOutput(p, a, limit, amount)
  {
    CollectShape(p, k);
    SameAmounts(p, k);
    QuotesFromReserves(p, CollectedPool(p, k), a, amount, limit);
  }

  /** A quote depends on the pool's status, opening time, configuration and reserves only. */
  lemma QuotesFromReserves(p: Pool, c: Pool, a: SwapAccounts, amount: u64, limit: u64)
    requires c.status == p.status && c.openTime == p.openTime && c.config == p.config
    requires c.side0.AmountWithoutFee() == p.side0.AmountWithoutFee()
    requires c.side1.AmountWithoutFee() == p.side1.AmountWithoutFee()
    ensures QuoteInput(c, a, amount, limit) == QuoteInput(p, a, amount, limit)
    ensures QuoteOutput(c, a, limit, amount) == QuoteOutput(p, a, limit, amount)
  {
    assert ReadReserves(c, a) == ReadReserves(p, a);
  }

  // ---------- Swaps ----------

  /** Receiving a swap's input into a side, before and after its fees are collected. */
  lemma ReceiveCommutes(s: Side, b: Bucket, requested: u64, a: SwapAccounts, q: Quote)
    requires s.Owed() <= s.vault && ReceiveInput(s, a, q).Ok?
    requires q.result.protocolFee + q.result.fundFee <= Delivered(a.inputMint, q.sendIn)
    ensures ReceiveInput(CollectedSide(s, b, requested), a, q).Ok?
    ensures var s' := ReceiveInput(s, a, q).value;
            && s'.Owed() <= s'.vault
            && (ReceiveInput(CollectedSide(s, b, requested), a, q).value == CollectedSide(s', b, requested)
                <==> requested <= OwedIn(s, b) || AccruedIn(q, b) == 0)
  {
    var c := CollectedSide(s, b, requested);
    ReceiveFromSmaller(s, c, a, q);
    ReceiveInputBooks(s, a, q);
    ReceiveInputBooks(c, a, q);
    BooksCommute(s, ReceiveInput(s, a, q).value, ReceiveInput(c, a, q).value, b, requested, a, q);
  }

  /** A side with smaller balances can receive what a larger one can. */
  lemma ReceiveFromSmaller(s: Side, c: Side, a: SwapAccounts, q: Quote)
    requires ReceiveInput(s, a, q).Ok?
    requires c.vault <= s.vault && c.protocolFees <= s.protocolFees && c.fundFees <= s.fundFees
    ensures ReceiveInput(c, a, q).Ok?
  {
  }

  lemma BooksCommute(s: Side, s': Side, c': Side, b: Bucket, requested: u64, a: SwapAccounts, q: Quote)
    requires s.Owed() <= s.vault
    requires q.result.protocolFee + q.result.fundFee <= Delivered(a.inputMint, q.sendIn)
    requires Received(s, s', a, q) && Received(CollectedSide(s, b, requested), c', a, q)
    ensures s'.Owed() <= s'.vault
    ensures c' == CollectedSide(s', b, requested) <==> requested <= OwedIn(s, b) || AccruedIn(q, b) == 0
  {
  }

  /** Sending a swap's output from a side, before and after its fees are collected. */
  lemma SendCommutes(s: Side, b: Bucket, requested: u64, amount: u64)
    requires s.Owed() <= s.vault && amount <= s.vault - s.Owed()
    ensures amount <= CollectedSide(s, b, requested).vault
    ensures Sent(CollectedSide(s, b, requested), amount) == CollectedSide(Sent(s, amount), b, requested)
  {
  }

  /** The pool a swap leaves, given the two sides and the ring it computes. */
  function After(p: Pool, t: Token, source: Side, destination: Side, ring: Ring): Pool {
    p.Put(t, source, destination).(ring := ring)
  }

  /** What a settlement leaves, from its parts. */
  lemma SettleIs(p: Pool, a: SwapAccounts, q: Quote, source: Side, ring: Ring)
    requires ReceiveInput(p.Get(a.inputVault), a, q) == Ok(source)
    requires q.sendOut <= p.Get(a.outputVault).vault
    requires Updated(p.ring, a.now, q.reserves.price0, q.reserves.price1) == Ok(ring)
    ensures Settle(p, a, q).Ok?
    ensures Settle(p, a, q).value.receipt == SwapReceipt(a, q)
    ensures Settle(p, a, q).value.pool == After(p, a.inputVault, source, Sent(p.Get(a.outputVault), q.sendOut), ring)
  {
  }

  function Sent(s: Side, amount: u64): Side
    requires amount <= s.vault
  {
    s.(vault := s.vault - amount)
  }

  lemma SettleParts(p: Pool, a: SwapAccounts, q: Quote) returns (source: Side, ring: Ring)
    requires Settle(p, a, q).Ok?
    ensures ReceiveInput(p.Get(a.inputVault), a, q) == Ok(source)
    ensures q.sendOut <= p.Get(a.outputVault).vault
    ensures Updated(p.ring, a.now, q.reserves.price0, q.reserves.price1) == Ok(ring)
  {
    source := ReceiveInput(p.Get(a.inputVault), a, q).value;
    ring := Updated(p.ring, a.now, q.reserves.price0, q.reserves.price1).value;
  }

  lemma CollectedGet(p: Pool, k: Collection, t: Token)
    requires p.side0.Owed() <= p.side0.vault && p.side1.Owed() <= p.side1.vault
    ensures CollectedPool(p, k).Get(t) == CollectedSide(p.Get(t), k.bucket, k.On(t))
  {
  }

  /** The two pools agree exactly when their input sides do. */
  lemma AfterCollected(p: Pool, k: Collection, t: Token, u: Token,
                       source: Side, source': Side, destination: Side, ring: Ring)
    requires t != u
    requires p.side0.Owed() <= p.side0.vault && p.side1.Owed() <= p.side1.vault
    requires source.Owed() <= source.vault && destination.Owed() <= destination.vault
    ensures var s := After(p, t, source, destination, ring);
            && s.side0.Owed() <= s.side0.vault && s.side1.Owed() <= s.side1.vault
            && (After(CollectedPool(p, k), t, source', CollectedSide(destination, k.bucket, k.On(u)), ring)
                == CollectedPool(s, k)
                <==> source' == CollectedSide(source, k.bucket, k.On(t)))
  {
  }

  /** The order of a collection and a settlement, on the vaults alone. */
  lemma SettlementOrder(p: Pool, k: Collection, a: SwapAccounts, q: Quote)
    requires a.inputVault != a.outputVault
    requires p.side0.Owed() <= p.side0.vault && p.side1.Owed() <= p.side1.vault
    requires q.result.protocolFee + q.result.fundFee <= Delivered(a.inputMint, q.sendIn)
    requires q.sendOut <= p.Get(a.outputVault).vault - p.Get(a.outputVault).Owed()
    requires Settle(p, a, q).Ok?
    ensures var early := CollectedPool(p, k);
            var s := Settle(p, a, q).value;
            && Settle(early, a, q).Ok?
            && Settle(early, a, q).value.receipt == s.receipt
            && s.pool.side0.Owed() <= s.pool.side0.vault && s.pool.side1.Owed() <= s.pool.side1.vault
            && (Settle(early, a, q).value.pool == CollectedPool(s.pool, k)
                <==> k.On(a.inputVault) <= OwedIn(p.Get(a.inputVault), k.bucket) || AccruedIn(q, k.bucket) == 0)
  {
    var source, destination := p.Get(a.inputVault), p.Get(a.outputVault);
    var early := CollectedPool(p, k);
    CollectedGet(p, k, a.inputVault);
    CollectedGet(p, k, a.outputVault);
    var received, ring := SettleParts(p, a, q);
    ReceiveCommutes(source, k.bucket, k.On(a.inputVault), a, q);
    SendCommutes(destination, k.bucket, k.On(a.outputVault), q.sendOut);
    var received' := ReceiveInput(early.Get(a.inputVault), a, q).value;
    SettleIs(p, a, q, received, ring);
    SettleIs(early, a, q, received', ring);
    AfterCollected(p, k, a.inputVault, a.outputVault, received, received', Sent(destination, q.sendOut), ring);
  }

  /** The share of the trade fee on arrived that goes to a bucket. */
  ghost function Accrual(rates: Rates, b: Bucket, arrived: nat): nat {
    Fees.Share(Fees.Fee(arrived, rates.trade), if b == ProtocolBucket then rates.protocol else rates.fund)
  }

  /** The request on token t is covered by what is owed before a swap in which arrived of t comes in,
      or the rates leave nothing of that for the bucket. */
  ghost predicate OrderIrrelevant(p: Pool, k: Collection, t: Token, arrived: nat) {
    k.On(t) <= OwedIn(p.Get(t), k.bucket) || Accrual(p.config.rates, k.bucket, arrived) == 0
  }

  /** Collecting before an accepted swap never makes it fail and never changes what it moves.  The
      two orders end in the same pool if and only if the request on the input token is covered by
      what was owed before the swap, or the rates leave nothing of the input for that bucket:
      otherwise the later collection also takes from the new fee. */
  lemma SwapOrder(p: Pool, k: Collection, a: SwapAccounts, q: Quote)
    requires Inv(p) && Fair(p, a, q) && Exact(p, a, q) && Settle(p, a, q).Ok?
    ensures Collect(p, k).Ok?
    ensures var early := Collect(p, k).value.pool;
            var s := Settle(p, a, q).value;
            && Settle(early, a, q).Ok?
            && Settle(early, a, q).value.receipt == s.receipt
            && Collect(s.pool, k).Ok?
            && (Settle(early, a, q).value.pool == Collect(s.pool, k).value.pool
                <==> OrderIrrelevant(p, k, a.inputVault, Delivered(a.inputMint, q.sendIn)))
  {
    SettlementOrder(p, k, a, q);
    SettleSafe(p, a, q);
    CollectShape(p, k);
    CollectShape(Settle(p, a, q).value.pool, k);
  }

  lemma SwapInputOrder(p: Pool, k: Collection, a: SwapAccounts, amountIn: u64, minimumOut: u64)
    requires Inv(p) && SwapInput(p, a, amountIn, minimumOut).Ok?
    ensures Collect(p, k).Ok?
    ensures var early := SwapInput(Collect(p, k).value.pool, a, amountIn, minimumOut);
            var s := SwapInput(p, a, amountIn, minimumOut).value;
            && early.Ok?
            && early.value.receipt == s.receipt
            && Collect(s.pool, k).Ok?
            && (early.value.pool == Collect(s.pool, k).value.pool
                <==> OrderIrrelevant(p, k, a.inputVault, Delivered(a.inputMint, amountIn)))
  {
    QuoteInputFair(p, a, amountIn, minimumOut);
    QuotesUnchanged(p, k, a, amountIn, minimumOut);
    SwapOrder(p, k, a, QuoteInput(p, a, amountIn, minimumOut).value);
  }

  lemma SwapOutputOrder(p: Pool, k: Collection, a: SwapAccounts, maximumIn: u64, amountOut: u64)
    requires Inv(p) && SwapOutput(p, a, maximumIn, amountOut).Ok?
    ensures Collect(p, k).Ok?
    ensures p.side0.Reserve() > 0 && p.side1.Reserve() > 0 && OutputAffordable(p, a, maximumIn, amountOut)
    ensures var early := SwapOutput(Collect(p, k).value.pool, a, maximumIn, amountOut);
            var s := SwapOutput(p, a, maximumIn, amountOut).value;
            && early.Ok?
            && early.value.receipt == s.receipt
            && Collect(s.pool, k).Ok?
            && (early.value.pool == Collect(s.pool, k).value.pool
                <==> OrderIrrelevant(p, k, a.inputVault, Price(p, a, Leaves(a, amountOut))))
  {
    PriceArrives(p, a, maximumIn, amountOut);
    QuoteOutputFair(p, a, maximumIn, amountOut);
    QuotesUnchanged(p, k, a, amountOut, maximumIn);
    SwapOrder(p, k, a, QuoteOutput(p, a, maximumIn, amountOut).value);
  }

  /** A swap is accepted before a collection if and only if it is accepted after it, as long as the
      mint's supply covers the vault and the trader's tokens; without that, if and only if also the
      vault has room for the input while the fees are still in it. */
  lemma SwapInputEitherOrder(p: Pool, k: Collection, a: SwapAccounts, amountIn: u64, minimumOut: u64)
    requires Inv(p)
    ensures Collect(p, k).Ok?
    ensures SwapInput(p, a, amountIn, minimumOut).Ok? <==>
            && SwapInput(Collect(p, k).value.pool, a, amountIn, minimumOut).Ok?
            && p.Get(a.inputVault).vault + Delivered(a.inputMint, amountIn) <= U64_MAX
    ensures WithinSupply(p.Get(a.inputVault).vault, a.funds) ==>
              (SwapInput(p, a, amountIn, minimumOut).Ok?
               <==> SwapInput(Collect(p, k).value.pool, a, amountIn, minimumOut).Ok?)
  {
    CollectShape(p, k);
    CollectKeeps(p, k);
    SwapInputAcceptedIff(p, a, amountIn, minimumOut);
    SwapInputAcceptedIff(CollectedPool(p, k), a, amountIn, minimumOut);
  }

  /** The conditions on an exact output depend on the configuration, the reserves and the ring, apart
      from the room in the vault. */
  lemma SameConditions(p: Pool, c: Pool, a: SwapAccounts, maximumIn: u64, amountOut: u64)
    requires Inv(p) && Inv(c) && c == p.(side0 := c.side0, side1 := c.side1)
    requires c.side0.Reserve() == p.side0.Reserve() > 0 && c.side1.Reserve() == p.side1.Reserve() > 0
    ensures OutputAffordable(c, a, maximumIn, amountOut) <==> OutputAffordable(p, a, maximumIn, amountOut)
    ensures OutputAffordable(p, a, maximumIn, amountOut) ==>
              Price(c, a, Leaves(a, amountOut)) == Price(p, a, Leaves(a, amountOut))
    ensures OracleReady(c, a.now) <==> OracleReady(p, a.now)
  {
  }

  lemma SwapOutputEitherOrder(p: Pool, k: Collection, a: SwapAccounts, maximumIn: u64, amountOut: u64)
    requires Inv(p)
    ensures Collect(p, k).Ok?
    ensures p.side0.Reserve() > 0 && p.side1.Reserve() > 0
    ensures SwapOutput(p, a, maximumIn, amountOut).Ok? <==>
            && SwapOutput(Collect(p, k).value.pool, a, maximumIn, amountOut).Ok?
            && OutputAffordable(p, a, maximumIn, amountOut)
            && p.Get(a.inputVault).vault + Price(p, a, Leaves(a, amountOut)) <= U64_MAX
    ensures WithinSupply(p.Get(a.inputVault).vault, a.funds) ==>
              (SwapOutput(p, a, maximumIn, amountOut).Ok?
               <==> SwapOutput(Collect(p, k).value.pool, a, maximumIn, amountOut).Ok?)
  {
    CollectShape(p, k);
    CollectKeeps(p, k);
    ReservesPositive(p);
    SwapOutputAcceptedIff(p, a, maximumIn, amountOut);
    SwapOutputAcceptedIff(CollectedPool(p, k), a, maximumIn, amountOut);
    SameConditions(p, CollectedPool(p, k), a, maximumIn, amountOut);
  }

  // ---------- Liquidity ----------

  lemma DepositQuoteUnchanged(p: Pool, k: Collection, a: DepositAccounts, lp: u64, maximum0: u64, maximum1: u64)
    requires Inv(p)
    ensures QuoteDeposit(CollectedPool(p, k), a, lp, maximum0, maximum1)
         == QuoteDeposit(p, a, lp, maximum0, maximum1)
  {
    SameAmounts(p, k);
  }

  lemma WithdrawQuoteUnchanged(p: Pool, k: Collection, a: WithdrawAccounts, lp: u64, minimum0: u64, minimum1: u64)
    requires Inv(p)
    ensures QuoteWithdraw(CollectedPool(p, k), a, lp, minimum0, minimum1)
         == QuoteWithdraw(p, a, lp, minimum0, minimum1)
  {
    SameAmounts(p, k);
  }

  /** Moving a deposit in, before and after a collection. */
  lemma TakeDepositOrder(p: Pool, k: Collection, a: DepositAccounts, lp: u64, terms: Terms)
    requires p.side0.Owed() <= p.side0.vault && p.side1.Owed() <= p.side1.vault
    requires TakeDeposit(p, a, lp, terms).Ok?
    ensures var early := TakeDeposit(CollectedPool(p, k), a, lp, terms);
            var d := TakeDeposit(p, a, lp, terms).value;
            && d.pool.side0.Owed() <= d.pool.side0.vault && d.pool.side1.Owed() <= d.pool.side1.vault
            && early.Ok?
            && early.value.receipt == d.receipt
            && early.value.pool == CollectedPool(d.pool, k)
  {
  }

  /** Moving a withdrawal out, before and after a collection. */
  lemma PayWithdrawalOrder(p: Pool, k: Collection, a: WithdrawAccounts, lp: u64, terms: Terms)
    requires Inv(p) && terms.amount0 <= p.side0.Reserve() && terms.amount1 <= p.side1.Reserve()
    requires PayWithdrawal(p, a, lp, terms).Ok?
    ensures var early := PayWithdrawal(CollectedPool(p, k), a, lp, terms);
            var d := PayWithdrawal(p, a, lp, terms).value;
            && d.pool.side0.Owed() <= d.pool.side0.vault && d.pool.side1.Owed() <= d.pool.side1.vault
            && early.Ok?
            && early.value.receipt == d.receipt
            && early.value.pool == CollectedPool(d.pool, k)
  {
    CollectKeeps(p, k);
    PayWithdrawalIff(p, a, lp, terms);
    PayWithdrawalIff(CollectedPool(p, k), a, lp, terms);
    PayWithdrawalBooks(p, a, lp, terms);
    PayWithdrawalBooks(CollectedPool(p, k), a, lp, terms);
    WithdrawnCommutes(p, k, a, lp, terms, PayWithdrawal(p, a, lp, terms).value,
                      PayWithdrawal(CollectedPool(p, k), a, lp, terms).value);
  }

  lemma WithdrawnCommutes(p: Pool, k: Collection, a: WithdrawAccounts, lp: u64, terms: Terms,
                          d: Outcome, early: Outcome)
    requires p.side0.Owed() <= p.side0.vault && p.side1.Owed() <= p.side1.vault
    requires terms.amount0 <= p.side0.Reserve() && terms.amount1 <= p.side1.Reserve()
    requires Withdrawn(p, a, lp, terms, d) && Withdrawn(CollectedPool(p, k), a, lp, terms, early)
    ensures d.pool.side0.Owed() <= d.pool.side0.vault && d.pool.side1.Owed() <= d.pool.side1.vault
    ensures early.receipt == d.receipt && early.pool == CollectedPool(d.pool, k)
  {
    SendCommutes(p.side0, k.bucket, k.requested0, terms.amount0);
    SendCommutes(p.side1, k.bucket, k.requested1, terms.amount1);
  }

  /** A deposit that is accepted first is accepted after a collection too, and both orders move the
      same and end in the same pool. */
  lemma DepositOrder(p: Pool, k: Collection, a: DepositAccounts, lp: u64, maximum0: u64, maximum1: u64)
    requires Inv(p) && Deposit(p, a, lp, maximum0, maximum1).Ok?
    ensures Collect(p, k).Ok?
    ensures var early := Deposit(Collect(p, k).value.pool, a, lp, maximum0, maximum1);
            var d := Deposit(p, a, lp, maximum0, maximum1).value;
            && early.Ok?
            && early.value.receipt == d.receipt
            && Collect(d.pool, k).Ok?
            && early.value.pool == Collect(d.pool, k).value.pool
  {
    var terms := QuoteDeposit(p, a, lp, maximum0, maximum1).value;
    DepositQuoteUnchanged(p, k, a, lp, maximum0, maximum1);
    TakeDepositOrder(p, k, a, lp, terms);
    DepositSafe(p, a, lp, maximum0, maximum1);
    CollectShape(p, k);
    CollectShape(TakeDeposit(p, a, lp, terms).value.pool, k);
  }

  /** A deposit is accepted before a collection if and only if it is accepted after it, as long as the
      mints' supplies cover the vaults and the depositor's tokens; without that, if and only if also
      both vaults have room for it while the fees are still in them. */
  lemma DepositEitherOrder(p: Pool, k: Collection, a: DepositAccounts, lp: u64, maximum0: u64, maximum1: u64)
    requires Inv(p)
    ensures Collect(p, k).Ok?
    ensures Deposit(p, a, lp, maximum0, maximum1).Ok? <==>
            && Deposit(Collect(p, k).value.pool, a, lp, maximum0, maximum1).Ok?
            && p.side0.vault + Ceil(Times(lp, p.side0.Reserve()), p.lpSupply) <= U64_MAX
            && p.side1.vault + Ceil(Times(lp, p.side1.Reserve()), p.lpSupply) <= U64_MAX
    ensures WithinSupply(p.side0.vault, a.funds0) && WithinSupply(p.side1.vault, a.funds1) ==>
              (Deposit(p, a, lp, maximum0, maximum1).Ok?
               <==> Deposit(Collect(p, k).value.pool, a, lp, maximum0, maximum1).Ok?)
  {
    CollectShape(p, k);
    CollectKeeps(p, k);
    DepositAcceptedIff(p, a, lp, maximum0, maximum1);
    DepositAcceptedIff(CollectedPool(p, k), a, lp, maximum0, maximum1);
  }

  /** A withdrawal that is accepted first is accepted after a collection too, and both orders move
      the same and end in the same pool. */
  lemma WithdrawOrder(p: Pool, k: Collection, a: WithdrawAccounts, lp: u64, minimum0: u64, minimum1: u64)
    requires Inv(p) && Withdraw(p, a, lp, minimum0, minimum1).Ok?
    ensures Collect(p, k).Ok?
    ensures var early := Withdraw(Collect(p, k).value.pool, a, lp, minimum0, minimum1);
            var d := Withdraw(p, a, lp, minimum0, minimum1).value;
            && early.Ok?
            && early.value.receipt == d.receipt
            && Collect(d.pool, k).Ok?
            && early.value.pool == Collect(d.pool, k).value.pool
  {
    var terms := QuoteWithdraw(p, a, lp, minimum0, minimum1).value;
    WithdrawQuoteUnchanged(p, k, a, lp, minimum0, minimum1);
    PayWithdrawalOrder(p, k, a, lp, terms);
    WithdrawSafe(p, a, lp, minimum0, minimum1);
    CollectShape(p, k);
    CollectShape(PayWithdrawal(p, a, lp, terms).value.pool, k);
  }

  /** A withdrawal is accepted before a collection if and only if it is accepted after it. */
  lemma WithdrawEitherOrder(p: Pool, k: Collection, a: WithdrawAccounts, lp: u64, minimum0: u64, minimum1: u64)
    requires Inv(p)
    ensures Collect(p, k).Ok?
    ensures Withdraw(p, a, lp, minimum0, minimum1).Ok?
       <==> Withdraw(Collect(p, k).value.pool, a, lp, minimum0, minimum1).Ok?
  {
    CollectShape(p, k);
    CollectKeeps(p, k);
    WithdrawAcceptedIff(p, a, lp, minimum0, minimum1);
    WithdrawAcceptedIff(CollectedPool(p, k), a, lp, minimum0, minimum1);
  }
}
