/** Depositing and at once withdrawing the same pool tokens. */
module RoundTrip {
  import opened Checked
  import opened Rounding
  import opened Tokens
  import opened ConstantProduct
  import opened Pools
  import opened Transitions
  import opened Invariants
  import opened Acceptance

  /** One side of the round trip: what was paid in is the ceiling of the share, and what comes back
      out of the grown reserve is that or one unit less, and never nothing. */
  lemma SideReturns(lp: nat, supply: nat, reserve: nat, paid: nat)
    requires lp > 0 && supply > 0
    requires supply <= Times(lp, reserve) <= Times(paid, supply) < Times(lp, reserve) + supply
    ensures paid - 1 <= Floor(Times(lp, reserve + paid), supply + lp) <= paid
    ensures Times(lp, reserve + paid) >= supply + lp
  {
    TimesIs(lp, reserve);
    TimesIs(paid, supply);
    TimesIs(lp, reserve + paid);
    assert lp * (reserve + paid) == lp * reserve + lp * paid;
    assert paid * (supply + lp) == paid * supply + lp * paid;
    assert (paid + 1) * (supply + lp) == paid * (supply + lp) + supply + lp;
    Cancel(1, paid, supply);
    assert (paid - 1) * (supply + lp) == paid * (supply + lp) - supply - lp;
    MulMono(1, paid, lp);
    assert 1 * lp == lp && paid * lp == lp * paid;
    FloorAdjoint(lp * (reserve + paid), supply + lp, paid + 1);
    FloorAdjoint(lp * (reserve + paid), supply + lp, paid - 1);
  }

  /** What a deposit pays in, per token, without transfer fees. */
  lemma DepositPays(p: Pool, a: DepositAccounts, lp: u64, maximum0: u64, maximum1: u64)
    requires Inv(p) && a.mint0.Free() && a.mint1.Free()
    requires Deposit(p, a, lp, maximum0, maximum1).Ok?
    ensures var o := Deposit(p, a, lp, maximum0, maximum1).value;
            && Paid(lp, p.lpSupply, p.side0, o.pool.side0, o.receipt.users.paid.token0)
            && Paid(lp, p.lpSupply, p.side1, o.pool.side1, o.receipt.users.paid.token1)
            && Inv(o.pool)
            && o.pool == p.(side0 := o.pool.side0, side1 := o.pool.side1,
                         lpSupply := p.lpSupply + lp, lpMintSupply := p.lpMintSupply + lp)
  {
    var t := QuoteDeposit(p, a, lp, maximum0, maximum1).value;
    DepositTerms(p, a, lp, maximum0, maximum1);
    TakeDepositBooks(p, a, lp, t);
    DepositedSafe(p, a, lp, t, TakeDeposit(p, a, lp, t).value);
    DepositedPays(p, a, lp, t, TakeDeposit(p, a, lp, t).value);
  }

  lemma DepositedPays(p: Pool, a: DepositAccounts, lp: u64, t: Terms, o: Outcome)
    requires a.mint0.Free() && a.mint1.Free()
    requires Deposited(p, a, lp, t, o)
    requires DepositShares(p, lp, Delivered(a.mint0, t.amount0), Delivered(a.mint1, t.amount1))
    ensures Paid(lp, p.lpSupply, p.side0, o.pool.side0, o.receipt.users.paid.token0)
    ensures Paid(lp, p.lpSupply, p.side1, o.pool.side1, o.receipt.users.paid.token1)
  {
    TokensForValue(lp, p.lpSupply, p.side0.Reserve(), RoundUp);
    TokensForValue(lp, p.lpSupply, p.side1.Reserve(), RoundUp);
  }

  ghost predicate Paid(lp: nat, supply: nat, side: Side, side': Side, paid: nat) {
    && side' == side.(vault := side'.vault)
    && side'.vault == side.vault + paid
    && supply <= Times(lp, side.Reserve()) <= Times(paid, supply) < Times(lp, side.Reserve()) + supply
  }

  /** What comes back for a side that was paid into. */
  lemma PaidReturns(lp: nat, supply: nat, side: Side, side': Side, paid: nat, supply': nat)
    requires lp > 0 && supply > 0 && supply' == supply + lp
    requires side.Owed() <= side.vault && Paid(lp, supply, side, side', paid)
    ensures Times(lp, side'.Reserve()) >= supply'
    ensures paid - 1 <= Floor(Times(lp, side'.Reserve()), supply') <= paid
  {
    assert side'.Reserve() == side.Reserve() + paid;
    SideReturns(lp, supply, side.Reserve(), paid);
  }

  /** What comes back is what was paid in, or one unit less. */
  ghost predicate Returned(paid: nat, received: nat) {
    paid - 1 <= received <= paid
  }

  /** Without transfer fees, a deposit followed at once by a withdrawal of the same pool tokens is
      always accepted where withdrawing is enabled, and returns of each token at most what was
      paid in and at least that minus one unit. */
  lemma DepositThenWithdraw(p: Pool, d: DepositAccounts, w: WithdrawAccounts, lp: u64, maximum0: u64, maximum1: u64)
    requires Inv(p) && p.Enabled(WithdrawFeature) && w.ownerLp >= lp
    requires d.mint0.Free() && d.mint1.Free() && w.mint0.Free() && w.mint1.Free()
    requires Deposit(p, d, lp, maximum0, maximum1).Ok?
    ensures var deposited := Deposit(p, d, lp, maximum0, maximum1).value;
            var withdrawn := Withdraw(deposited.pool, w, lp, 0, 0);
            && withdrawn.Ok?
            && Returned(deposited.receipt.users.paid.token0, withdrawn.value.receipt.users.received.token0)
            && Returned(deposited.receipt.users.paid.token1, withdrawn.value.receipt.users.received.token1)
            && withdrawn.value.pool.lpSupply == p.lpSupply
            && withdrawn.value.pool.lpMintSupply == p.lpMintSupply
  {
    var o := Deposit(p, d, lp, maximum0, maximum1).value;
    DepositPays(p, d, lp, maximum0, maximum1);
    PaidReturns(lp, p.lpSupply, p.side0, o.pool.side0, o.receipt.users.paid.token0, o.pool.lpSupply);
    PaidReturns(lp, p.lpSupply, p.side1, o.pool.side1, o.receipt.users.paid.token1, o.pool.lpSupply);
    WithdrawReturns(o.pool, w, lp);
  }

  /** What an unlimited withdrawal returns, per token, without transfer fees. */
  lemma WithdrawReturns(p: Pool, w: WithdrawAccounts, lp: u64)
    requires Inv(p) && p.Enabled(WithdrawFeature) && w.mint0.Free() && w.mint1.Free()
    requires 0 < lp <= w.ownerLp && lp <= p.lpMintSupply
    requires Times(lp, p.side0.Reserve()) >= p.lpSupply && Times(lp, p.side1.Reserve()) >= p.lpSupply
    ensures Withdraw(p, w, lp, 0, 0).Ok?
    ensures var o := Withdraw(p, w, lp, 0, 0).value;
            && o.receipt.users.received == Amounts(Floor(Times(lp, p.side0.Reserve()), p.lpSupply),
                                                   Floor(Times(lp, p.side1.Reserve()), p.lpSupply))
            && o.pool.lpSupply == p.lpSupply - lp && o.pool.lpMintSupply == p.lpMintSupply - lp
  {
    ShareComputed(lp, p.lpSupply, p.side0.Reserve());
    ShareComputed(lp, p.lpSupply, p.side1.Reserve());
    WithdrawAcceptedIff(p, w, lp, 0, 0);
    WithdrawSafe(p, w, lp, 0, 0);
    FreeWithdrawal(p, w, lp);
  }

  /** Without transfer fees the owner receives what leaves the vaults. */
  lemma FreeWithdrawal(p: Pool, w: WithdrawAccounts, lp: u64)
    requires w.mint0.Free() && w.mint1.Free() && Withdraw(p, w, lp, 0, 0).Ok?
    ensures var o := Withdraw(p, w, lp, 0, 0).value;
            && o.receipt.users.received.token0 == p.side0.vault - o.pool.side0.vault
            && o.receipt.users.received.token1 == p.side1.vault - o.pool.side1.vault
            && o.pool.lpSupply == p.lpSupply - lp && o.pool.lpMintSupply == p.lpMintSupply - lp
  {
  }
}
