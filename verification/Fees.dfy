/** Trading fee, its split into the protocol and fund shares, and the gross-up that undoes it. */
module Fees {
  import opened Checked
  import opened Rounding

  const FEE_RATE_DENOMINATOR: u64 := 1_000_000

  /** Adds the divisor, takes one away, and divides. */
  function PaddedDiv(amount: u128, denominator: u128): Result<u128> {
    if denominator == 0 || amount + denominator > U128_MAX then Err(NoValue)
    else Ok(Ceil(amount, denominator))
  }

  function CeilDiv(amount: u128, numerator: u128, denominator: u128): Result<u128> {
    var product :- CheckedMul(amount, numerator).Unwrap();
    PaddedDiv(product, denominator)
  }

  function FloorDiv(amount: u128, numerator: u128, denominator: u128): Result<u128> {
    var product :- CheckedMul(amount, numerator);
    CheckedDiv(product, denominator)
  }

  function TradingFee(amount: u128, tradeFeeRate: u64): Result<u128> {
    CeilDiv(amount, tradeFeeRate, FEE_RATE_DENOMINATOR)
  }

  function ProtocolFee(amount: u128, protocolFeeRate: u64): Result<u128> {
    FloorDiv(amount, protocolFeeRate, FEE_RATE_DENOMINATOR)
  }

  function FundFee(amount: u128, fundFeeRate: u64): Result<u128> {
    FloorDiv(amount, fundFeeRate, FEE_RATE_DENOMINATOR)
  }

  function CalculatePreFeeAmount(postFeeAmount: u128, tradeFeeRate: u64): Result<u128> {
    if tradeFeeRate == 0 then Ok(postFeeAmount)
    else
      var numerator :- CheckedMul(postFeeAmount, FEE_RATE_DENOMINATOR);
      var denominator :- CheckedSub(FEE_RATE_DENOMINATOR, tradeFeeRate);
      PaddedDiv(numerator, denominator)
  }

  /** The same quantities without width limits. */
  ghost function Fee(amount: nat, rate: nat): nat {
    Ceil(Times(amount, rate), FEE_RATE_DENOMINATOR)
  }

  ghost function Share(fee: nat, rate: nat): nat {
    Floor(Times(fee, rate), FEE_RATE_DENOMINATOR)
  }

  ghost function Net(amount: nat, rate: nat): int {
    amount - Fee(amount, rate)
  }

  ghost function Gross(net: nat, rate: nat): nat
    requires rate < FEE_RATE_DENOMINATOR
  {
    Ceil(Times(net, FEE_RATE_DENOMINATOR), FEE_RATE_DENOMINATOR - rate)
  }

  /** Two u64 values, and any product with a rate, fit far below 128 bits. */
  lemma RatedFits(amount: u64, rate: u64)
    requires rate <= FEE_RATE_DENOMINATOR
    ensures 0 <= Times(amount, rate) <= U64_MAX * 1_000_000
  {
    TimesIs(amount, rate);
    ProductsOrdered(amount, rate, U64_MAX, 1_000_000);
  }

  /** On amounts a token account can hold, the trading fee is computed without overflow: it is the
      rate in millionths of the amount, rounded up. */
  lemma TradingFeeValue(amount: u64, rate: u64)
    requires rate < 1_000_000
    ensures TradingFee(amount, rate) == Ok(Fee(amount, rate))
    ensures (Fee(amount, rate) - 1) * 1_000_000 < amount * rate <= Fee(amount, rate) * 1_000_000
  {
    RatedFits(amount, rate);
    TimesIs(amount, rate);
    CeilBounds(Times(amount, rate), FEE_RATE_DENOMINATOR);
  }

  /** Any amount whose fee is computed at all is charged the exact fee. */
  lemma TradingFeeWhenOk(amount: u128, rate: u64)
    requires TradingFee(amount, rate).Ok?
    ensures TradingFee(amount, rate) == Ok(Fee(amount, rate))
  {
  }

  /** A fee share is computed without overflow and lies within the fee. */
  lemma ShareValue(fee: u64, rate: u64)
    requires rate <= FEE_RATE_DENOMINATOR
    ensures FloorDiv(fee, rate, FEE_RATE_DENOMINATOR) == Ok(Share(fee, rate))
    ensures Share(fee, rate) <= fee
  {
    RatedFits(fee, rate);
    SharesWithinFee(fee, rate, 0);
  }

  /** The protocol and the fund share are their rates in millionths of the fee, rounded down. */
  lemma SharesValue(fee: u64, rate: u64)
    requires rate <= 1_000_000
    ensures ProtocolFee(fee, rate) == FundFee(fee, rate) == Ok(Share(fee, rate))
    ensures Share(fee, rate) * 1_000_000 <= fee * rate < (Share(fee, rate) + 1) * 1_000_000
  {
    ShareValue(fee, rate);
    TimesIs(fee, rate);
    FloorBounds(Times(fee, rate), FEE_RATE_DENOMINATOR);
  }

  /** Protocol and fund shares together never exceed the trading fee they are cut from. */
  lemma SharesWithinFee(fee: nat, protocolRate: nat, fundRate: nat)
    requires protocolRate + fundRate <= FEE_RATE_DENOMINATOR
    ensures Share(fee, protocolRate) + Share(fee, fundRate) <= fee
  {
    TimesIs(fee, protocolRate);
    TimesIs(fee, fundRate);
    FloorBounds(fee * protocolRate, FEE_RATE_DENOMINATOR);
    FloorBounds(fee * fundRate, FEE_RATE_DENOMINATOR);
    assert fee * protocolRate + fee * fundRate == (protocolRate + fundRate) * fee;
    MulMono(protocolRate + fundRate, FEE_RATE_DENOMINATOR, fee);
  }

  /** A net amount is reached exactly from its grossed-up amount on: the fee and its gross-up
      are adjoint. */
  lemma GrossAdjoint(amount: nat, net: nat, rate: nat)
    requires rate < FEE_RATE_DENOMINATOR
    ensures net <= Net(amount, rate) <==> Gross(net, rate) <= amount
  {
    var d: nat := FEE_RATE_DENOMINATOR;
    TimesIs(amount, rate);
    TimesIs(net, d);
    CeilAdjoint(net * d, d - rate, amount);
    assert amount * (d - rate) == amount * d - amount * rate;
    if net <= amount {
      CeilAdjoint(amount * rate, d, amount - net);
      assert (amount - net) * d == amount * d - net * d;
    } else {
      MulMono(amount + 1, net, d);
      MulMono(0, amount, rate);
    }
  }

  lemma NetNonNegative(amount: nat, rate: nat)
    requires rate < FEE_RATE_DENOMINATOR
    ensures 0 <= Net(amount, rate) <= amount
  {
    TimesIs(0, FEE_RATE_DENOMINATOR);
    GrossAdjoint(amount, 0, rate);
  }

  /** Netting two amounts together leaves at least what netting them apart leaves. */
  lemma NetSuperadditive(a: nat, b: nat, rate: nat)
    requires rate < FEE_RATE_DENOMINATOR
    ensures Net(a + b, rate) >= Net(a, rate) + Net(b, rate)
  {
    var d: nat := FEE_RATE_DENOMINATOR;
    TimesIs(a, rate);
    TimesIs(b, rate);
    TimesIs(a + b, rate);
    CeilBounds(a * rate, d);
    CeilBounds(b * rate, d);
    assert (a + b) * rate == a * rate + b * rate;
    CeilAdjoint((a + b) * rate, d, Fee(a, rate) + Fee(b, rate));
  }

  /** An amount a token account can hold is grossed up without overflow. */
  lemma PreFeeComputed(net: u128, rate: u64)
    requires rate < FEE_RATE_DENOMINATOR && net <= U64_MAX
    ensures CalculatePreFeeAmount(net, rate).Ok?
  {
    RatedFits(net, FEE_RATE_DENOMINATOR);
  }

  /** The gross-up is the wanted amount over what the rate in millionths leaves, rounded up. */
  lemma PreFeeValue(net: u64, rate: u64)
    requires rate < 1_000_000
    ensures CalculatePreFeeAmount(net, rate) == Ok(Gross(net, rate))
    ensures net * 1_000_000 <= Gross(net, rate) * (1_000_000 - rate) < net * 1_000_000 + (1_000_000 - rate)
  {
    PreFeeComputed(net, rate);
    GrossUpExactAndLeast(net, rate);
    GrossValue(net, rate);
  }

  lemma GrossValue(net: nat, rate: u64)
    requires rate < 1_000_000
    ensures net * 1_000_000 <= Gross(net, rate) * (1_000_000 - rate) < net * 1_000_000 + (1_000_000 - rate)
  {
    TimesIs(net, FEE_RATE_DENOMINATOR);
    CeilBounds(Times(net, FEE_RATE_DENOMINATOR), FEE_RATE_DENOMINATOR - rate);
  }

  /** The gross-up is an exact and least inverse of charging the fee: the grossed-up amount nets
      the wanted amount exactly, and every smaller amount nets strictly less. */
  lemma GrossUpExactAndLeast(net: u128, rate: u64)
    requires rate < FEE_RATE_DENOMINATOR
    requires CalculatePreFeeAmount(net, rate).Ok?
    ensures var gross := CalculatePreFeeAmount(net, rate).value;
            && gross == Gross(net, rate)
            && Net(gross, rate) == net
            && (forall less: nat {:trigger Net(less, rate)} :: less < gross ==> Net(less, rate) < net)
  {
    if rate == 0 {
      NoFee(net);
    }
    var gross := Gross(net, rate);
    NetOfGross(net, rate);
    forall less: nat | less < gross
      ensures Net(less, rate) < net
    {
      GrossAdjoint(less, net, rate);
    }
  }

  lemma NoFee(net: nat)
    ensures Gross(net, 0) == net
  {
    var d: nat := FEE_RATE_DENOMINATOR;
    TimesIs(net, d);
    CeilAdjoint(net * d, d, net);
    CeilBounds(net * d, d);
    Cancel(net, Gross(net, 0), d);
  }

  lemma GrossStrict(net: nat, rate: nat)
    requires rate < FEE_RATE_DENOMINATOR
    ensures Gross(net, rate) < Gross(net + 1, rate)
  {
    var d: nat := FEE_RATE_DENOMINATOR;
    TimesIs(net, d);
    TimesIs(net + 1, d);
    CeilBounds(net * d, d - rate);
    CeilAdjoint((net + 1) * d, d - rate, Gross(net, rate));
  }

  lemma NetOfGross(net: nat, rate: nat)
    requires rate < FEE_RATE_DENOMINATOR
    ensures Net(Gross(net, rate), rate) == net
  {
    GrossAdjoint(Gross(net, rate), net, rate);
    GrossAdjoint(Gross(net, rate), net + 1, rate);
    GrossStrict(net, rate);
  }

  /** Grossing up leaves a positive amount positive and zero zero. */
  lemma GrossPositive(net: nat, rate: nat)
    requires rate < FEE_RATE_DENOMINATOR
    ensures Gross(net, rate) > 0 <==> net > 0
    ensures Gross(net, rate) >= net
  {
    TimesIs(net, FEE_RATE_DENOMINATOR);
    CeilPositive(net * FEE_RATE_DENOMINATOR, FEE_RATE_DENOMINATOR - rate);
    GrossAdjoint(Gross(net, rate), net, rate);
    NetNonNegative(Gross(net, rate), rate);
  }
}
