/** Fees and curve together: the two swap calculations, their exact values, the bounds on the
    constant product, and the adjunction between them. */
module Calculator {
  import opened Checked
  import opened Rounding
  import opened Fees
  import opened ConstantProduct

  datatype SwapResult = SwapResult(
    newSource: u128,
    newDestination: u128,
    sourceSwapped: u128,
    destinationSwapped: u128,
    tradeFee: u128,
    protocolFee: u128,
    fundFee: u128)

  datatype Rates = Rates(trade: u64, protocol: u64, fund: u64) {
    /** The bounds that the configuration keeps. */
    predicate Valid() {
      && trade < FEE_RATE_DENOMINATOR
      && protocol <= FEE_RATE_DENOMINATOR
      && fund <= FEE_RATE_DENOMINATOR
      && protocol + fund <= FEE_RATE_DENOMINATOR
    }
  }

  function ValidateSupply(token0: u64, token1: u64): Check {
    Require(token0 != 0 && token1 != 0, EmptySupply)
  }

  /** The trade fee on a source amount and the two shares cut from it. */
  datatype Charges = Charges(trade: u128, protocol: u128, fund: u128)

  function ChargesOn(sourceAmount: u128, rates: Rates): Result<Charges> {
    var tradeFee :- TradingFee(sourceAmount, rates.trade);
    var protocolFee :- ProtocolFee(tradeFee, rates.protocol);
    var fundFee :- FundFee(tradeFee, rates.fund);
    Ok(Charges(tradeFee, protocolFee, fundFee))
  }

  function SwapBaseInput(sourceAmount: u128, swapSource: u128, swapDestination: u128, rates: Rates)
    : Result<SwapResult>
  {
    var c :- ChargesOn(sourceAmount, rates);
    var lessFees :- CheckedSub(sourceAmount, c.trade);
    var destination :- SwapBaseInputWithoutFees(lessFees, swapSource, swapDestination);
    var newSource :- CheckedAdd(swapSource, sourceAmount);
    var newDestination :- CheckedSub(swapDestination, destination);
    Ok(SwapResult(newSource, newDestination, sourceAmount, destination, c.trade, c.protocol, c.fund))
  }

  function SwapBaseOutput(destinationAmount: u128, swapSource: u128, swapDestination: u128, rates: Rates)
    : Result<SwapResult>
  {
    var sourceSwapped :- SwapBaseOutputWithoutFees(destinationAmount, swapSource, swapDestination);
    var sourceAmount :- CalculatePreFeeAmount(sourceSwapped, rates.trade).Unwrap();
    var c :- ChargesOn(sourceAmount, rates);
    var newSource :- CheckedAdd(swapSource, sourceAmount);
    var newDestination :- CheckedSub(swapDestination, destinationAmount);
    Ok(SwapResult(newSource, newDestination, sourceAmount, destinationAmount, c.trade, c.protocol, c.fund))
  }

  /** The constant product after the swap, the trade fee left aside. */
  function ConstantAfter(r: SwapResult): Result<u128> {
    var source :- CheckedSub(r.newSource, r.tradeFee).Unwrap();
    CheckedMul(source, r.newDestination).Unwrap()
  }

  /** r is the result of a swap of s for out against (x, y), with exact fees. */
  ghost predicate Priced(r: SwapResult, s: nat, out: nat, x: nat, y: nat, rates: Rates) {
    && r.newSource == x + s
    && r.newDestination == y - out
    && r.sourceSwapped == s
    && r.destinationSwapped == out
    && r.tradeFee == Fee(s, rates.trade)
    && r.protocolFee == Share(r.tradeFee, rates.protocol)
    && r.fundFee == Share(r.tradeFee, rates.fund)
  }

  /** Charges that are computed at all are exact, and on u64 amounts they always are. */
  lemma ChargesValue(s: u128, rates: Rates)
    requires rates.Valid() && (s <= U64_MAX || ChargesOn(s, rates).Ok?)
    ensures ChargesOn(s, rates).Ok?
    ensures var c := ChargesOn(s, rates).value;
            && c.trade == Fee(s, rates.trade)
            && c.protocol == Share(c.trade, rates.protocol)
            && c.fund == Share(c.trade, rates.fund)
    ensures 0 <= Net(s, rates.trade) <= s
  {
    NetNonNegative(s, rates.trade);
    if s <= U64_MAX {
      TradingFeeValue(s, rates.trade);
      ShareValue(Fee(s, rates.trade), rates.protocol);
      ShareValue(Fee(s, rates.trade), rates.fund);
    } else {
      TradingFeeWhenOk(s, rates.trade);
    }
  }

  /** An exact-input swap of u64 amounts against a nonempty source reserve always has a result,
      and this is it. */
  lemma InputResult(s: u64, x: u64, y: u64, rates: Rates)
    requires rates.Valid() && x > 0
    ensures 0 <= Net(s, rates.trade) <= s
    ensures SwapBaseInput(s, x, y, rates).Ok?
    ensures Priced(SwapBaseInput(s, x, y, rates).value, s, AmountOut(Net(s, rates.trade), x, y), x, y, rates)
    ensures AmountOut(Net(s, rates.trade), x, y) <= y
  {
    ChargesValue(s, rates);
    InputValue(Net(s, rates.trade), x, y);
  }

  /** An exact-output swap that has a result and a positive source amount is charged the true
      ceiling x * dy / (y - dy), grossed up exactly. */
  lemma OutputResult(dy: u64, x: u64, y: u64, rates: Rates)
    requires rates.Valid()
    requires SwapBaseOutput(dy, x, y, rates).Ok?
    ensures dy < y
    ensures var r := SwapBaseOutput(dy, x, y, rates).value;
            && Priced(r, r.sourceSwapped, dy, x, y, rates)
            && (r.sourceSwapped == 0 <==> 2 * Times(x, dy) < y - dy)
            && (r.sourceSwapped > 0 ==>
                  && r.sourceSwapped == Gross(AmountIn(dy, x, y), rates.trade)
                  && Net(r.sourceSwapped, rates.trade) == AmountIn(dy, x, y)
                  && AmountIn(dy, x, y) > 0)
            && (r.sourceSwapped == 0 ==> r.tradeFee == 0)
  {
    OutputValue(dy, x, y);
    var source := SwapBaseOutputWithoutFees(dy, x, y).value;
    GrossUpExactAndLeast(source, rates.trade);
    GrossPositive(source, rates.trade);
    ChargesValue(Gross(source, rates.trade), rates);
  }

  /** When an exact-output swap can be priced: it has a result with a positive u64 source amount
      exactly when dy leaves some destination, the wanted product is at least half of what it
      leaves, and the grossed-up ceiling fits.  The second condition is the small-dividend case
      of the ceiling division: below it the price is rounded to nothing. */
  lemma OutputPriceable(dy: u64, x: u64, y: u64, rates: Rates)
    requires rates.Valid()
    ensures dy < y && 2 * Times(x, dy) >= y - dy && Gross(AmountIn(dy, x, y), rates.trade) <= U64_MAX
       <==> && SwapBaseOutput(dy, x, y, rates).Ok?
            && 0 < SwapBaseOutput(dy, x, y, rates).value.sourceSwapped <= U64_MAX
  {
    if dy < y && 2 * Times(x, dy) >= y - dy && Gross(AmountIn(dy, x, y), rates.trade) <= U64_MAX {
      OutputHasResult(dy, x, y, rates);
    } else if SwapBaseOutput(dy, x, y, rates).Ok? {
      OutputResult(dy, x, y, rates);
    }
  }

  lemma OutputHasResult(dy: u64, x: u64, y: u64, rates: Rates)
    requires rates.Valid()
    requires dy < y && 2 * Times(x, dy) >= y - dy && Gross(AmountIn(dy, x, y), rates.trade) <= U64_MAX
    ensures SwapBaseOutput(dy, x, y, rates).Ok?
    ensures 0 < SwapBaseOutput(dy, x, y, rates).value.sourceSwapped <= U64_MAX
  {
    var net := AmountIn(dy, x, y);
    var gross := Gross(net, rates.trade);
    ProductFits(x, dy);
    CurvePriceComputed(dy, x, y);
    GrossPositive(net, rates.trade);
    PreFeeComputed(net, rates.trade);
    GrossUpExactAndLeast(net, rates.trade);
    ChargesValue(gross, rates);
  }

  /** Tight bound for exact input: the constant never falls, rises by less than the new source
      reserve, and always fits 128 bits, so neither the checked multiplication nor the final
      comparison of the handler can fail. */
  lemma InputConstantBound(s: u64, x: u64, y: u64, rates: Rates)
    requires rates.Valid() && x > 0
    ensures SwapBaseInput(s, x, y, rates).Ok?
    ensures var after := ConstantAfter(SwapBaseInput(s, x, y, rates).value);
            && after.Ok?
            && Times(x, y) <= after.value <= Times(x, y) + x + Net(s, rates.trade) - 1
  {
    InputResult(s, x, y, rates);
    InputConstant(SwapBaseInput(s, x, y, rates).value, Net(s, rates.trade), x, y);
  }

  /** The constant that a result leaves when n of its input count. */
  lemma InputConstant(r: SwapResult, n: nat, x: u64, y: u64)
    requires 0 < x && n <= U64_MAX
    requires r.newSource - r.tradeFee == x + n && r.newDestination == y - AmountOut(n, x, y)
    ensures var after := ConstantAfter(r);
            && after == Ok(Times(x + n, y - AmountOut(n, x, y)))
            && Times(x, y) <= after.value <= Times(x, y) + x + n - 1
  {
    InputProduct(n, x, y);
    ProductFits(x, y);
    ConstantComputed(r, x + n, y - AmountOut(n, x, y));
  }

  /** The constant of a result, from the reserves it leaves. */
  lemma ConstantComputed(r: SwapResult, source: nat, destination: nat)
    requires r.newSource - r.tradeFee == source && r.newDestination == destination
    requires source <= U128_MAX && Times(source, destination) <= U128_MAX
    ensures ConstantAfter(r) == Ok(Times(source, destination))
  {
  }

  /** Tight bound for exact output: the product never overflows, and with a positive source
      amount it never falls and rises by less than the remaining destination. */
  lemma OutputConstantBound(dy: u64, x: u64, y: u64, rates: Rates)
    requires rates.Valid()
    requires SwapBaseOutput(dy, x, y, rates).Ok?
    ensures var r := SwapBaseOutput(dy, x, y, rates).value;
            var after := ConstantAfter(r);
            && after.Ok?
            && (r.sourceSwapped > 0 ==> Times(x, y) <= after.value <= Times(x, y) + y - dy - 1)
  {
    OutputResult(dy, x, y, rates);
    OutputConstant(SwapBaseOutput(dy, x, y, rates).value, dy, x, y, rates);
  }

  lemma OutputConstant(r: SwapResult, dy: u64, x: u64, y: u64, rates: Rates)
    requires dy < y && Priced(r, r.sourceSwapped, dy, x, y, rates)
    requires r.sourceSwapped == 0 ==> r.tradeFee == 0
    requires r.sourceSwapped > 0 ==> Net(r.sourceSwapped, rates.trade) == AmountIn(dy, x, y)
    ensures var after := ConstantAfter(r);
            && after == Ok(Times(r.newSource - r.tradeFee, y - dy))
            && (r.sourceSwapped > 0 ==> Times(x, y) <= after.value <= Times(x, y) + y - dy - 1)
  {
    ProductFits(x, y);
    if r.sourceSwapped > 0 {
      OutputProduct(dy, x, y);
      ConstantComputed(r, x + AmountIn(dy, x, y), y - dy);
    } else {
      ProductShrinks(x, y, dy);
      ConstantComputed(r, x, y - dy);
    }
  }

  lemma ProductShrinks(x: nat, y: nat, dy: nat)
    requires dy <= y
    ensures 0 <= Times(x, y - dy) <= Times(x, y)
  {
    TimesMono(x, y - dy, x, y);
  }

  /** All that a handler asks of an exact-input swap. */
  lemma InputAnswer(s: u64, x: u64, y: u64, rates: Rates)
    requires rates.Valid() && x > 0
    ensures 0 <= Net(s, rates.trade)
    ensures SwapBaseInput(s, x, y, rates).Ok?
    ensures var r := SwapBaseInput(s, x, y, rates).value;
            && ConstantAfter(r).Ok?
            && r.sourceSwapped == s
            && r.destinationSwapped == AmountOut(Net(s, rates.trade), x, y) <= y
  {
    InputResult(s, x, y, rates);
    InputConstantBound(s, x, y, rates);
  }

  /** How an exact-output swap fails, and that it is for the amount asked for. */
  lemma OutputErrors(dy: u128, x: u128, y: u128, rates: Rates)
    ensures var r := SwapBaseOutput(dy, x, y, rates);
            && (r.Ok? ==> r.value.destinationSwapped == dy)
            && (r.Err? ==> r.error == NoValue || r.error == Panic)
  {
  }

  /** All that a handler asks of a priced exact-output swap. */
  lemma OutputOutcome(dy: u64, x: u64, y: u64, rates: Rates)
    requires rates.Valid()
    ensures var r := SwapBaseOutput(dy, x, y, rates);
            var priced := dy < y && 2 * Times(x, dy) >= y - dy && Gross(AmountIn(dy, x, y), rates.trade) <= U64_MAX;
            && (priced <==> r.Ok? && 0 < r.value.sourceSwapped <= U64_MAX)
            && (priced ==> r.value.sourceSwapped == Gross(AmountIn(dy, x, y), rates.trade))
            && (r.Ok? ==> ConstantAfter(r.value).Ok? && r.value.destinationSwapped == dy)
  {
    OutputPriceable(dy, x, y, rates);
    if SwapBaseOutput(dy, x, y, rates).Ok? {
      OutputResult(dy, x, y, rates);
      OutputConstantBound(dy, x, y, rates);
    }
  }

  /** Below half of what it leaves the wanted product is priced at zero. */
  lemma PricedAtZero(dy: u64, x: u64, y: u64, rates: Rates)
    requires rates.Valid() && dy < y && 2 * Times(x, dy) < y - dy
    ensures SwapBaseOutput(dy, x, y, rates).Ok?
    ensures SwapBaseOutput(dy, x, y, rates).value.sourceSwapped == 0
  {
    CurvePricesAtZero(dy, x, y);
    NothingGrossedUp(SwapBaseOutputWithoutFees(dy, x, y).value, rates);
  }

  lemma CurvePricesAtZero(dy: u64, x: u64, y: u64)
    requires dy < y && 2 * Times(x, dy) < y - dy
    ensures SwapBaseOutputWithoutFees(dy, x, y) == Ok(0)
  {
    ProductFits(x, dy);
  }

  lemma NothingGrossedUp(source: u128, rates: Rates)
    requires rates.Valid() && source == 0
    ensures CalculatePreFeeAmount(source, rates.trade) == Ok(source)
    ensures ChargesOn(source, rates).Ok?
    ensures ChargesOn(source, rates).value.trade == 0
  {
    PreFeeComputed(source, rates.trade);
    GrossUpExactAndLeast(source, rates.trade);
    GrossPositive(source, rates.trade);
    ChargesValue(source, rates);
  }

  /** Nothing can be bought that leaves no destination. */
  lemma OutputTooMuch(dy: u64, x: u64, y: u64, rates: Rates)
    requires dy >= y
    ensures SwapBaseOutput(dy, x, y, rates) == Err(Panic)
  {
    ProductFits(x, dy);
  }

  /** Exact-input and exact-output swaps are adjoint, fees included: if dy costs a positive P
      then paying s yields at least dy exactly when s >= P. */
  lemma SwapAdjunction(s: u64, dy: u64, x: u64, y: u64, rates: Rates)
    requires rates.Valid() && x > 0
    requires SwapBaseOutput(dy, x, y, rates).Ok?
    requires SwapBaseOutput(dy, x, y, rates).value.sourceSwapped > 0
    ensures SwapBaseInput(s, x, y, rates).Ok?
    ensures SwapBaseInput(s, x, y, rates).value.destinationSwapped >= dy
       <==> s >= SwapBaseOutput(dy, x, y, rates).value.sourceSwapped
  {
    InputResult(s, x, y, rates);
    OutputResult(dy, x, y, rates);
    CurveAdjoint(Net(s, rates.trade), dy, x, y);
    GrossAdjoint(s, AmountIn(dy, x, y), rates.trade);
  }
}
