/** The constant-product curve x * y = k and the value of pool tokens. */
module ConstantProduct {
  import opened Checked
  import opened Rounding
  import Math

  datatype RoundDirection = RoundDown | RoundUp

  datatype TradingTokens = TradingTokens(token0: u128, token1: u128)

  function SwapBaseInputWithoutFees(sourceAmount: u128, swapSource: u128, swapDestination: u128): Result<u128> {
    var numerator :- CheckedMul(sourceAmount, swapDestination).Unwrap();
    var denominator :- CheckedAdd(swapSource, sourceAmount).Unwrap();
    CheckedDiv(numerator, denominator).Unwrap()
  }

  function SwapBaseOutputWithoutFees(destinationAmount: u128, swapSource: u128, swapDestination: u128): Result<u128> {
    var numerator :- CheckedMul(swapSource, destinationAmount).Unwrap();
    var denominator :- CheckedSub(swapDestination, destinationAmount).Unwrap();
    var quotient :- Math.CeilDivResult(numerator, denominator).Unwrap();
    Ok(quotient.0)
  }

  /** What n units of source, after fees, buy from reserves (x, y). */
  ghost function AmountOut(n: nat, x: nat, y: nat): nat
    requires x + n > 0
  {
    Floor(Times(n, y), x + n)
  }

  /** The least source amount, after fees, that buys dy. */
  ghost function AmountIn(dy: nat, x: nat, y: nat): nat
    requires dy < y
  {
    Ceil(Times(x, dy), y - dy)
  }

  /** On u64 amounts the exact-input formula is computed without overflow. */
  lemma InputValue(n: u64, x: u64, y: u64)
    requires x + n > 0
    ensures SwapBaseInputWithoutFees(n, x, y) == Ok(AmountOut(n, x, y))
    ensures AmountOut(n, x, y) <= y
  {
    ProductFits(n, y);
    InputProduct(n, x, y);
  }

  lemma ProductFits(a: u64, b: u64)
    ensures 0 <= Times(a, b) <= U128_MAX - 2 * U64_MAX
  {
    TimesIs(a, b);
    ProductsOrdered(a, b, 0xFFFF_FFFF_FFFF_FFFF, 0xFFFF_FFFF_FFFF_FFFF);
  }

  /** A nonzero answer of the exact-output formula is the true ceiling; the answer 0 with a
      positive wanted product only comes from the small-dividend case of the division. */
  lemma OutputValue(dy: u128, x: u128, y: u128)
    requires SwapBaseOutputWithoutFees(dy, x, y).Ok?
    ensures dy < y
    ensures var source := SwapBaseOutputWithoutFees(dy, x, y).value;
            && (source > 0 ==> source == AmountIn(dy, x, y))
            && (source == 0 <==> 2 * Times(x, dy) < y - dy)
  {
    Math.SmallQuotientQuirk(Times(x, dy), y - dy);
  }

  /** On u64 amounts the exact-output formula gives the true ceiling whenever the wanted product is
      at least half of what it leaves. */
  lemma CurvePriceComputed(dy: u64, x: u64, y: u64)
    requires dy < y && 2 * Times(x, dy) >= y - dy
    ensures 0 < AmountIn(dy, x, y) <= U128_MAX
    ensures SwapBaseOutputWithoutFees(dy, x, y) == Ok(AmountIn(dy, x, y))
  {
    var n, d := Times(x, dy), y - dy;
    ProductFits(x, dy);
    CeilPositive(n, d);
    if n < d {
      CeilAdjoint(n, d, 1);
    } else {
      Math.LeastDivisor(n, d);
    }
  }

  /** Buying and paying are adjoint on the curve: n units buy at least dy exactly when n reaches
      the ceiling price of dy. */
  lemma CurveAdjoint(n: nat, dy: nat, x: nat, y: nat)
    requires x + n > 0 && dy < y
    ensures dy <= AmountOut(n, x, y) <==> AmountIn(dy, x, y) <= n
  {
    TimesIs(n, y);
    TimesIs(x, dy);
    FloorAdjoint(n * y, x + n, dy);
    CeilAdjoint(x * dy, y - dy, n);
    assert dy * (x + n) == x * dy + dy * n;
    assert n * (y - dy) == n * y - dy * n;
  }

  /** The product after an exact-input move exceeds the old product by a division remainder. */
  lemma InputProduct(n: nat, x: nat, y: nat)
    requires x + n > 0
    ensures AmountOut(n, x, y) <= y
    ensures Times(x, y) <= Times(x + n, y - AmountOut(n, x, y)) <= Times(x, y) + x + n - 1
  {
    var out := AmountOut(n, x, y);
    TimesIs(n, y);
    FloorBounds(n * y, x + n);
    FloorAdjoint(n * y, x + n, y + 1);
    InputArithmetic(n, x, y, out);
    TimesIs(x, y);
    TimesIs(x + n, y - out);
  }

  lemma InputArithmetic(n: nat, x: nat, y: nat, out: int)
    requires out * (x + n) <= n * y < out * (x + n) + (x + n)
    ensures x * y <= (x + n) * (y - out) <= x * y + x + n - 1
    ensures (y + 1) * (x + n) > n * y
  {
    assert (x + n) * (y - out) == x * y + n * y - out * (x + n);
    assert (y + 1) * (x + n) == n * y + y * x + (x + n);
    MulMono(0, y, x);
  }

  /** The product after an exact-output move exceeds the old product by less than the remaining
      destination. */
  lemma OutputProduct(dy: nat, x: nat, y: nat)
    requires dy < y
    ensures Times(x, y) <= Times(x + AmountIn(dy, x, y), y - dy) <= Times(x, y) + y - dy - 1
  {
    var n := AmountIn(dy, x, y);
    TimesIs(x, dy);
    CeilBounds(x * dy, y - dy);
    OutputArithmetic(dy, x, y, n);
    TimesIs(x, y);
    TimesIs(x + n, y - dy);
  }

  lemma OutputArithmetic(dy: nat, x: nat, y: nat, n: nat)
    requires dy < y
    requires x * dy <= n * (y - dy) < x * dy + (y - dy)
    ensures x * y <= (x + n) * (y - dy) <= x * y + y - dy - 1
  {
    assert (x + n) * (y - dy) == x * y - x * dy + n * (y - dy);
  }

  /** A quotient rounded as asked, except that rounding up is withheld when the floor is zero. */
  function Rounded(product: nat, supply: nat, direction: RoundDirection): (tokens: nat)
    requires supply > 0
    ensures tokens <= product
  {
    if direction == RoundUp && product >= supply then Ceil(product, supply) else Floor(product, supply)
  }

  /** One side of a pool-token conversion. */
  function TokensFor(lp: u128, supply: u128, reserve: u128, direction: RoundDirection): Result<u128> {
    var product :- CheckedMul(lp, reserve);
    if supply == 0 then Err(NoValue) else Ok(Rounded(product, supply, direction))
  }

  /** Both sides; the first failure decides. */
  function TradingTokensFor(lp: u128, supply: u128, reserve0: u128, reserve1: u128, direction: RoundDirection)
    : Result<TradingTokens>
  {
    var token0 :- TokensFor(lp, supply, reserve0, direction);
    var token1 :- TokensFor(lp, supply, reserve1, direction);
    Ok(TradingTokens(token0, token1))
  }

  method LpTokensToTradingTokens(lp: u128, supply: u128, reserve0: u128, reserve1: u128, direction: RoundDirection)
    returns (r: Result<TradingTokens>)
    ensures r == TradingTokensFor(lp, supply, reserve0, reserve1, direction)
  {
    var product0 :- CheckedMul(lp, reserve0);
    var token0 :- CheckedDiv(product0, supply);
    var product1 :- CheckedMul(lp, reserve1);
    RoundingParts(product0, supply);
    RoundingParts(product1, supply);
    var token1 := product1 / supply;
    if direction == RoundUp {
      var remainder0 := product0 % supply;
      if remainder0 > 0 && token0 > 0 {
        token0 := token0 + 1;
      }
      var remainder1 := product1 % supply;
      if remainder1 > 0 && token1 > 0 {
        token1 := token1 + 1;
      }
    }
    return Ok(TradingTokens(token0, token1));
  }

  /** Rounding as the source does it: the floor, plus one when asked to round up a nonzero
      floor that leaves a remainder. */
  lemma RoundingParts(product: nat, supply: nat)
    requires supply > 0
    ensures product / supply == Floor(product, supply) && product % supply == Remainder(product, supply)
    ensures Rounded(product, supply, RoundDown) == Floor(product, supply)
    ensures Rounded(product, supply, RoundUp)
         == Floor(product, supply) + if product % supply > 0 && Floor(product, supply) > 0 then 1 else 0
  {
    FloorIs(product, supply);
    Math.CeilOfParts(product, supply);
    CeilPositive(product, supply);
  }

  /** A nonzero answer rounded up is a true ceiling, rounded down a true floor, and a zero answer
      means the exact value is below one. */
  lemma TokensForValue(lp: u128, supply: u128, reserve: u128, direction: RoundDirection)
    requires TokensFor(lp, supply, reserve, direction).Ok?
    ensures supply > 0
    ensures var tokens, exact := TokensFor(lp, supply, reserve, direction).value, Times(lp, reserve);
            && (tokens == 0 <==> exact < supply)
            && (direction == RoundDown ==> Times(tokens, supply) <= exact < Times(tokens, supply) + supply)
            && (direction == RoundUp && tokens > 0 ==> exact <= Times(tokens, supply) < exact + supply)
  {
    var product := Times(lp, reserve);
    CeilPositive(product, supply);
    FloorBounds(product, supply);
    CeilBounds(product, supply);
    TimesIs(TokensFor(lp, supply, reserve, direction).value, supply);
  }
}
