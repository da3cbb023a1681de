/** Splitting a trade: swapping in parts through the real handlers never beats swapping once, neither
    for one who sells nor for one who buys. */
module Splitting {
  import opened Checked
  import opened Rounding
  import opened Tokens
  import opened ConstantProduct
  import opened Calculator
  import opened Pools
  import opened Transitions
  import opened Invariants
  import opened Acceptance
  import Fees

  /** A swap in the direction of a route, of an exact input or for an exact output.  A buyer's
      transaction also says what the token library answers as the two inverse fees. */
  datatype Trade =
    | Sell(now: u64, funds: u64, amountIn: u64, minimumOut: u64)
    | Buy(now: u64, funds: u64, maximumIn: u64, amountOut: u64, inverseIn: Option<u64>, inverseOut: Option<u64>)

  /** The direction of the trades and the two mints, with whatever transfer fees they have. */
  datatype Route = Route(inputVault: Token, outputVault: Token, inputMint: Mint, outputMint: Mint) {
    function Accounts(t: Trade): SwapAccounts {
      match t
      case Sell(now, funds, _, _) =>
        SwapAccounts(inputVault, outputVault, now, inputMint, outputMint, funds)
      case Buy(now, funds, _, _, inverseIn, inverseOut) =>
        SwapAccounts(inputVault, outputVault, now,
                     inputMint.Answering(inverseIn), outputMint.Answering(inverseOut), funds)
    }
  }

  function Swap(p: Pool, r: Route, t: Trade): Result<Outcome> {
    match t
    case Sell(_, _, amountIn, minimumOut) => SwapInput(p, r.Accounts(t), amountIn, minimumOut)
    case Buy(_, _, maximumIn, amountOut, _, _) => SwapOutput(p, r.Accounts(t), maximumIn, amountOut)
  }

  /** The pool that trades leave, and what they paid and received in total. */
  datatype Total = Total(pool: Pool, paid: nat, received: nat)

  /** The total of a first trade and the trades after it. */
  function TotalWith(r: Route, o: Outcome, after: Total): Total {
    Total(after.pool,
          o.receipt.users.paid.Of(r.inputVault) + after.paid,
          o.receipt.users.received.Of(r.outputVault) + after.received)
  }

  /** Swaps the trades one after another; all of them must be accepted. */
  function TradeAll(p: Pool, r: Route, trades: seq<Trade>): Result<Total>
    decreases |trades|
  {
    if trades == [] then Ok(Total(p, 0, 0))
    else
      var o :- Swap(p, r, trades[0]);
      var rest :- TradeAll(o.pool, r, trades[1..]);
      Ok(TotalWith(r, o, rest))
  }

  /** All of the trades are accepted, one after another, by a valid pool. */
  ghost predicate Accepted(p: Pool, r: Route, trades: seq<Trade>) {
    Inv(p) && TradeAll(p, r, trades).Ok?
  }

  // ---------- One trade ----------

  /** One accepted trade in numbers: sent leaves the trader, arrives in the vault less the transfer
      fee, and counts on the curve less the trade fee; left leaves the vault. */
  ghost predicate Traded(p: Pool, r: Route, o: Outcome, sent: u64, left: u64) {
    var x, y := p.Get(r.inputVault).Reserve(), p.Get(r.outputVault).Reserve();
    var net := Fees.Net(Delivered(r.inputMint, sent), p.config.rates.trade);
    && o.receipt.users.paid.Of(r.inputVault) == sent && Delivered(r.inputMint, sent) > 0
    && o.receipt.users.received.Of(r.outputVault) == Delivered(r.outputMint, left) > 0
    && o.pool.config == p.config
    && o.pool.Get(r.inputVault).vault == p.Get(r.inputVault).vault + Delivered(r.inputMint, sent)
    && Grew(x, y, net, o.pool.Get(r.inputVault).Reserve(), o.pool.Get(r.outputVault).Reserve())
    && o.pool.Get(r.outputVault).Reserve() == y - left
  }

  /** From reserves (x, y) to (x', y') with net input n. */
  ghost predicate Grew(x: int, y: int, n: int, x': int, y': int) {
    && x > 0 && n >= 0 && x' >= x + n
    && 0 <= y' <= y
    && Times(x + n, y') >= Times(x, y)
  }

  lemma QuoteTraded(p: Pool, r: Route, t: Trade, q: Quote, o: Outcome)
    requires Fair(p, r.Accounts(t), q) && Exact(p, r.Accounts(t), q)
    requires Swapped(p, r.Accounts(t), q, o.pool) && ReservesMoved(r.Accounts(t), q, o.pool)
    requires o.receipt == SwapReceipt(r.Accounts(t), q)
    ensures Traded(p, r, o, q.sendIn, q.sendOut)
  {
  }

  /** The smallest sale that pays anything pays enough for the same output to have a price. */
  lemma SalePriceable(n: nat, x: nat, y: nat, out: nat)
    requires x > 0 && out > 0 && out == AmountOut(n, x, y)
    ensures 2 * Times(x, out) >= y - out
  {
    TimesIs(n, y);
    TimesIs(x, out);
    FloorBounds(n * y, x + n);
    SaleArithmetic(n, x, y, out);
  }

  lemma SaleArithmetic(n: nat, x: nat, y: nat, out: nat)
    requires x > 0 && out > 0
    requires out * (x + n) <= n * y < out * (x + n) + (x + n)
    ensures 2 * (x * out) >= y - out
  {
    assert n * y - out * n - n == n * (y - out - 1);
    assert n * (y - out - 1) < x * out + x;
    if y - out - 1 > 0 {
      assert n > 0;
      MulMono(1, n, y - out - 1);
    }
    MulMono(1, out, x);
  }

  /** An accepted trade in numbers; what it bought could be priced. */
  lemma TradeNumbers(p: Pool, r: Route, t: Trade) returns (sent: u64, left: u64)
    requires Inv(p) && Swap(p, r, t).Ok?
    ensures Traded(p, r, Swap(p, r, t).value, sent, left)
    ensures Inv(Swap(p, r, t).value.pool)
    ensures 2 * Times(p.Get(r.inputVault).Reserve(), left) >= p.Get(r.outputVault).Reserve() - left
  {
    var q := QuoteOf(p, r, t);
    SettleBooks(p, r.Accounts(t), q);
    SettleSafe(p, r.Accounts(t), q);
    QuoteTraded(p, r, t, q, Settle(p, r.Accounts(t), q).value);
    sent, left := q.sendIn, q.sendOut;
  }

  /** The quote behind an accepted trade. */
  lemma QuoteOf(p: Pool, r: Route, t: Trade) returns (q: Quote)
    requires Inv(p) && Swap(p, r, t).Ok?
    ensures Swap(p, r, t) == Settle(p, r.Accounts(t), q)
    ensures Fair(p, r.Accounts(t), q) && Exact(p, r.Accounts(t), q)
    ensures 2 * Times(q.reserves.x, q.sendOut) >= q.reserves.y - q.sendOut
  {
    var a := r.Accounts(t);
    match t
    case Sell(_, _, amountIn, minimumOut) =>
      q := QuoteInput(p, a, amountIn, minimumOut).value;
      QuoteInputFair(p, a, amountIn, minimumOut);
      SalePriceable(Fees.Net(Delivered(a.inputMint, amountIn), p.config.rates.trade),
                    q.reserves.x, q.reserves.y, q.sendOut);
    case Buy(_, _, maximumIn, amountOut, _, _) =>
      q := QuoteOutput(p, a, maximumIn, amountOut).value;
      QuoteOutputFair(p, a, maximumIn, amountOut);
      QuoteOutputParts(p, a, maximumIn, amountOut);
      OutputResult(q.sendOut, q.reserves.x, q.reserves.y, p.config.rates);
  }

  // ---------- Many trades ----------

  /** Against a virtual input reserve v no larger than the real one, the virtual product never
      falls in one trade. */
  lemma VirtualStep(x: nat, y: nat, n: nat, y': nat, v: nat, v': nat)
    requires v <= x && v' == v + n && y' <= y
    requires Times(x + n, y') >= Times(x, y)
    ensures Times(v', y') >= Times(v, y)
  {
    TimesIs(x + n, y');
    TimesIs(x, y);
    TimesIs(v', y');
    TimesIs(v, y);
    VirtualArithmetic(x, y, n, y', v);
  }

  lemma VirtualArithmetic(x: nat, y: nat, n: nat, y': nat, v: nat)
    requires v <= x && y' <= y
    requires (x + n) * y' >= x * y
    ensures (v + n) * y' >= v * y
  {
    assert (v + n) * y' == (x + n) * y' - (x - v) * y';
    assert v * y == x * y - (x - v) * y;
    assert (x - v) * (y - y') >= 0;
    assert (x - v) * (y - y') == (x - v) * y - (x - v) * y';
  }

  /** A list of trades in numbers: what arrived in the vault, what left the other one, and the
      virtual input reserve and the output reserve that they end at. */
  datatype Sums = Sums(arrived: nat, left: nat, reached: nat, last: nat)

  /** The curve's side of the sums, from a virtual input reserve v on. */
  ghost predicate OnCurve(p: Pool, r: Route, after: Pool, v: nat, s: Sums) {
    var y := p.Get(r.outputVault).Reserve();
    && s.last == after.Get(r.outputVault).Reserve() == y - s.left
    && after.Get(r.inputVault).vault == p.Get(r.inputVault).vault + s.arrived
    && Times(s.reached, s.last) >= Times(v, y)
    && 0 <= s.reached - v <= Fees.Net(s.arrived, p.config.rates.trade)
  }

  /** The traders' side: what they paid would arrive together at least, and what left would, together,
      be worth at least what they received. */
  ghost predicate Carried(r: Route, total: Total, s: Sums) {
    && (total.paid <= U64_MAX ==> s.arrived <= Delivered(r.inputMint, total.paid))
    && (s.left <= U64_MAX ==> total.received <= Delivered(r.outputMint, s.left))
    && (r.inputMint.Free() ==> s.arrived == total.paid)
    && (r.outputMint.Free() ==> s.left == total.received)
  }

  ghost predicate Summed(p: Pool, r: Route, total: Total, v: nat, s: Sums) {
    Inv(total.pool) && OnCurve(p, r, total.pool, v, s) && Carried(r, total, s)
  }

  /** Something was paid, and even least, a part of what was bought for it, has a price. */
  ghost predicate Worth(p: Pool, r: Route, total: Total, s: Sums, least: u64) {
    && s.arrived > 0 && total.received > 0
    && least <= s.left && Delivered(r.outputMint, least) <= total.received
    && 2 * Times(p.Get(r.inputVault).Reserve(), least) >= p.Get(r.outputVault).Reserve() - least
  }

  /** The first of some accepted trades and the rest after it. */
  lemma FirstTrade(p: Pool, r: Route, trades: seq<Trade>) returns (o: Outcome, sent: u64, left: u64)
    requires Accepted(p, r, trades) && trades != []
    ensures Traded(p, r, o, sent, left)
    ensures 2 * Times(p.Get(r.inputVault).Reserve(), left) >= p.Get(r.outputVault).Reserve() - left
    ensures Accepted(o.pool, r, trades[1..])
    ensures TradeAll(p, r, trades).value == TotalWith(r, o, TradeAll(o.pool, r, trades[1..]).value)
  {
    o := Swap(p, r, trades[0]).value;
    sent, left := TradeNumbers(p, r, trades[0]);
  }

  lemma {:induction false} TradeSums(p: Pool, r: Route, trades: seq<Trade>, v: nat)
    returns (s: Sums, least: u64)
    requires Accepted(p, r, trades) && v <= p.Get(r.inputVault).Reserve()
    ensures Summed(p, r, TradeAll(p, r, trades).value, v, s)
    ensures trades != [] ==> Worth(p, r, TradeAll(p, r, trades).value, s, least)
    decreases |trades|
  {
    if trades == [] {
      s, least := Sums(0, 0, v, p.Get(r.outputVault).Reserve()), 0;
      Fees.NetNonNegative(0, p.config.rates.trade);
    } else {
      var o, sent, left := FirstTrade(p, r, trades);
      var next := v + Fees.Net(Delivered(r.inputMint, sent), p.config.rates.trade);
      var rest, _ := TradeSums(o.pool, r, trades[1..], next);
      s, least := rest.(arrived := Delivered(r.inputMint, sent) + rest.arrived, left := left + rest.left), left;
      AddTrade(p, r, o, sent, left, TradeAll(o.pool, r, trades[1..]).value, v, next, rest);
    }
  }

  /** What a first trade adds to the trades after it. */
  lemma AddTrade(p: Pool, r: Route, o: Outcome, sent: u64, left: u64, after: Total, v: nat, next: nat, rest: Sums)
    requires p.config.rates.Valid() && v <= p.Get(r.inputVault).Reserve()
    requires Traded(p, r, o, sent, left)
    requires 2 * Times(p.Get(r.inputVault).Reserve(), left) >= p.Get(r.outputVault).Reserve() - left
    requires next == v + Fees.Net(Delivered(r.inputMint, sent), p.config.rates.trade)
    requires Summed(o.pool, r, after, next, rest)
    ensures var s := rest.(arrived := Delivered(r.inputMint, sent) + rest.arrived, left := left + rest.left);
            Summed(p, r, TotalWith(r, o, after), v, s) && Worth(p, r, TotalWith(r, o, after), s, left)
  {
    AddToCurve(p, r, o, sent, left, after.pool, v, next, rest);
    AddToCarried(r, sent, left, after, rest);
  }

  lemma AddToCurve(p: Pool, r: Route, o: Outcome, sent: u64, left: u64, after: Pool, v: nat, next: nat, rest: Sums)
    requires p.config.rates.Valid() && v <= p.Get(r.inputVault).Reserve()
    requires Traded(p, r, o, sent, left)
    requires next == v + Fees.Net(Delivered(r.inputMint, sent), p.config.rates.trade)
    requires OnCurve(o.pool, r, after, next, rest)
    ensures var s := rest.(arrived := Delivered(r.inputMint, sent) + rest.arrived, left := left + rest.left);
            OnCurve(p, r, after, v, s)
  {
    var x, y := p.Get(r.inputVault).Reserve(), p.Get(r.outputVault).Reserve();
    VirtualStep(x, y, next - v, o.pool.Get(r.outputVault).Reserve(), v, next);
    Fees.NetSuperadditive(Delivered(r.inputMint, sent), rest.arrived, p.config.rates.trade);
  }

  lemma AddToCarried(r: Route, sent: u64, left: u64, after: Total, rest: Sums)
    requires Carried(r, after, rest)
    ensures Carried(r,
                    after.(paid := sent + after.paid, received := Delivered(r.outputMint, left) + after.received),
                    rest.(arrived := Delivered(r.inputMint, sent) + rest.arrived, left := left + rest.left))
  {
    if sent + after.paid <= U64_MAX {
      DeliveredSuperadditive(r.inputMint, sent, after.paid);
    }
    if left + rest.left <= U64_MAX {
      DeliveredSuperadditive(r.outputMint, left, rest.left);
    }
  }

  // ---------- One trade instead ----------

  /** What a route needs of the pool at a time. */
  ghost predicate OpenAt(p: Pool, r: Route, now: u64) {
    p.Enabled(SwapFeature) && now >= p.openTime && r.inputVault != r.outputVault && OracleReady(p, now)
  }

  lemma TradeOpen(p: Pool, r: Route, t: Trade)
    requires Inv(p) && Swap(p, r, t).Ok?
    ensures OpenAt(p, r, t.now)
  {
    match t
    case Sell(_, _, amountIn, minimumOut) => SwapInputAcceptedIff(p, r.Accounts(t), amountIn, minimumOut);
    case Buy(_, _, maximumIn, amountOut, _, _) => SwapOutputAcceptedIff(p, r.Accounts(t), maximumIn, amountOut);
  }

  /** What leaves at least the old product behind is within what the curve pays. */
  lemma CurvePays(w: nat, net: nat, x: nat, y: nat, last: nat)
    requires w <= x + net && last <= y && x > 0
    requires Times(w, last) >= Times(x, y)
    ensures y - last <= AmountOut(net, x, y)
  {
    TimesMono(w, last, x + net, last);
    TimesIs(x + net, last);
    TimesIs(x, y);
    TimesIs(net, y);
    assert (x + net) * last == x * y + net * y - (y - last) * (x + net);
    FloorAdjoint(net * y, x + net, y - last);
  }

  lemma NetMonotone(a: nat, b: nat, rate: nat)
    requires a <= b && rate < Fees.FEE_RATE_DENOMINATOR
    ensures Fees.Net(a, rate) <= Fees.Net(b, rate)
  {
    Fees.NetSuperadditive(a, b - a, rate);
    Fees.NetNonNegative(b - a, rate);
  }

  /** One sale of everything that some trades paid, with what they received as its minimum. */
  function OneSale(trades: seq<Trade>, paid: u64, received: u64): Trade
    requires trades != []
  {
    Sell(trades[0].now, paid, paid, received)
  }

  /** The curve pays for everything at once at least what left in parts. */
  lemma CurveCovers(p: Pool, r: Route, total: Total, s: Sums)
    requires Inv(p) && total.paid <= U64_MAX
    requires p.Get(r.inputVault).Reserve() > 0 && p.Get(r.outputVault).Reserve() > 0
    requires Summed(p, r, total, p.Get(r.inputVault).Reserve(), s)
    ensures var net := Fees.Net(Delivered(r.inputMint, total.paid), p.config.rates.trade);
            && net >= 0
            && AmountOut(net, p.Get(r.inputVault).Reserve(), p.Get(r.outputVault).Reserve()) >= s.left
  {
    var rate, arrives := p.config.rates.trade, Delivered(r.inputMint, total.paid);
    Fees.NetNonNegative(arrives, rate);
    NetMonotone(s.arrived, arrives, rate);
    CurvePays(s.reached, Fees.Net(arrives, rate),
              p.Get(r.inputVault).Reserve(), p.Get(r.outputVault).Reserve(), s.last);
  }

  /** Selling everything at once reaches what the parts received. */
  lemma SalePays(p: Pool, r: Route, total: Total, t: Trade, s: Sums)
    requires Inv(p) && t.Sell? && total.paid <= U64_MAX && t.amountIn == total.paid
    requires p.Get(r.inputVault).Reserve() > 0 && p.Get(r.outputVault).Reserve() > 0
    requires Summed(p, r, total, p.Get(r.inputVault).Reserve(), s)
    ensures 0 <= InputPays(p, r.Accounts(t), t.amountIn) <= U64_MAX
    ensures Delivered(r.outputMint, InputPays(p, r.Accounts(t), t.amountIn)) >= total.received
  {
    CurveCovers(p, r, total, s);
    AskInputIff(p, r.Accounts(t), t.amountIn);
    DeliveredMonotone(r.outputMint, s.left, InputPays(p, r.Accounts(t), t.amountIn));
  }

  /** An accepted sale receives at least its minimum. */
  lemma SaleReachesMinimum(p: Pool, r: Route, t: Trade)
    requires Inv(p) && t.Sell? && Swap(p, r, t).Ok?
    ensures Swap(p, r, t).value.receipt.users.received.Of(r.outputVault) >= t.minimumOut
  {
    var q := QuoteInput(p, r.Accounts(t), t.amountIn, t.minimumOut).value;
    QuoteInputFair(p, r.Accounts(t), t.amountIn, t.minimumOut);
    SettleBooks(p, r.Accounts(t), q);
  }

  /** One sale in numbers: accepted exactly when there is room, and then paying enough. */
  lemma SaleAccepted(p: Pool, r: Route, total: Total, t: Trade, s: Sums)
    requires Inv(p) && t.Sell? && t.amountIn == t.funds == total.paid <= U64_MAX && t.minimumOut == total.received
    requires OpenAt(p, r, t.now)
    requires Summed(p, r, total, p.Get(r.inputVault).Reserve(), s)
    requires total.received > 0
    ensures Swap(p, r, t).Ok? <==> p.Get(r.inputVault).vault + Delivered(r.inputMint, total.paid) <= U64_MAX
    ensures Swap(p, r, t).Ok? ==> Swap(p, r, t).value.receipt.users.received.Of(r.outputVault) >= total.received
  {
    ReservesPositive(p);
    SalePays(p, r, total, t, s);
    SwapInputAcceptedIff(p, r.Accounts(t), t.amountIn, t.minimumOut);
    if Swap(p, r, t).Ok? {
      SaleReachesMinimum(p, r, t);
    }
  }

  /** Splitting never beats one sale, whatever transfer fees the two mints have: if a list of swaps
      in one direction is accepted one after another, then one sale of all that they paid, at the
      time of the first, is accepted and receives at least as much as they did, as long as the
      mint's supply covers the vault and what they paid, or the mint has no transfer fee.  Without
      either it is accepted exactly when the vault can hold what of it arrives. */
  lemma SplittingNeverBeatsOneTrade(p: Pool, r: Route, trades: seq<Trade>)
    requires trades != [] && Accepted(p, r, trades)
    ensures var total := TradeAll(p, r, trades).value;
            && total.received <= U64_MAX
            && (total.paid <= U64_MAX ==>
                  var one := Swap(p, r, OneSale(trades, total.paid, total.received));
                  && (one.Ok? <==> p.Get(r.inputVault).vault + Delivered(r.inputMint, total.paid) <= U64_MAX)
                  && (WithinSupply(p.Get(r.inputVault).vault, total.paid) ==> one.Ok?)
                  && (one.Ok? ==> one.value.receipt.users.received.Of(r.outputVault) >= total.received))
            && (r.inputMint.Free() ==> WithinSupply(p.Get(r.inputVault).vault, total.paid))
  {
    ReservesPositive(p);
    var total := TradeAll(p, r, trades).value;
    var s, least := TradeSums(p, r, trades, p.Get(r.inputVault).Reserve());
    TradeOpen(p, r, trades[0]);
    if total.paid <= U64_MAX {
      SaleAccepted(p, r, total, OneSale(trades, total.paid, total.received), s);
    }
  }

  /** One purchase of everything that some trades received, for at most what they paid, given the
      token library's answers. */
  function OnePurchase(trades: seq<Trade>, paid: u64, received: u64, inverseIn: Option<u64>, inverseOut: Option<u64>)
    : Trade
    requires trades != []
  {
    Buy(trades[0].now, paid, paid, received, inverseIn, inverseOut)
  }

  /** What leaves at least the old product behind was paid at least the curve's price. */
  lemma CurvePrice(n: nat, dy: nat, x: nat, last: nat)
    requires last > 0 && Times(x + n, last) >= Times(x, last + dy)
    ensures AmountIn(dy, x, last + dy) <= n
  {
    TimesAdds(x, n, last);
    TimesCommutes(x, last);
    TimesCommutes(x, last + dy);
    TimesAdds(last, dy, x);
    TimesCommutes(x, dy);
    TimesIs(n, last);
    CeilAdjoint(Times(x, dy), last, n);
  }

  lemma MorePriceable(x: nat, y: nat, dy: nat, more: nat)
    requires dy <= more && 2 * Times(x, dy) >= y - dy
    ensures 2 * Times(x, more) >= y - more
  {
    TimesMono(x, dy, x, more);
  }

  /** Any part of what left, from least on, has a price within what arrived. */
  lemma PartPriced(p: Pool, r: Route, total: Total, s: Sums, least: u64, dy: u64) returns (price: u64)
    requires Inv(p)
    requires p.Get(r.inputVault).Reserve() > 0 && p.Get(r.outputVault).Reserve() > s.left
    requires OnCurve(p, r, total.pool, p.Get(r.inputVault).Reserve(), s) && Worth(p, r, total, s, least)
    requires 0 < dy && least <= dy <= s.left && s.arrived <= U64_MAX
    ensures 0 < price <= s.arrived
    ensures forall t: Trade :: Priceable(p, r.Accounts(t), dy) && Price(p, r.Accounts(t), dy) == price
  {
    var x, y, rate := p.Get(r.inputVault).Reserve(), p.Get(r.outputVault).Reserve(), p.config.rates.trade;
    TimesMono(s.reached, s.last, s.reached, y - dy);
    CurvePrice(s.reached - x, dy, x, y - dy);
    MorePriceable(x, y, least, dy);
    Fees.GrossAdjoint(s.arrived, AmountIn(dy, x, y), rate);
    Fees.GrossPositive(AmountIn(dy, x, y), rate);
    CeilPositive(Times(x, dy), y - dy);
    price := Fees.Gross(AmountIn(dy, x, y), rate);
  }

  /** Buying at once need not cost more: if a list of swaps in one direction is accepted one after
      another, then for some answers of the token library one purchase of all that they received,
      at the time of the first, is accepted and costs at most what they paid, whatever transfer
      fees the two mints have. */
  lemma BuyingAtOnceNeedNotCostMore(p: Pool, r: Route, trades: seq<Trade>)
    returns (inverseIn: Option<u64>, inverseOut: Option<u64>)
    requires trades != [] && Accepted(p, r, trades)
    requires TradeAll(p, r, trades).value.paid <= U64_MAX
    ensures var total := TradeAll(p, r, trades).value;
            && total.received <= U64_MAX
            && (var one := Swap(p, r, OnePurchase(trades, total.paid, total.received, inverseIn, inverseOut));
                && one.Ok?
                && one.value.receipt.users.paid.Of(r.inputVault) <= total.paid
                && one.value.receipt.users.received.Of(r.outputVault) == total.received)
  {
    ReservesPositive(p);
    var total := TradeAll(p, r, trades).value;
    var s, least := TradeSums(p, r, trades, p.Get(r.inputVault).Reserve());
    TradeOpen(p, r, trades[0]);
    inverseIn, inverseOut := Answers(p, r, total, s, least, trades[0].now);
    PurchaseAccepted(p, r, OnePurchase(trades, total.paid, total.received, inverseIn, inverseOut));
  }

  /** A purchase has a price that can be paid and that the vault can hold. */
  ghost predicate Affordable(p: Pool, r: Route, t: Trade)
    requires Inv(p) && t.Buy?
    requires p.Get(r.inputVault).Reserve() > 0 && p.Get(r.outputVault).Reserve() > 0
  {
    var a := r.Accounts(t);
    && t.amountOut > 0
    && OutputAffordable(p, a, t.maximumIn, t.amountOut)
    && Payable(a.inputMint, t.funds, t.maximumIn, p.Get(r.inputVault).vault, Price(p, a, Leaves(a, t.amountOut)))
  }

  /** Answers of the library for amounts that buy the total: some part of what left delivers what was
      received, and some part of what was paid delivers its price. */
  lemma Answers(p: Pool, r: Route, total: Total, s: Sums, least: u64, now: u64)
    returns (inverseIn: Option<u64>, inverseOut: Option<u64>)
    requires Inv(p) && p.Get(r.inputVault).Reserve() > 0 && p.Get(r.outputVault).Reserve() > 0
    requires Summed(p, r, total, p.Get(r.inputVault).Reserve(), s) && Worth(p, r, total, s, least)
    requires total.paid <= U64_MAX
    ensures total.received <= U64_MAX
    ensures Affordable(p, r, Buy(now, total.paid, total.paid, total.received, inverseIn, inverseOut))
  {
    ReservesPositive(total.pool);
    var dy := DeliveredReaches(r.outputMint, total.received, least, s.left);
    var price := PartPriced(p, r, total, s, least, dy);
    var sent := DeliveredReaches(r.inputMint, price, 0, total.paid);
    AnswerFor(r.outputMint, total.received, dy);
    AnswerFor(r.inputMint, price, sent);
    inverseIn, inverseOut := Some(sent - price), Some(dy - total.received);
    Assembled(p, r, Buy(now, total.paid, total.paid, total.received, inverseIn, inverseOut), dy, sent);
  }

  lemma Assembled(p: Pool, r: Route, t: Trade, dy: u64, sent: u64)
    requires Inv(p) && p.Get(r.inputVault).Reserve() > 0 && p.Get(r.outputVault).Reserve() > 0
    requires t.Buy? && t.amountOut > 0 && sent <= t.maximumIn && sent <= t.funds
    requires AmountToSend(r.Accounts(t).outputMint, t.amountOut) == Ok(dy)
    requires Priceable(p, r.Accounts(t), dy) && Price(p, r.Accounts(t), dy) > 0
    requires AmountToSend(r.Accounts(t).inputMint, Price(p, r.Accounts(t), dy)) == Ok(sent)
    requires p.Get(r.inputVault).vault + Price(p, r.Accounts(t), dy) <= U64_MAX
    ensures Affordable(p, r, t)
  {
  }

  lemma PurchaseAccepted(p: Pool, r: Route, t: Trade)
    requires Inv(p) && t.Buy? && OpenAt(p, r, t.now)
    requires p.Get(r.inputVault).Reserve() > 0 && p.Get(r.outputVault).Reserve() > 0
    requires Affordable(p, r, t)
    ensures Swap(p, r, t).Ok?
    ensures Swap(p, r, t).value.receipt.users.paid.Of(r.inputVault) <= t.maximumIn
    ensures Swap(p, r, t).value.receipt.users.received.Of(r.outputVault) == t.amountOut
  {
    SwapOutputAcceptedIff(p, r.Accounts(t), t.maximumIn, t.amountOut);
    PurchaseMoves(p, r, t);
  }

  /** An accepted purchase pays at most its maximum and receives exactly what it asked for. */
  lemma PurchaseMoves(p: Pool, r: Route, t: Trade)
    requires Inv(p) && t.Buy? && Swap(p, r, t).Ok?
    ensures Swap(p, r, t).value.receipt.users.paid.Of(r.inputVault) <= t.maximumIn
    ensures Swap(p, r, t).value.receipt.users.received.Of(r.outputVault) == t.amountOut
  {
    var q := QuoteOutput(p, r.Accounts(t), t.maximumIn, t.amountOut).value;
    QuoteOutputFair(p, r.Accounts(t), t.maximumIn, t.amountOut);
    SettleBooks(p, r.Accounts(t), q);
  }

  /** Buying at once never costs more between mints without transfer fees, whatever the token library
      is asked and answers: one purchase of all that such a list received is accepted and costs at
      most what it paid. */
  lemma BuyingAtOnceNeverCostsMore(p: Pool, r: Route, trades: seq<Trade>,
                                   inverseIn: Option<u64>, inverseOut: Option<u64>)
    requires trades != [] && Accepted(p, r, trades)
    requires r.inputMint.Free() && r.outputMint.Free()
    ensures var total := TradeAll(p, r, trades).value;
            && total.paid <= U64_MAX && total.received <= U64_MAX
            && (var one := Swap(p, r, OnePurchase(trades, total.paid, total.received, inverseIn, inverseOut));
                && one.Ok?
                && one.value.receipt.users.paid.Of(r.inputVault) <= total.paid
                && one.value.receipt.users.received.Of(r.outputVault) == total.received)
  {
    SplittingNeverBeatsOneTrade(p, r, trades);
    var total := TradeAll(p, r, trades).value;
    var answerIn, answerOut := BuyingAtOnceNeedNotCostMore(p, r, trades);
    SamePurchase(p, r, OnePurchase(trades, total.paid, total.received, answerIn, answerOut),
                 OnePurchase(trades, total.paid, total.received, inverseIn, inverseOut));
  }

  /** Mints without transfer fees leave the library nothing to answer. */
  lemma SamePurchase(p: Pool, r: Route, t: Trade, u: Trade)
    requires r.inputMint.Free() && r.outputMint.Free()
    requires t.Buy? && u.Buy? && u == t.(inverseIn := u.inverseIn, inverseOut := u.inverseOut)
    ensures Swap(p, r, u) == Swap(p, r, t)
  {
    assert r.Accounts(u) == r.Accounts(t);
  }
}
