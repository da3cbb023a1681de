/** Runs: any sequence of transactions by anyone, from the creation of a pool on. */
module Runs {
  import opened Checked
  import opened Rounding
  import opened Tokens
  import opened Calculator
  import opened Oracle
  import opened Pools
  import opened Transitions
  import opened Invariants

  /** A pool with its history: everything moved since creation, and the log of oracle ticks. */
  datatype World = World(pool: Pool, ledger: Receipt, log: seq<Tick>)

  /** One transaction; a rejected one leaves no trace. */
  function Exec(w: World, op: Op): World {
    match Step(w.pool, op)
    case Ok(o) => World(o.pool, w.ledger.Plus(o.receipt), if o.tick.Some? then Appended(w.log, o.tick.value) else w.log)
    case Err(_) => w
  }

  /** What a step returns to its caller. */
  ghost function Returned(r: Result<Outcome>): Result<Receipt> {
    match r
    case Ok(o) => Ok(o.receipt)
    case Err(e) => Err(e)
  }

  function Run(w: World, ops: seq<Op>): World
    decreases |ops|
  {
    if ops == [] then w else Run(Exec(w, ops[0]), ops[1..])
  }

  datatype ConfigUpdate = ConfigUpdate(param: u8, value: u64, account: Option<nat>)

  function ConfigRun(c: Config, updates: seq<ConfigUpdate>): Config
    decreases |updates|
  {
    if updates == [] then c
    else
      var u := updates[0];
      match UpdateAmmConfig(c, u.param, u.value, u.account)
      case Ok(c') => ConfigRun(c', updates[1..])
      case Err(_) => ConfigRun(c, updates[1..])
  }

  /** How a world comes about: a configuration is created and updated, a pool is created under it,
      and any transactions follow. */
  datatype Birth = Birth(
    rates: Rates, createPoolFee: u64, owner: nat, updates: seq<ConfigUpdate>,
    accounts: InitializeAccounts, amount0: u64, amount1: u64, openTime: u64)

  function Created(b: Birth): Result<World> {
    var created :- CreateAmmConfig(b.rates, b.createPoolFee, b.owner);
    var o :- Initialize(ConfigRun(created, b.updates), b.accounts, b.amount0, b.amount1, b.openTime);
    Ok(World(o.pool, o.receipt, []))
  }

  ghost predicate Reachable(w: World) {
    exists b: Birth, ops: seq<Op> :: Created(b).Ok? && w == Run(Created(b).value, ops)
  }

  ghost predicate PricesBounded(log: seq<Tick>) {
    forall k :: 0 <= k < |log| ==> log[k].price0 < TWO_96 && log[k].price1 < TWO_96
  }

  /** The invariant of reachable worlds. */
  ghost predicate WorldInv(w: World) {
    && Inv(w.pool)
    && Books(w.pool.side0, w.ledger, Token0)
    && Books(w.pool.side1, w.ledger, Token1)
    && Refines(w.pool.ring, w.log)
    && PricesBounded(w.log)
  }

  ghost predicate AmountsGrew(a: Amounts, b: Amounts) {
    a.token0 <= b.token0 && a.token1 <= b.token1
  }

  ghost predicate LedgerGrew(a: Receipt, b: Receipt) {
    && AmountsGrew(a.users.paid, b.users.paid)
    && AmountsGrew(a.users.received, b.users.received)
    && AmountsGrew(a.users.withheld, b.users.withheld)
    && AmountsGrew(a.accrued.protocol, b.accrued.protocol)
    && AmountsGrew(a.accrued.fund, b.accrued.fund)
    && AmountsGrew(a.collected.protocol, b.collected.protocol)
    && AmountsGrew(a.collected.fund, b.collected.fund)
  }

  // ---------- One transaction ----------

  /** The ring of an accepted step is updated by its tick, and only by it. */
  lemma StepTicks(p: Pool, op: Op)
    requires Step(p, op).Ok?
    ensures var o := Step(p, op).value;
            match o.tick
            case Some(t) => Updated(p.ring, t.time, t.price0, t.price1) == Ok(o.pool.ring)
            case None => o.pool.ring == p.ring
  {
    match op
    case OpSwapInput(a, amountIn, minimumOut) => SettleTicks(p, a, QuoteInput(p, a, amountIn, minimumOut).value);
    case OpSwapOutput(a, maximumIn, amountOut) => SettleTicks(p, a, QuoteOutput(p, a, maximumIn, amountOut).value);
    case _ =>
  }

  lemma SettleTicks(p: Pool, a: SwapAccounts, q: Quote)
    requires Settle(p, a, q).Ok?
    ensures var o := Settle(p, a, q).value;
            && o.tick == Some(Tick(a.now, q.reserves.price0, q.reserves.price1))
            && Updated(p.ring, a.now, q.reserves.price0, q.reserves.price1) == Ok(o.pool.ring)
  {
  }

  lemma ExecSafe(w: World, op: Op)
    requires WorldInv(w)
    ensures WorldInv(Exec(w, op))
    ensures ShareKept(w.pool, Exec(w, op).pool)
    ensures LedgerGrew(w.ledger, Exec(w, op).ledger)
  {
    if Step(w.pool, op).Ok? {
      var o := Step(w.pool, op).value;
      StepSafe(w.pool, op);
      StepTicks(w.pool, op);
      if o.tick.Some? {
        var t := o.tick.value;
        UpdateRefines(w.pool.ring, w.log, t.time, t.price0, t.price1);
      }
      BooksExtend(w.pool.side0, o.pool.side0, w.ledger, o.receipt, Token0);
      BooksExtend(w.pool.side1, o.pool.side1, w.ledger, o.receipt, Token1);
    }
  }

  lemma BooksExtend(before: Side, after: Side, total: Receipt, r: Receipt, t: Token)
    requires Books(before, total, t) && Accounted(before, after, r, t)
    ensures Books(after, total.Plus(r), t)
  {
  }

  // ---------- Whole runs ----------

  lemma NotWorseTransitive(k: int, l: nat, k': int, l': nat, k'': int, l'': nat)
    requires NotWorse(k, l, k', l') && NotWorse(k', l', k'', l'') && l' > 0
    ensures NotWorse(k, l, k'', l'')
  {
    NotWorseIs(k, l, k', l');
    NotWorseIs(k', l', k'', l'');
    NotWorseIs(k, l, k'', l'');
    ProductPositive(l', l');
    RatiosChain(k, l * l, k', l' * l', k'', l'' * l'');
  }

  lemma RatiosChain(k: int, s: nat, k': int, s': nat, k'': int, s'': nat)
    requires k' * s >= k * s' && k'' * s' >= k' * s'' && s' > 0
    ensures k'' * s >= k * s''
  {
    MulMono(k' * s'', k'' * s', s);
    MulMono(k * s', k' * s, s'');
    assert k' * s'' * s == k' * s * s'' && k'' * s' * s == k'' * s * s' && k * s' * s'' == k * s'' * s';
    Cancel(k * s'', k'' * s, s');
  }

  /** w' lies ahead of w: it is valid, no pool token lost value, and the ledger only grew. */
  ghost predicate Ahead(w: World, w': World) {
    && WorldInv(w')
    && ShareKept(w.pool, w'.pool)
    && LedgerGrew(w.ledger, w'.ledger)
  }

  lemma AheadTransitive(u: World, v: World, w: World)
    requires Ahead(u, v) && Ahead(v, w)
    ensures Ahead(u, w)
  {
    NotWorseTransitive(Product(u.pool), u.pool.lpSupply, Product(v.pool), v.pool.lpSupply,
                       Product(w.pool), w.pool.lpSupply);
  }

  /** Over any run the invariant is kept, the value of a pool token never falls, and the ledger
      only grows. */
  lemma {:induction false} RunSafe(w: World, ops: seq<Op>)
    requires WorldInv(w)
    ensures Ahead(w, Run(w, ops))
    decreases |ops|
  {
    if ops != [] {
      var next := Exec(w, ops[0]);
      ExecSafe(w, ops[0]);
      RunSafe(next, ops[1..]);
      AheadTransitive(w, next, Run(next, ops[1..]));
    }
  }

  lemma {:induction false} ConfigRunValid(c: Config, updates: seq<ConfigUpdate>)
    requires c.rates.Valid()
    ensures ConfigRun(c, updates).rates.Valid()
    decreases |updates|
  {
    if updates != [] {
      var u := updates[0];
      match UpdateAmmConfig(c, u.param, u.value, u.account)
      case Ok(c') =>
        ConfigKeepsRates(c, u.param, u.value, u.account);
        ConfigRunValid(c', updates[1..]);
      case Err(_) => ConfigRunValid(c, updates[1..]);
    }
  }

  lemma CreatedSafe(b: Birth)
    requires Created(b).Ok?
    ensures WorldInv(Created(b).value)
  {
    var c := CreateAmmConfig(b.rates, b.createPoolFee, b.owner).value;
    ConfigRunValid(c, b.updates);
    InitializeSafe(ConfigRun(c, b.updates), b.accounts, b.amount0, b.amount1, b.openTime);
  }

  /** Every reachable world satisfies the invariant. */
  lemma ReachableSafe(w: World)
    requires Reachable(w)
    ensures WorldInv(w)
  {
    var b: Birth, ops: seq<Op> :| Created(b).Ok? && w == Run(Created(b).value, ops);
    CreatedSafe(b);
    RunSafe(Created(b).value, ops);
  }

  /** Over any run of a reachable world the value of a pool token never falls. */
  lemma ShareValueNeverFalls(w: World, ops: seq<Op>)
    requires Reachable(w)
    ensures ShareKept(w.pool, Run(w, ops).pool)
  {
    ReachableSafe(w);
    RunSafe(w, ops);
  }

  /** The fee ledger: in every reachable world, per token and per bucket, what swaps accrued is
      what was collected plus what is still owed. */
  lemma FeeLedger(w: World)
    requires Reachable(w)
    ensures forall t: Token ::
              && w.ledger.accrued.protocol.Of(t) == w.ledger.collected.protocol.Of(t) + w.pool.Get(t).protocolFees
              && w.ledger.accrued.fund.Of(t) == w.ledger.collected.fund.Of(t) + w.pool.Get(t).fundFees
  {
    ReachableSafe(w);
    assert Books(w.pool.Get(Token0), w.ledger, Token0) && Books(w.pool.Get(Token1), w.ledger, Token1);
  }

  /** A valid pool never starves: both reserves are positive, they can be read, and prices can be
      computed from them. */
  lemma ValidPoolReadable(p: Pool)
    requires Inv(p)
    ensures p.side0.Reserve() > 0 && p.side1.Reserve() > 0
    ensures p.side0.AmountWithoutFee() == Ok(p.side0.Reserve())
    ensures p.side1.AmountWithoutFee() == Ok(p.side1.Reserve())
    ensures TokenPriceX32(p.side0.Reserve(), p.side1.Reserve()).Ok?
  {
    ReservesPositive(p);
  }

  // ---------- What users can take out ----------

  /** What users took out of a token between two worlds, net of what they paid in. */
  function Gain(w: World, w': World, t: Token): int {
    (w'.ledger.users.received.Of(t) - w.ledger.users.received.Of(t))
    - (w'.ledger.users.paid.Of(t) - w.ledger.users.paid.Of(t))
  }

  /** A reserve is what users paid in less what they received, less the transfer fees withheld
      and the fees accrued: nothing else moves it. */
  lemma ReserveIsHistory(w: World)
    requires WorldInv(w)
    ensures forall t: Token :: w.pool.Get(t).Reserve()
                               == w.ledger.users.paid.Of(t)
                                  - w.ledger.users.received.Of(t) - w.ledger.users.withheld.Of(t)
                                  - w.ledger.accrued.protocol.Of(t) - w.ledger.accrued.fund.Of(t)
  {
    assert Books(w.pool.Get(Token0), w.ledger, Token0) && Books(w.pool.Get(Token1), w.ledger, Token1);
  }

  /** A reserve of w less the users' gain since. */
  ghost function Left(w: World, w': World, t: Token): int {
    w.pool.Get(t).Reserve() - Gain(w, w', t)
  }

  /** A reserve ends at most where the users' gain leaves it. */
  lemma GainsLeaveReserves(w: World, w': World)
    requires WorldInv(w) && Ahead(w, w')
    ensures w'.pool.side0.Reserve() <= Left(w, w', Token0)
    ensures w'.pool.side1.Reserve() <= Left(w, w', Token1)
  {
    ReserveIsHistory(w);
    ReserveIsHistory(w');
    assert w.pool.Get(Token0) == w.pool.side0 && w.pool.Get(Token1) == w.pool.side1;
    assert w'.pool.Get(Token0) == w'.pool.side0 && w'.pool.Get(Token1) == w'.pool.side1;
  }

  /** The users' gains g0 and g1 from w to w' leave something of both reserves, and lie within the
      curve, scaled by the pool tokens minted or redeemed on the way:
      x > g0, y > g1 and (x - g0)(y - g1) / L'^2 >= x y / L^2. */
  ghost predicate WithinCurve(w: World, w': World) {
    && Left(w, w', Token0) > 0
    && Left(w, w', Token1) > 0
    && NotWorse(Product(w.pool), w.pool.lpSupply, Times(Left(w, w', Token0), Left(w, w', Token1)), w'.pool.lpSupply)
  }

  lemma CurveBoundsGains(w: World, w': World)
    requires WorldInv(w) && Ahead(w, w')
    ensures WithinCurve(w, w')
  {
    GainsLeaveReserves(w, w');
    ReservesPositive(w'.pool);
    TimesMono(w'.pool.side0.Reserve(), w'.pool.side1.Reserve(), Left(w, w', Token0), Left(w, w', Token1));
    NotWorseGrows(Product(w.pool), w.pool.lpSupply, Product(w'.pool), w'.pool.lpSupply,
                  Times(Left(w, w', Token0), Left(w, w', Token1)));
  }

  lemma NotWorseGrows(k: int, l: int, k': nat, l': int, k'': nat)
    requires NotWorse(k, l, k', l') && k' <= k''
    ensures NotWorse(k, l, k'', l')
  {
    TimesIs(l, l);
    SquareOrder(0, if l < 0 then -l else l);
    TimesMono(k', Times(l, l), k'', Times(l, l));
  }

  /** Over any run users move the reserves at most along the curve. */
  lemma GainsBoundedByCurve(w: World, ops: seq<Op>)
    requires Reachable(w)
    ensures WithinCurve(w, Run(w, ops))
  {
    ReachableSafe(w);
    RunSafe(w, ops);
    CurveBoundsGains(w, Run(w, ops));
  }

  lemma NoGainAhead(w: World, w': World)
    requires WorldInv(w) && Ahead(w, w') && w'.pool.lpSupply >= w.pool.lpSupply
    ensures Gain(w, w', Token0) > 0 ==> Gain(w, w', Token1) < 0
    ensures Gain(w, w', Token1) > 0 ==> Gain(w, w', Token0) < 0
  {
    ReservesPositive(w.pool);
    CurveBoundsGains(w, w');
    NoLossOfBoth(w.pool.side0.Reserve(), w.pool.side1.Reserve(), w.pool.lpSupply,
                 Left(w, w', Token0), Left(w, w', Token1), w'.pool.lpSupply);
  }

  /** If the product per squared pool token did not fall and there are no fewer pool tokens, then the
      reserves did not both fall, one of them strictly. */
  lemma NoLossOfBoth(x: nat, y: nat, l: nat, x': nat, y': nat, l': nat)
    requires x > 0 && y > 0 && 0 < l <= l'
    requires NotWorse(Times(x, y), l, Times(x', y'), l')
    ensures x' < x ==> y' > y
    ensures y' < y ==> x' > x
  {
    ProductNotWorse(Times(x, y), l, Times(x', y'), l');
    ProductFloor(x, y, x', y');
  }

  /** With no fewer pool tokens the product has not fallen. */
  lemma ProductNotWorse(k: nat, l: nat, k': int, l': nat)
    requires NotWorse(k, l, k', l') && 0 < l <= l'
    ensures k <= k'
  {
    NotWorseIs(k, l, k', l');
    ProductsOrdered(l, l, l', l');
    MulMono(l * l, l' * l', k);
    ProductPositive(l, l);
    Cancel(k, k', l * l);
  }

  /** No extraction: over any run that ends with at least as many pool tokens outstanding as it
      began with, users together cannot gain one token without losing some of the other. */
  lemma NoExtraction(w: World, ops: seq<Op>)
    requires Reachable(w)
    requires Run(w, ops).pool.lpSupply >= w.pool.lpSupply
    ensures Gain(w, Run(w, ops), Token0) > 0 ==> Gain(w, Run(w, ops), Token1) < 0
    ensures Gain(w, Run(w, ops), Token1) > 0 ==> Gain(w, Run(w, ops), Token0) < 0
  {
    ReachableSafe(w);
    RunSafe(w, ops);
    NoGainAhead(w, Run(w, ops));
  }

  /** If a product does not fall then its factors do not both fall, one of them strictly. */
  lemma ProductFloor(x: nat, y: nat, x': nat, y': nat)
    requires x > 0 && y > 0
    requires Times(x', y') >= Times(x, y)
    ensures x' < x ==> y' > y
    ensures y' < y ==> x' > x
  {
    TimesIs(x, y);
    TimesIs(x', y');
    if x' < x && y' <= y {
      ProductFalls(x', y', x, y);
    }
    if y' < y && x' <= x {
      ProductFalls(y', x', y, x);
    }
  }

  lemma ProductFalls(a: nat, b: nat, c: nat, d: nat)
    requires a < c && b <= d && d > 0
    ensures a * b < c * d
    ensures b * a < d * c
  {
    ProductsOrdered(a, b, c - 1, d);
    assert (c - 1) * d == c * d - d;
  }

  // ---------- The oracle along runs ----------

  /** In every reachable world the ring holds the newest ticks, and between any two of them the
      wrapping difference is the time-weighted price modulo 2^128, exact over less than 2^32
      seconds. */
  lemma OracleReadings(w: World, i: nat, j: nat, t: Token)
    requires Reachable(w)
    requires |w.log| - Retained(|w.log|) <= i <= j < |w.log|
    ensures Spaced(w.log)
    ensures var older, newer := w.pool.ring.slots[SlotOf(i)], w.pool.ring.slots[SlotOf(j)];
            var difference := WrappingSub(newer.Cumulative(t), older.Cumulative(t));
            && older.timestamp == w.log[i].time && newer.timestamp == w.log[j].time
            && difference == Wrap(Area(w.log, i, j, t))
            && (w.log[j].time - w.log[i].time < 0x1_0000_0000 ==> difference == Area(w.log, i, j, t))
  {
    ReachableSafe(w);
    Telescoping(w.pool.ring, w.log, i, j, t);
    assert w.pool.ring.slots[SlotOf(i)] == Entry(w.log, i) && w.pool.ring.slots[SlotOf(j)] == Entry(w.log, j);
    assert forall k :: i < k <= j ==> w.log[k].Price(t) < TWO_96;
  }
}
