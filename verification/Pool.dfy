/** The pool and its configuration as values. */
module Pools {
  import opened Checked
  import opened Tokens
  import opened Calculator
  import opened Oracle
  import Rounding

  /** One token of the pool: the vault's balance and the fees owed out of it. */
  datatype Side = Side(vault: u64, protocolFees: u64, fundFees: u64) {
    function Owed(): nat {
      protocolFees + fundFees
    }

    /** What the curve trades against. */
    function Reserve(): int {
      vault - Owed()
    }

    function AmountWithoutFee(): Result<u64> {
      var owed :- ToU64(Owed());
      ToU64(vault - owed)
    }
  }

  /** The configuration account; owners are public keys, 0 the default key. */
  datatype Config = Config(
    rates: Rates,
    createPoolFee: u64,
    disableCreatePool: bool,
    protocolOwner: nat,
    fundOwner: nat)

  datatype Feature = DepositFeature | WithdrawFeature | SwapFeature

  datatype Pool = Pool(
    side0: Side,
    side1: Side,
    lpSupply: u64,
    lpMintSupply: u64,
    status: u8,
    openTime: u64,
    config: Config,
    ring: Ring)
  {
    function Get(t: Token): Side {
      if t == Token0 then side0 else side1
    }

    /** Replaces the side of t and the other side. */
    function Put(t: Token, side: Side, other: Side): Pool {
      if t == Token0 then this.(side0 := side, side1 := other) else this.(side0 := other, side1 := side)
    }

    predicate Enabled(f: Feature) {
      StatusBitClear(status, f)
    }
  }

  /** A feature is enabled while its bit in the status byte is clear. */
  predicate StatusBitClear(status: u8, f: Feature) {
    match f
    case DepositFeature => status % 2 == 0
    case WithdrawFeature => status / 2 % 2 == 0
    case SwapFeature => status / 4 % 2 == 0
  }

  /** Prices as fixed-point numbers with 32 fractional bits; an empty reserve panics. */
  function TokenPriceX32(reserve0: u64, reserve1: u64): Result<(u128, u128)> {
    if reserve0 == 0 || reserve1 == 0 then Err(Panic)
    else
      PriceFits(reserve1, reserve0);
      PriceFits(reserve0, reserve1);
      Ok((Rounding.Floor(reserve1 * 0x1_0000_0000, reserve0), Rounding.Floor(reserve0 * 0x1_0000_0000, reserve1)))
  }

  lemma PriceFits(numerator: u64, denominator: u64)
    requires denominator > 0
    ensures 0 <= Rounding.Floor(numerator * 0x1_0000_0000, denominator) < TWO_96
  {
  }

  /** Each price is the other reserve over its own, floored at 32 fractional bits. */
  lemma PriceMeaning(reserve0: u64, reserve1: u64)
    requires reserve0 > 0 && reserve1 > 0
    ensures TokenPriceX32(reserve0, reserve1).Ok?
    ensures var (price0, price1) := TokenPriceX32(reserve0, reserve1).value;
            && price0 * reserve0 <= reserve1 * 0x1_0000_0000 < price0 * reserve0 + reserve0
            && price1 * reserve1 <= reserve0 * 0x1_0000_0000 < price1 * reserve1 + reserve1
            && price0 < 0x1_0000_0000_0000_0000_0000_0000 && price1 < 0x1_0000_0000_0000_0000_0000_0000
  {
    PriceFits(reserve1, reserve0);
    PriceFits(reserve0, reserve1);
    var (price0, price1) := TokenPriceX32(reserve0, reserve1).value;
    Rounding.FloorBounds(reserve1 * 0x1_0000_0000, reserve0);
    Rounding.FloorBounds(reserve0 * 0x1_0000_0000, reserve1);
    Rounding.TimesIs(price0, reserve0);
    Rounding.TimesIs(price1, reserve1);
  }

  /** An amount of each token. */
  datatype Amounts = Amounts(token0: nat, token1: nat) {
    function Plus(other: Amounts): Amounts {
      Amounts(token0 + other.token0, token1 + other.token1)
    }

    function Of(t: Token): nat {
      if t == Token0 then token0 else token1
    }
  }

  const ZERO := Amounts(0, 0)

  /** amount of t and other of the other token. */
  function Pair(t: Token, amount: nat, other: nat): Amounts {
    if t == Token0 then Amounts(amount, other) else Amounts(other, amount)
  }

  /** What users paid and received, and what the mints withheld from those transfers. */
  datatype Flow = Flow(paid: Amounts, received: Amounts, withheld: Amounts) {
    function Plus(f: Flow): Flow {
      Flow(paid.Plus(f.paid), received.Plus(f.received), withheld.Plus(f.withheld))
    }
  }

  /** An amount of each token in each of the two fee buckets. */
  datatype Buckets = Buckets(protocol: Amounts, fund: Amounts) {
    function Plus(b: Buckets): Buckets {
      Buckets(protocol.Plus(b.protocol), fund.Plus(b.fund))
    }
  }

  /** What one transaction moved: the users' flow, the fees that accrued as owed, and the owed fees
      that were collected. */
  datatype Receipt = Receipt(users: Flow, accrued: Buckets, collected: Buckets) {
    function Plus(r: Receipt): Receipt {
      Receipt(users.Plus(r.users), accrued.Plus(r.accrued), collected.Plus(r.collected))
    }
  }

  const NO_FLOW := Flow(ZERO, ZERO, ZERO)
  const NO_FEES := Buckets(ZERO, ZERO)
  const NOTHING := Receipt(NO_FLOW, NO_FEES, NO_FEES)

  datatype Outcome = Outcome(pool: Pool, receipt: Receipt, tick: Option<Tick>)
}
