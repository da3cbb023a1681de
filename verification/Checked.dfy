/** Fixed-width unsigned arithmetic and the outcome of a call that may fail. */
module Checked {
  import Rounding

  const U64_MAX: int := 0xFFFF_FFFF_FFFF_FFFF
  const U128_MAX: int := 0xFFFF_FFFF_FFFF_FFFF_FFFF_FFFF_FFFF_FFFF

  type u8 = x: int | 0 <= x <= 0xFF
  type u64 = x: int | 0 <= x <= 0xFFFF_FFFF_FFFF_FFFF
  type u128 = x: int | 0 <= x <= 0xFFFF_FFFF_FFFF_FFFF_FFFF_FFFF_FFFF_FFFF

  datatype Option<+T> = None | Some(value: T)

  /** Why a call failed: the program's own error codes, the violations raised by the require
      macros, a failure inside the token program, a panic, and the None of a checked operation
      that its caller has not turned into one of the others yet. */
  datatype Error =
    | NotApproved
    | EmptySupply
    | InvalidInput
    | ExceededSlippage
    | ZeroTradingTokens
    | NotSupportMint
    | InvalidVault
    | InitLpAmountTooLess
    | TransferFeeCalculateNotMatch
    | RequireGtViolated
    | RequireGteViolated
    | RequireEqViolated
    | RequireKeysNeqViolated
    | TokenProgramError
    | Panic
    | NoValue

  datatype Result<+T> = Ok(value: T) | Err(error: Error) {
    predicate IsFailure() {
      Err?
    }

    function PropagateFailure<U>(): Result<U>
      requires Err?
    {
      Err(error)
    }

    function Extract(): T
      requires Ok?
    {
      value
    }

    /** A failure becomes a panic. */
    function Unwrap(): Result<T> {
      if Ok? then this else Err(Panic)
    }

    /** A missing value becomes the given error; a panic stays a panic. */
    function OkOr(e: Error): Result<T> {
      if Err? && error == NoValue then Err(e) else this
    }
  }

  /** A check that computes nothing. */
  datatype Check = Pass | Fail(error: Error) {
    predicate IsFailure() {
      Fail?
    }

    function PropagateFailure<U>(): Result<U>
      requires Fail?
    {
      Err(error)
    }
  }

  /** Stops with e unless the condition holds. */
  function Require(condition: bool, e: Error): Check {
    if condition then Pass else Fail(e)
  }

  function ToU128(v: int): Result<u128> {
    if 0 <= v <= U128_MAX then Ok(v) else Err(NoValue)
  }

  /** A conversion or addition whose overflow panics. */
  function ToU64(v: int): Result<u64> {
    if 0 <= v <= U64_MAX then Ok(v) else Err(Panic)
  }

  function AddU64(a: u64, b: u64): Result<u64> {
    ToU64(a + b)
  }

  /** The checked operations have no value on overflow. */
  function CheckedAdd(a: u128, b: u128): Result<u128> {
    ToU128(a + b)
  }

  function CheckedSub(a: u128, b: u128): Result<u128> {
    ToU128(a - b)
  }

  function CheckedMul(a: u128, b: u128): Result<u128> {
    ToU128(Rounding.Times(a, b))
  }

  function CheckedDiv(a: u128, b: u128): Result<u128> {
    if b == 0 then Err(NoValue) else ToU128(Rounding.Floor(a, b))
  }

  /** What the operations answer, with the widths written out. */
  lemma Widths(v: int, a: u128, b: u128)
    ensures ToU64(v) == if 0 <= v < 0x1_0000_0000_0000_0000 then Ok(v) else Err(Panic)
    ensures var top := 0x1_0000_0000_0000_0000_0000_0000_0000_0000;
            && CheckedAdd(a, b) == (if a + b < top then Ok(a + b) else Err(NoValue))
            && CheckedSub(a, b) == (if b <= a then Ok(a - b) else Err(NoValue))
            && CheckedMul(a, b) == (if a * b < top then Ok(a * b) else Err(NoValue))
            && CheckedDiv(a, b) == (if b > 0 then Ok(a / b) else Err(NoValue))
  {
    Rounding.TimesIs(a, b);
    ProductNonNegative(a, b);
    if b > 0 {
      Rounding.FloorIs(a, b);
    }
  }

  lemma ProductNonNegative(a: nat, b: nat)
    ensures a * b >= 0
  {
    Rounding.MulMono(0, a, b);
  }

  function SaturatingSub(a: u64, b: u64): u64 {
    if b <= a then a - b else 0
  }
}
