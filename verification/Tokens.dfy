/** Mints with transfer fees, and the token program's transfers, mints and burns as balance moves. */
module Tokens {
  import opened Checked
  import opened Rounding

  datatype Token = Token0 | Token1

  const MAX_FEE_BASIS_POINTS := 10_000

  type BasisPoints = x: int | 0 <= x <= 10_000

  /** A mint as one transaction sees it: under the classic token program, under Token-2022 without
      a transfer fee, or with the fee of the current epoch.  inverse is what the token library
      answers when asked for the fee on top of the amount this transaction wants delivered. */
  datatype Mint =
    | Classic
    | Plain2022
    | WithTransferFee(basisPoints: BasisPoints, maximumFee: u64, inverse: Option<u64>)
  {
    /** Transfers cost nothing. */
    predicate Free() {
      !WithTransferFee?
    }

    /** The same mint in a transaction that gets another answer from the token library. */
    function Answering(answer: Option<u64>): Mint {
      if WithTransferFee? then this.(inverse := answer) else this
    }
  }

  /** The fee the token program withholds from a transfer of amount. */
  function TransferFee(mint: Mint, amount: u64): (fee: u64)
    ensures fee <= amount
  {
    match mint
    case Classic => 0
    case Plain2022 => 0
    case WithTransferFee(basisPoints, maximumFee, _) =>
      ProportionalWithin(amount, basisPoints);
      Min(Ceil(Times(amount, basisPoints), MAX_FEE_BASIS_POINTS), maximumFee)
  }

  lemma ProportionalWithin(amount: nat, basisPoints: BasisPoints)
    ensures Ceil(Times(amount, basisPoints), MAX_FEE_BASIS_POINTS) <= amount
  {
    TimesIs(amount, basisPoints);
    CeilAdjoint(amount * basisPoints, MAX_FEE_BASIS_POINTS, amount);
    MulMono(basisPoints, MAX_FEE_BASIS_POINTS, amount);
  }

  /** The fee is the proportional fee rounded up, unless the maximum is less. */
  lemma TransferFeeIsCappedCeiling(mint: Mint, amount: u64)
    requires mint.WithTransferFee?
    ensures var fee, exact := TransferFee(mint, amount), amount * mint.basisPoints;
            && fee <= mint.maximumFee
            && (fee - 1) * 10_000 < exact
            && (fee * 10_000 < exact ==> fee == mint.maximumFee)
  {
    TimesIs(amount, mint.basisPoints);
    CeilBounds(Times(amount, mint.basisPoints), MAX_FEE_BASIS_POINTS);
  }

  /** Other mints withhold nothing. */
  lemma FreeTransfer(mint: Mint, amount: u64)
    requires mint.Classic? || mint.Plain2022?
    ensures TransferFee(mint, amount) == 0 && Delivered(mint, amount) == amount
  {
  }

  function Delivered(mint: Mint, amount: u64): u64 {
    amount - TransferFee(mint, amount)
  }

  /** Sending two amounts together delivers at least what sending them apart delivers. */
  lemma DeliveredSuperadditive(mint: Mint, a: u64, b: u64)
    requires a + b <= U64_MAX
    ensures Delivered(mint, a + b) >= Delivered(mint, a) + Delivered(mint, b)
  {
    if mint.WithTransferFee? {
      ProportionalSubadditive(a, b, mint.basisPoints);
    }
  }

  lemma ProportionalSubadditive(a: nat, b: nat, basisPoints: BasisPoints)
    ensures Ceil(Times(a + b, basisPoints), MAX_FEE_BASIS_POINTS)
         <= Ceil(Times(a, basisPoints), MAX_FEE_BASIS_POINTS) + Ceil(Times(b, basisPoints), MAX_FEE_BASIS_POINTS)
  {
    TimesAdds(a, b, basisPoints);
    var apart := Ceil(Times(a, basisPoints), MAX_FEE_BASIS_POINTS) + Ceil(Times(b, basisPoints), MAX_FEE_BASIS_POINTS);
    CeilBounds(Times(a, basisPoints), MAX_FEE_BASIS_POINTS);
    CeilBounds(Times(b, basisPoints), MAX_FEE_BASIS_POINTS);
    CeilAdjoint(Times(a + b, basisPoints), MAX_FEE_BASIS_POINTS, apart);
  }

  lemma DeliveredMonotone(mint: Mint, a: u64, b: u64)
    requires a <= b
    ensures Delivered(mint, a) <= Delivered(mint, b)
  {
    DeliveredSuperadditive(mint, a, b - a);
  }

  /** One more unit sent delivers at most one more, because the fee does not fall. */
  lemma DeliveredStep(mint: Mint, a: u64)
    requires a < U64_MAX
    ensures Delivered(mint, a + 1) <= Delivered(mint, a) + 1
  {
    if mint.WithTransferFee? {
      TimesMono(a, mint.basisPoints, a + 1, mint.basisPoints);
      CeilMonotone(Times(a, mint.basisPoints), Times(a + 1, mint.basisPoints), MAX_FEE_BASIS_POINTS);
    }
  }

  lemma CeilMonotone(a: nat, b: nat, d: nat)
    requires d > 0 && a <= b
    ensures Ceil(a, d) <= Ceil(b, d)
  {
    CeilBounds(b, d);
    CeilAdjoint(a, d, Ceil(b, d));
  }

  /** Between two amounts that deliver at most and at least what is wanted, some amount delivers it
      exactly. */
  lemma {:induction false} DeliveredReaches(mint: Mint, wanted: nat, least: u64, most: u64) returns (sent: u64)
    requires least <= most && Delivered(mint, least) <= wanted <= Delivered(mint, most)
    ensures least <= sent <= most && Delivered(mint, sent) == wanted
    decreases most - least
  {
    if Delivered(mint, most) == wanted {
      sent := most;
    } else {
      DeliveredStep(mint, most - 1);
      sent := DeliveredReaches(mint, wanted, least, most - 1);
    }
  }

  /** The fee to add so that wanted is delivered. */
  function TransferInverseFee(mint: Mint, wanted: u64): Result<u64> {
    if mint.Classic? then Ok(0)
    else if wanted == 0 then Err(InvalidInput)
    else if mint.Plain2022? then Ok(0)
    else if mint.basisPoints == MAX_FEE_BASIS_POINTS then Ok(mint.maximumFee)
    else if mint.inverse.None? then Err(Panic)
    else
      var fee := mint.inverse.value;
      var total :- AddU64(wanted, fee);
      if fee == TransferFee(mint, total) then Ok(fee) else Err(TransferFeeCalculateNotMatch)
  }

  /** The gross-up is exact in every branch, whatever the library answers: sending the wanted
      amount plus the accepted fee delivers exactly the wanted amount. */
  lemma InverseFeeExact(mint: Mint, wanted: u64, fee: u64)
    requires TransferInverseFee(mint, wanted) == Ok(fee)
    requires wanted + fee <= U64_MAX
    ensures Delivered(mint, wanted + fee) == wanted
  {
    if mint.WithTransferFee? && mint.basisPoints == MAX_FEE_BASIS_POINTS {
      FullFee(wanted + fee);
    }
  }

  /** What to send so that wanted is delivered. */
  function AmountToSend(mint: Mint, wanted: u64): Result<u64> {
    var fee :- TransferInverseFee(mint, wanted);
    AddU64(wanted, fee)
  }

  /** Sending that amount delivers exactly what is wanted. */
  lemma AmountToSendExact(mint: Mint, wanted: u64)
    requires AmountToSend(mint, wanted).Ok?
    ensures Delivered(mint, AmountToSend(mint, wanted).value) == wanted <= AmountToSend(mint, wanted).value
  {
    InverseFeeExact(mint, wanted, TransferInverseFee(mint, wanted).value);
  }

  /** When there is an amount to send, and what is refused: nothing wanted of a Token-2022 mint, a
      library without an answer or with a wrong one, and a sum that does not fit. */
  lemma AmountToSendIff(mint: Mint, wanted: u64)
    ensures AmountToSend(mint, wanted) ==
            match mint
            case Classic => Ok(wanted)
            case Plain2022 => if wanted == 0 then Err(InvalidInput) else Ok(wanted)
            case WithTransferFee(basisPoints, maximumFee, inverse) =>
              if wanted == 0 then Err(InvalidInput)
              else
                var fee := if basisPoints == 10_000 then Some(maximumFee) else inverse;
                if fee.None? || wanted + fee.value > U64_MAX then Err(Panic)
                else if Delivered(mint, wanted + fee.value) == wanted then Ok(wanted + fee.value)
                else Err(TransferFeeCalculateNotMatch)
  {
    if mint.WithTransferFee? && mint.basisPoints == 10_000 && wanted + mint.maximumFee <= U64_MAX {
      FullFee(wanted + mint.maximumFee);
    }
  }

  /** An answer of the token library that makes it the amount to send. */
  lemma AnswerFor(mint: Mint, wanted: u64, sent: u64)
    requires 0 < wanted == Delivered(mint, sent)
    ensures AmountToSend(mint.Answering(Some(sent - wanted)), wanted) == Ok(sent)
  {
    if mint.WithTransferFee? && mint.basisPoints == MAX_FEE_BASIS_POINTS {
      FullFee(sent);
    }
  }

  /** At ten thousand basis points the proportional fee is the whole amount. */
  lemma FullFee(amount: nat)
    ensures Ceil(Times(amount, MAX_FEE_BASIS_POINTS), MAX_FEE_BASIS_POINTS) == amount
  {
    TimesIs(amount, MAX_FEE_BASIS_POINTS);
    CeilBounds(amount * MAX_FEE_BASIS_POINTS, MAX_FEE_BASIS_POINTS);
  }

  /** What the supply of a mint, which fits 64 bits, says of a vault and the tokens still outside. */
  ghost predicate WithinSupply(vault: u64, outside: nat) {
    vault + outside <= U64_MAX
  }

  /** The vault's balance after a user who holds funds sends it amount. */
  function TransferFromUser(mint: Mint, funds: u64, vault: u64, amount: u64): Result<u64> {
    if amount == 0 then Ok(vault)
    else if funds < amount then Err(TokenProgramError)
    else if vault + Delivered(mint, amount) > U64_MAX then Err(TokenProgramError)
    else Ok(vault + Delivered(mint, amount))
  }

  /** The vault's balance after it sends amount. */
  function TransferToUser(vault: u64, amount: u64): Result<u64> {
    if amount == 0 then Ok(vault)
    else if vault < amount then Err(TokenProgramError)
    else Ok(vault - amount)
  }

  function MintTo(supply: u64, amount: u64): Result<u64> {
    if supply + amount > U64_MAX then Err(TokenProgramError) else Ok(supply + amount)
  }

  /** Burning fails beyond the holder's balance and beyond the supply. */
  function Burn(balance: u64, supply: u64, amount: u64): Result<u64> {
    if balance < amount || supply < amount then Err(TokenProgramError) else Ok(supply - amount)
  }
}
