/** Machine integers, panics and the failure-compatible result type shared by
    the accrual record and the ledger. */
module Base {

  const U64Limit: nat := 0x1_0000_0000_0000_0000
  const U128Limit: nat := 0x1_0000_0000_0000_0000_0000_0000_0000_0000

  /** Rust `u64`: block time in seconds. */
  type u64 = x: nat | x < U64Limit

  /** Rust `u128`: token amounts, interest and the interest rate. */
  type u128 = x: nat | x < U128Limit

  /** Every way a call to the contract can panic, and the one refusal that
      only the corrected protocol adds. A panic reverts the whole call, so an
      `Err` carries no state. */
  datatype Error =
    | ClockUnderflow      // `now - date` on u64 with a record dated in the future
    | AmountUnderflow     // `amount -= x` on u128 with x larger than the stake
    | Overflow            // a u128 multiplication or addition past 2^128 - 1
    | NoStake             // "you have no stake"
    | NotEnoughStake      // "you don't have enough stake"
    | NoInterests         // "you have no interests"
    | UnsupportedToken    // "Only supports the one fungible token contract"
    | UnsupportedMessage  // "Only stake as message"
    | PromiseNotReady     // "promise not ready"
    | TransferFailed      // "Transfer transaction failed"
    | MissingStake        // `unwrap()` on an absent record in a callback
    | InterestPending     // corrected protocol only: a payout to the caller is still pending

  datatype Result<+T> = Ok(value: T) | Err(error: Error) {

    predicate IsFailure() {
      Err?
    }

    function PropagateFailure<U>(): Result<U>
      requires Err?
    {
      Err(error)
    }

    function Extract(): T
      requires Ok?
    {
      value
    }
  }
}
