# Staking ledger with asynchronous withdrawals — Dafny model

This project models the NEAR staking contract in `STAKING/lib.rs`. Users
stake a fungible token by sending it to the contract. The token contract
notifies the ledger through `ft_on_transfer`. Each account's record
(`UserStake`) accrues interest at one global rate, with a scale of 10^8
meaning 100% per Julian year of 31 557 600 s. All divisions truncate.

Withdrawals have two phases. A request checks the record and issues an
`ft_transfer` to the token contract. A callback chained to that transfer
runs later and updates the record only if the transfer succeeded.

Files:

- `base.dfy` (`Base`): the `u64` and `u128` subset types, the `Error` type
  with one value per way the contract can panic, and a `Result` type that
  works with `:-`.
- `arith.dfy` (`Arith`): facts about floor division that the interest
  formula needs. Two successive divisions equal one division by the product,
  division is monotone, and a common factor cancels.
- `accrual.dfy` (`Accrual`): `UserStake` and its operations. Every
  `env::block_timestamp()/1_000_000_000` in the contract becomes an explicit
  `now: u64` parameter.
- `ledger.dfy` (`Ledger`): the contract state and its entry points.
  - The promise chain is a sequence of `Pending` entries. A request appends
    one entry.
  - `Resolve(st, i, outcome, now)` consumes entry `i` and runs its callback.
    The scheduler may resolve entries in any order.
  - The callbacks are exported without a check of their caller. So `Op`
    also has `Invoke`, a direct call of a callback with an outcome the
    caller chooses, and no pending entry behind it.
  - `Apply` and `Run` describe arbitrary interleavings of calls and
    resolutions.
- `protocol.dfy` (`Protocol`): lemmas about a request followed by its
  callback, and about what interleavings allow.
- `reservation.dfy` (`Reservation`): the corrected protocol from the
  Findings section, with its invariants proved over every interleaving. It
  has a reserving stake-withdrawal request, an interest-withdrawal request
  that waits for the previous payout's callback, and it refuses direct
  callback calls.

Panics are modelled as follows:

- Every panic becomes an `Err`. This covers `assert!`, `env::panic`,
  `unwrap()` on a missing record, u64 or u128 underflow, and u128 overflow.
- A panic reverts the NEAR call, so a public entry point returns a new
  `Staking` only on `Ok`.
- The callback receipt is consumed even when the callback panics. So
  `Resolve` always removes its entry, and keeps the callback's changes only
  when the callback returns `Ok`.
- The model assumes the contract is built with overflow checks, as NEAR's
  release profile sets them. Every checked arithmetic step is written out
  with its `2^128` or `2^64` bound:
  - the multiplications at lines 54-55;
  - the addition at line 58;
  - `amount += x` at line 69;
  - `amount -= x` at line 73;
  - the time subtraction at line 52.

The model keeps these behaviours of the contract as written:

- An interest withdrawal of zero is accepted. The contract has no
  "nothing to withdraw" check.
- A failed transfer makes the callback panic. The panic discards the
  callback's changes, which leaves the ledger as unchanged as a silent
  no-op would.
- Pending stake withdrawals are not reserved, and the callbacks can be
  called directly by any account. The entry points in `Ledger` are the
  contract as written. `Reservation` adds only the three corrections.

## Model

| member | source | states |
|---|---|---|
| `Accrual.CalcInterests` | STAKING/lib.rs:51-59 | The call fails exactly when the record is dated after `now` or one of the three checked u128 steps overflows. Otherwise the result is `interests_before + floor(amount*(now-date)*rate / (10^8*31557600))`: the two successive truncating divisions equal one division by the product, and the result is never below `interests_before`. |
| `Accrual.CalcMonotone` | STAKING/lib.rs:51-59 | For an unchanged record, interest is non-decreasing in time. If it can be computed at a later time, it can be computed at every earlier time since the snapshot. |
| `Accrual.OneYear` | STAKING/lib.rs:51-59 | After exactly 31 557 600 s, the interest owed is `interests_before + floor(amount*rate/10^8)`. |
| `Accrual.TenPercentForOneYear` | STAKING/lib.rs:51-59 | 1 000 000 staked for one year at rate 10 000 000 (10%) earns exactly 100 000. |
| `Accrual.New` | STAKING/lib.rs:42-50 | A new record holds the given amount, is dated `now`, and owes zero interest at `now` at every rate. |
| `Accrual.StockInterestsBefore` | STAKING/lib.rs:62-66 | The snapshot fails exactly when the interest computation fails, with the same error. On success it keeps the principal, moves the date to `now`, and leaves the interest owed at `now` unchanged. |
| `Accrual.Stake` | STAKING/lib.rs:67-70 | Fails on a snapshot failure (same error) or when the new principal would reach 2^128. On success the principal grows by exactly the argument and the interest owed at `now` is unchanged. |
| `Accrual.Unstake` | STAKING/lib.rs:71-74 | Fails on a snapshot failure or, with an underflow, exactly when the argument exceeds the principal. On success the principal shrinks by exactly the argument and the interest owed at `now` is unchanged. |
| `Accrual.ResetInterests` | STAKING/lib.rs:75-78 | Keeps the principal, dates the record `now`, and makes the interest owed at `now` zero for every rate. |
| `Accrual.StakeThenUnstake` | STAKING/lib.rs:62-74 | A stake followed by an unstake of the same amount at the same time equals a bare snapshot. The principal is restored and the interest owed is kept. |
| `Accrual.UnstakeThenStake` | STAKING/lib.rs:62-74 | An unstake followed by a stake of the same amount at the same time also equals a bare snapshot. |
| `Accrual.StakeThenUnstakeAtDate` | STAKING/lib.rs:62-74 | At the record's own date, a stake followed by an unstake of one amount gives back the identical record. |
| `Ledger.Init` | STAKING/lib.rs:93-105 | The initial ledger reports zero stake and zero interest for every account, has nothing pending, and holds the given rate and token contract. |
| `Ledger.StakingAmountOf` | STAKING/lib.rs:106-112 | The principal of the account's record, or 0 when it has no record. |
| `Ledger.StakingInterestsOf` | STAKING/lib.rs:113-119 | `Ok(0)` for an account with no record. Otherwise the record's interest at `now` at the global rate, including its failure cases. |
| `Ledger.RecordOf` | STAKING/lib.rs:165-169 | The record a deposit updates is the stored record itself, interest and date included, when one exists. Otherwise it is a new empty record dated `now`. Either way it holds the account's queried principal. |
| `Ledger.StakingWithdrawStake` | STAKING/lib.rs:121-136 | Fails with "no stake" exactly when the caller has no record. Fails with "not enough stake" exactly when the amount exceeds the caller's principal. No other failure exists. On success the stakes map and the configuration are untouched and exactly one `PendingStake(caller, amount)` entry is appended. |
| `Ledger.StakingWithdrawInterests` | STAKING/lib.rs:137-152 | Fails with "no interests" when the caller has no record. Otherwise it succeeds exactly when the interest at `now` can be computed, and it never refuses a zero payout. On success the stakes map is untouched and one `PendingInterest` entry is appended, carrying the interest owed at request time. |
| `Ledger.FtOnTransfer` | STAKING/lib.rs:156-176 | Rejects any predecessor other than the token contract, then any message other than "stake". Otherwise it succeeds exactly when staking on the sender's record, existing or new, succeeds. On success: the sender has a record dated `now`, its principal grows by exactly the deposit, its interest owed at `now` is unchanged, every other account is unchanged, nothing pending changes, and the unused amount returned is 0. |
| `Ledger.CallbackWithdrawStake` | STAKING/lib.rs:181-191 | `NotReady` and `Failed` are errors. `Successful` with no record is the `unwrap` failure. Otherwise it succeeds exactly when interest can be computed and the amount is at most the principal. On success only that account changes: its record is dated `now`, its principal falls by exactly the amount, and the interest it is owed at `now` is kept. |
| `Ledger.CallbackWithdrawInterests` | STAKING/lib.rs:192-202 | `NotReady` and `Failed` are errors. `Successful` succeeds exactly when the record exists. On success only that account changes: its record is dated `now`, its principal is kept, and it is owed zero at `now`. |
| `Ledger.Resolve` | STAKING/lib.rs:181-202 | Delivering an outcome always consumes that one entry, and only the entry's account can change. A `Successful` stake entry whose account has a record with computable interest and enough principal debits exactly its amount, re-dates the record to `now` and keeps the interest owed at `now`. Any other stake resolution leaves every record as it was. A `Successful` interest entry whose account has a record leaves it owing zero at `now`, dated `now`, with its principal kept. Any other interest resolution leaves every record as it was. |
| `Ledger.Apply` | STAKING/lib.rs:106-202 | No call, resolution or direct callback call changes the rate or the token contract. A request adds at most one pending entry and leaves every record as it was. Resolving an existing entry removes exactly one; settling an index that does not exist changes nothing. A deposit changes only the sender's record, and a direct callback call changes only the named account's record and leaves the pending entries as they were. A deposit, request or direct callback call that panics leaves the whole state unchanged. An accepted one takes effect: a deposit yields the state `ft_on_transfer` produces, with the sender's principal grown by the deposit; a request appends exactly its `PendingStake` or `PendingInterest` entry, the latter carrying the interest owed at `now`; a direct callback call yields the callback's state; and settling an existing entry is exactly `Resolve` of it. |
| `Ledger.RunPreservesConfig` | STAKING/lib.rs:83-87 | No interleaving of calls and resolutions ever writes `interest_rate` or `token_account_id`. |
| `Protocol.WithdrawStakeRoundTrip` | STAKING/lib.rs:121-191 | A stake request followed by a successful callback lowers the queried stake by exactly the amount. A request whose transfer fails or is not ready leaves the ledger identical to its state before the request. |
| `Protocol.WithdrawInterestsRoundTrip` | STAKING/lib.rs:137-202 | An interest request carries the interest owed at request time. A successful callback leaves nothing owed and keeps the principal. A failed transfer leaves the ledger identical to its state before the request. |
| `Protocol.InterestAccruedBeforeCallbackIsForfeited` | STAKING/lib.rs:137-202 | The payout is the interest at request time `t1`, which is at most the interest at callback time `t2`. After the callback nothing is owed at `t2`, so the interest accrued between `t1` and `t2` is neither paid nor kept. |
| `Protocol.ZeroPayoutForfeitsAYear` | STAKING/lib.rs:145-151 | A request for zero interest is accepted. When its callback comes one year later with the zero-amount `ft_transfer` reported as successful, it wipes the 100 000 earned in the meantime. A token contract that refuses zero transfers makes the callback panic instead, and nothing is wiped. |
| `Protocol.DoubleWithdrawalUnderflows` | STAKING/lib.rs:127-191 | Two requests for the whole stake are both accepted. After the first successful callback the stake is 0, and the second callback's unstake underflows. Resolving that second entry consumes it and leaves every record as it was, so the ledger ends with the pending entries it started with and only one debit for two transfers. |
| `Protocol.DoubleInterestPayout` | STAKING/lib.rs:137-202 | Two interest requests issued before either callback both carry the full interest owed, and both callbacks succeed. Resolving both entries consumes them and leaves nothing owed, so the amount owed is paid twice. |
| `Protocol.DepositWithdrawExample` | STAKING/lib.rs:121-191 | Deposit 1000 and request 400 back. A successful transfer leaves 600 staked. A failed transfer leaves 1000. |
| `Protocol.ForgedCallbackDebits` | STAKING/lib.rs:179-191 | Any account can call `callback_withdraw_stake(victim, x)` directly with a successful promise of its own. This debits `x` from the victim's principal with no transfer and no pending entry behind it. |
| `Protocol.ForgedCallbackWipesInterest` | STAKING/lib.rs:192-202 | A direct call of `callback_withdraw_interests(victim)` leaves the victim owing zero interest, with nothing paid and nothing pending. |
| `Reservation.ReservedRemoveAt` | STAKING/lib.rs:181-191 | Consuming an entry releases exactly that entry's reservation. |
| `Reservation.StakingWithdrawStakeReserved` | STAKING/lib.rs:121-136 | The corrected request fails exactly when the caller has no record or its principal cannot cover what is already pending plus the new amount. On success the new entry is covered. |
| `Reservation.StakingWithdrawInterestsReserved` | STAKING/lib.rs:137-152 | The corrected request fails with "no interests" when the caller has no record, and otherwise with "interest pending" exactly when a payout to the caller is still pending. Without one it succeeds exactly when the interest at `now` can be computed, and then it appends one entry carrying that interest, leaves the records untouched, and keeps at most one pending payout per account. |
| `Reservation.ApplyReserved` | STAKING/lib.rs:179-202 | In the corrected protocol a direct callback call is refused and leaves the state unchanged. A stake or interest request refused by the corrected checks also leaves the state unchanged. An accepted corrected request leaves the records untouched and appends exactly its entry. Deposits and settlements are exactly the contract's steps, so the corrected protocol differs from the contract only in the three corrections. |
| `Reservation.ReservedStepPreservesCover` | STAKING/lib.rs:121-202 | In the corrected protocol, every step keeps every account's pending stake withdrawals within its principal. The steps cover every entry-point call, every resolution and every attempted direct callback call. |
| `Reservation.RunReservedCovered` | STAKING/lib.rs:121-202 | In the corrected protocol, every interleaving keeps the pending stake withdrawals covered, including interleavings with attempted direct callback calls. |
| `Reservation.CoveredCallbackNeverUnderflows` | STAKING/lib.rs:181-191 | Under that cover, no successful stake callback fails with an underflow. |
| `Reservation.OneInterestEachRemoveAt` | STAKING/lib.rs:192-202 | Consuming any entry keeps at most one pending interest payout per account. |
| `Reservation.ReservedStepKeepsOneInterest` | STAKING/lib.rs:137-202 | In the corrected protocol, every step keeps at most one pending interest payout per account. |
| `Reservation.RunReservedOneInterest` | STAKING/lib.rs:137-202 | In the corrected protocol, every interleaving keeps at most one pending interest payout per account. |
| `Reservation.SecondInterestRequestRefused` | STAKING/lib.rs:145-151 | In the corrected protocol, once an interest request is accepted, a second request by the same account at any time before its callback is refused. |

## Left out

- Gas checks (lines 123-126, 140-143) and `assert_one_yocto` (lines 122 and 139) are left out. They are runtime and anti-spam plumbing, not ledger logic.
- The construction of the `ft_transfer` promise and of the callback promise is left out (lines 18-27, 133-135, 149-151). Each request is represented only by the `Pending` entry it appends. Each transfer's outcome is the `PromiseResult` passed to `Resolve`.
- The payload of `PromiseResult::Successful` is ignored, because the callbacks do not read it.
- Borsh serialization, `LookupMap` storage prefixes, `setup_alloc!` and the `env::state_exists` guard in `new` (lines 6-16, 82, 98-100) are left out. They are persistence mechanics. The records are a Dafny `map<string, UserStake>`.
- `ValidAccountId` validation is left out. Account ids are plain strings, and the predecessor is passed in as `caller`.
- The conversion of nanosecond block timestamps to seconds is left out. `now` is given in seconds.
- Receipt scheduling and real concurrency are left out. `Resolve` may pick any pending entry, which covers every order in which the contract's own chained callbacks can arrive. A callback that another account calls directly is the separate `Invoke` step.
- A view call's panic is reported as `Err` from `StakingInterestsOf`. Gas and view-call limits are not modelled.

## Findings

| source | as written | input that shows it | evidently intended | confidence | as-written member | corrected member |
|---|---|---|---|---|---|---|
| STAKING/lib.rs:132 | A stake withdrawal is checked against the principal alone. Withdrawals still pending for the same account are not counted, and nothing is reserved. | An account with stake `s > 0` calls `staking_withdraw_stake(s)` twice before either callback runs. Both checks pass and both transfers go out. The second callback's `amount -= s` underflows and panics, so the account receives `2s` while the ledger debits only `s`. | The withdrawals pending for an account never exceed its staked principal, so no successful callback underflows. | not executed; high, since the counterexample is proved | `Protocol.DoubleWithdrawalUnderflows` | `Reservation.RunReservedCovered` |
| STAKING/lib.rs:179-202 | `callback_withdraw_stake` and `callback_withdraw_interests` are exported by `#[near_bindgen]`. Neither is marked private, and neither checks its predecessor or a pending transfer. | A contract chains a successful promise of its own to `callback_withdraw_stake(victim, x)` with `x` at most the victim's stake. The victim's principal falls by `x` and nothing is transferred. | Only the contract itself can run its callbacks, as the continuation of a transfer it issued. | not executed; high, since the effect is proved | `Protocol.ForgedCallbackDebits` | `Reservation.ApplyReserved` |
| STAKING/lib.rs:145-151 | An interest withdrawal pays the interest owed at request time, but the record is reset only in the callback. Nothing refuses a second request while the first payout is pending. | An account owed `x > 0` calls `staking_withdraw_interests` twice before either callback runs. Both requests carry `x`, both transfers go out, and both callbacks succeed, so the account receives `2x` for interest of `x`. | Interest owed is paid out at most once, so a second payout waits until the first one's callback has reset the record. | not executed; high, since the counterexample is proved | `Protocol.DoubleInterestPayout` | `Reservation.RunReservedOneInterest` |
