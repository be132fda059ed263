/** The staking contract (`Staking`): the map from account to accrual record,
    the global interest rate, the fungible-token contract it accepts, and the
    withdrawal transfers that are still waiting for their callback.

    Each public entry point is a function returning `Result`: a panic reverts
    the call, so an `Err` leaves the caller holding the state it had. A
    withdrawal request appends a pending entry instead of building a promise;
    `Resolve` later delivers the token transfer's outcome to the callback of
    any one pending entry, in whatever order the scheduler picks. */
module Ledger {
  import opened Base
  import opened Accrual

  /** Outcome of the `ft_transfer` promise as the callback sees it. */
  datatype PromiseResult = Successful | Failed | NotReady

  /** A token transfer issued by a withdrawal request whose callback has not
      run yet, with the arguments the callback will receive. */
  datatype Pending =
    | PendingStake(account: string, amount: u128)
    | PendingInterest(account: string, amount: u128)

  datatype Staking = Staking(
    stakes: map<string, UserStake>,
    interestRate: u128,
    tokenAccountId: string,
    pending: seq<Pending>)

  /** The two fields fixed at initialisation. */
  predicate SameConfig(a: Staking, b: Staking) {
    a.interestRate == b.interestRate && a.tokenAccountId == b.tokenAccountId
  }

  /** Equal records for every account other than `account`. */
  predicate OthersUnchanged(a: map<string, UserStake>, b: map<string, UserStake>, account: string) {
    a - {account} == b - {account}
  }

  /** The initialiser: no records, nothing pending. */
  function Init(interestRate: u128, tokenAccountId: string): (st: Staking)
    ensures forall account :: StakingAmountOf(st, account) == 0
    ensures forall account, now :: StakingInterestsOf(st, account, now) == Ok(0)
    ensures st.pending == [] && st.interestRate == interestRate && st.tokenAccountId == tokenAccountId
  {
    Staking(map[], interestRate, tokenAccountId, [])
  }

  /** The staked principal of `account`; an account without a record has none. */
  function StakingAmountOf(st: Staking, account: string): (r: u128)
    ensures account !in st.stakes ==> r == 0
    ensures account in st.stakes ==> r == st.stakes[account].amount
  {
    if account in st.stakes then st.stakes[account].amount else 0
  }

  /** The interest `account` is owed at `now`; none without a record. The
      computation can panic on overflow or on a record dated after `now`. */
  function StakingInterestsOf(st: Staking, account: string, now: u64): (r: Result<u128>)
    ensures account !in st.stakes ==> r == Ok(0)
    ensures account in st.stakes ==> r == CalcInterests(st.stakes[account], st.interestRate, now)
  {
    if account in st.stakes then CalcInterests(st.stakes[account], st.interestRate, now) else Ok(0)
  }

  /** The record a deposit for `account` updates: the stored one, or a new
      empty one dated `now`. */
  function RecordOf(st: Staking, account: string, now: u64): (s: UserStake)
    ensures s.amount == StakingAmountOf(st, account)
    ensures account in st.stakes ==> s == st.stakes[account]
    ensures account !in st.stakes ==> s == New(0, now)
  {
    if account in st.stakes then st.stakes[account] else New(0, now)
  }

  /** `staking_withdraw_stake`, called by `caller`: checks the stake covers
      `amount` and issues the transfer; the principal is not touched and
      nothing is reserved. */
  function StakingWithdrawStake(st: Staking, caller: string, amount: u128): (r: Result<Staking>)
    ensures r == Err(NoStake) <==> caller !in st.stakes
    ensures r == Err(NotEnoughStake) <==> caller in st.stakes && st.stakes[caller].amount < amount
    ensures r.Ok? || r == Err(NoStake) || r == Err(NotEnoughStake)
    ensures r.Ok? ==> r.value.stakes == st.stakes && SameConfig(st, r.value)
    ensures r.Ok? ==> r.value.pending == st.pending + [PendingStake(caller, amount)]
  {
    if caller !in st.stakes then Err(NoStake)
    else if st.stakes[caller].amount < amount then Err(NotEnoughStake)
    else Ok(st.(pending := st.pending + [PendingStake(caller, amount)]))
  }

  /** `staking_withdraw_interests`, called by `caller`: fixes the payout at
      the interest owed now and issues the transfer; a zero payout is not
      refused and the record is not touched. */
  function StakingWithdrawInterests(st: Staking, caller: string, now: u64): (r: Result<Staking>)
    ensures caller !in st.stakes ==> r == Err(NoInterests)
    ensures caller in st.stakes ==> (r.Ok? <==> StakingInterestsOf(st, caller, now).Ok?)
    ensures caller in st.stakes && r.Err? ==> r.error == StakingInterestsOf(st, caller, now).error
    ensures r.Ok? ==> r.value.stakes == st.stakes && SameConfig(st, r.value)
    ensures r.Ok? ==> r.value.pending == st.pending + [PendingInterest(caller, StakingInterestsOf(st, caller, now).value)]
  {
    if caller !in st.stakes then Err(NoInterests)
    else
      var payout :- CalcInterests(st.stakes[caller], st.interestRate, now);
      Ok(st.(pending := st.pending + [PendingInterest(caller, payout)]))
  }

  /** `ft_on_transfer`: the token contract `predecessor` reports that
      `sender` sent `amount` tokens with message `msg`. Only the configured
      token and the message "stake" are accepted; the deposit is staked
      on `sender`'s record, creating it if needed, and no tokens are returned
      unused. */
  function FtOnTransfer(st: Staking, predecessor: string, sender: string, amount: u128, msg: string, now: u64)
    : (r: Result<(Staking, u128)>)
    ensures predecessor != st.tokenAccountId ==> r == Err(UnsupportedToken)
    ensures predecessor == st.tokenAccountId && msg != "stake" ==> r == Err(UnsupportedMessage)
    ensures predecessor == st.tokenAccountId && msg == "stake" ==>
      (r.Ok? <==> Stake(RecordOf(st, sender, now), amount, st.interestRate, now).Ok?)
    ensures r.Ok? ==> r.value.1 == 0 && SameConfig(st, r.value.0) && r.value.0.pending == st.pending
    ensures r.Ok? ==> sender in r.value.0.stakes && OthersUnchanged(r.value.0.stakes, st.stakes, sender)
    ensures r.Ok? ==> r.value.0.stakes[sender].date == now
    ensures r.Ok? ==> StakingAmountOf(r.value.0, sender) == StakingAmountOf(st, sender) + amount
    ensures r.Ok? ==> StakingInterestsOf(r.value.0, sender, now) == StakingInterestsOf(st, sender, now)
  {
    if predecessor != st.tokenAccountId then Err(UnsupportedToken)
    else if msg != "stake" then Err(UnsupportedMessage)
    else
      var record := RecordOf(st, sender, now);
      assert CalcInterests(New(0, now), st.interestRate, now) == Ok(0);
      var staked :- Stake(record, amount, st.interestRate, now);
      Ok((st.(stakes := st.stakes[sender := staked]), 0))
  }

  /** `callback_withdraw_stake`: on a successful transfer, unstake `amount`
      from `account`'s record; a failed or unready transfer panics. */
  function CallbackWithdrawStake(st: Staking, account: string, amount: u128, outcome: PromiseResult, now: u64)
    : (r: Result<Staking>)
    ensures outcome == NotReady ==> r == Err(PromiseNotReady)
    ensures outcome == Failed ==> r == Err(TransferFailed)
    ensures outcome == Successful && account !in st.stakes ==> r == Err(MissingStake)
    ensures outcome == Successful && account in st.stakes ==>
      (r.Ok? <==> StakingInterestsOf(st, account, now).Ok? && amount <= st.stakes[account].amount)
    ensures r.Ok? ==> SameConfig(st, r.value) && r.value.pending == st.pending
    ensures r.Ok? ==> account in r.value.stakes && OthersUnchanged(r.value.stakes, st.stakes, account)
    ensures r.Ok? ==> r.value.stakes[account].date == now
    ensures r.Ok? ==> StakingAmountOf(r.value, account) == StakingAmountOf(st, account) - amount
    ensures r.Ok? ==> StakingInterestsOf(r.value, account, now) == StakingInterestsOf(st, account, now)
  {
    match outcome
    case NotReady => Err(PromiseNotReady)
    case Failed => Err(TransferFailed)
    case Successful =>
      if account !in st.stakes then Err(MissingStake)
      else
        var unstaked :- Unstake(st.stakes[account], amount, st.interestRate, now);
        Ok(st.(stakes := st.stakes[account := unstaked]))
  }

  /** `callback_withdraw_interests`: on a successful transfer, reset
      `account`'s interest to zero as of `now`; a failed or unready transfer
      panics. */
  function CallbackWithdrawInterests(st: Staking, account: string, outcome: PromiseResult, now: u64)
    : (r: Result<Staking>)
    ensures outcome == NotReady ==> r == Err(PromiseNotReady)
    ensures outcome == Failed ==> r == Err(TransferFailed)
    ensures outcome == Successful ==> (r.Ok? <==> account in st.stakes)
    ensures outcome == Successful && account !in st.stakes ==> r == Err(MissingStake)
    ensures r.Ok? ==> SameConfig(st, r.value) && r.value.pending == st.pending
    ensures r.Ok? ==> account in r.value.stakes && OthersUnchanged(r.value.stakes, st.stakes, account)
    ensures r.Ok? ==> r.value.stakes[account].date == now
    ensures r.Ok? ==> StakingAmountOf(r.value, account) == StakingAmountOf(st, account)
    ensures r.Ok? ==> StakingInterestsOf(r.value, account, now) == Ok(0)
  {
    match outcome
    case NotReady => Err(PromiseNotReady)
    case Failed => Err(TransferFailed)
    case Successful =>
      if account !in st.stakes then Err(MissingStake)
      else Ok(st.(stakes := st.stakes[account := ResetInterests(st.stakes[account], now)]))
  }

  /** `p` without its entry at index `i`. */
  function RemoveAt(p: seq<Pending>, i: nat): (q: seq<Pending>)
    requires i < |p|
    ensures |q| == |p| - 1
    ensures forall j :: 0 <= j < i ==> q[j] == p[j]
    ensures forall j :: i <= j < |q| ==> q[j] == p[j + 1]
  {
    p[..i] + p[i + 1..]
  }

  /** The callback that a pending entry was chained to. */
  function Callback(st: Staking, entry: Pending, outcome: PromiseResult, now: u64): Result<Staking> {
    match entry
    case PendingStake(account, amount) => CallbackWithdrawStake(st, account, amount, outcome, now)
    case PendingInterest(account, _) => CallbackWithdrawInterests(st, account, outcome, now)
  }

  /** Runs the callback of pending entry `i` with the transfer's `outcome`.
      The entry is consumed whatever happens; the callback's changes are kept
      only when it does not panic. */
  function Resolve(st: Staking, i: nat, outcome: PromiseResult, now: u64): (r: Staking)
    requires i < |st.pending|
    ensures r.pending == RemoveAt(st.pending, i) && SameConfig(st, r)
    ensures outcome != Successful ==> r.stakes == st.stakes
    ensures OthersUnchanged(r.stakes, st.stakes, st.pending[i].account)
    ensures st.pending[i].PendingInterest? ==>
      StakingAmountOf(r, st.pending[i].account) == StakingAmountOf(st, st.pending[i].account)
    ensures st.pending[i].PendingStake? ==>
      var (a, x) := (st.pending[i].account, st.pending[i].amount);
      if outcome == Successful && a in st.stakes && StakingInterestsOf(st, a, now).Ok? && x <= st.stakes[a].amount
      then a in r.stakes && StakingAmountOf(r, a) == StakingAmountOf(st, a) - x && r.stakes[a].date == now
        && StakingInterestsOf(r, a, now) == StakingInterestsOf(st, a, now)
      else r.stakes == st.stakes
    ensures st.pending[i].PendingInterest? ==>
      var a := st.pending[i].account;
      if outcome == Successful && a in st.stakes
      then a in r.stakes && StakingInterestsOf(r, a, now) == Ok(0) && r.stakes[a].date == now
      else r.stakes == st.stakes
  {
    var rest := st.(pending := RemoveAt(st.pending, i));
    match Callback(rest, st.pending[i], outcome, now)
    case Ok(next) => next
    case Err(_) => rest
  }

  /** One call into the contract, or the delivery of one transfer outcome.
      `Invoke` is a direct call of a callback by any account, with an outcome
      of that caller's own chosen promise: the callbacks are exported and
      check neither their predecessor nor a pending transfer. */
  datatype Op =
    | Deposit(predecessor: string, sender: string, amount: u128, msg: string)
    | WithdrawStake(caller: string, amount: u128)
    | WithdrawInterests(caller: string)
    | Settle(index: nat, outcome: PromiseResult)
    | Invoke(call: Pending, outcome: PromiseResult)

  /** The state after `op` at time `now`: a panicking call leaves the state as
      it was, and a settlement of an entry that does not exist is no step. */
  function Apply(st: Staking, op: Op, now: u64): (r: Staking)
    ensures SameConfig(st, r)
    ensures !op.Settle? && !op.Invoke? ==> |r.pending| <= |st.pending| + 1
    ensures op.Settle? && op.index < |st.pending| ==> |r.pending| == |st.pending| - 1
    ensures op.Invoke? ==> r.pending == st.pending
    ensures op.WithdrawStake? || op.WithdrawInterests? ==> r.stakes == st.stakes
    ensures op.Deposit? ==> OthersUnchanged(r.stakes, st.stakes, op.sender)
    ensures op.Invoke? ==> OthersUnchanged(r.stakes, st.stakes, op.call.account)
    ensures op.Deposit? && FtOnTransfer(st, op.predecessor, op.sender, op.amount, op.msg, now).Err? ==> r == st
    ensures op.WithdrawStake? && StakingWithdrawStake(st, op.caller, op.amount).Err? ==> r == st
    ensures op.WithdrawInterests? && StakingWithdrawInterests(st, op.caller, now).Err? ==> r == st
    ensures op.Invoke? && Callback(st, op.call, op.outcome, now).Err? ==> r == st
    ensures op.Settle? && op.index >= |st.pending| ==> r == st
    ensures op.Settle? && op.index < |st.pending| ==> r == Resolve(st, op.index, op.outcome, now)
    ensures op.Deposit? && FtOnTransfer(st, op.predecessor, op.sender, op.amount, op.msg, now).Ok? ==>
      r == FtOnTransfer(st, op.predecessor, op.sender, op.amount, op.msg, now).value.0
      && StakingAmountOf(r, op.sender) == StakingAmountOf(st, op.sender) + op.amount && r.pending == st.pending
    ensures op.WithdrawStake? && StakingWithdrawStake(st, op.caller, op.amount).Ok? ==>
      r.pending == st.pending + [PendingStake(op.caller, op.amount)]
    ensures op.WithdrawInterests? && StakingWithdrawInterests(st, op.caller, now).Ok? ==>
      r.pending == st.pending + [PendingInterest(op.caller, StakingInterestsOf(st, op.caller, now).value)]
    ensures op.Invoke? && Callback(st, op.call, op.outcome, now).Ok? ==>
      r == Callback(st, op.call, op.outcome, now).value
  {
    match op
    case Deposit(predecessor, sender, amount, msg) =>
      (match FtOnTransfer(st, predecessor, sender, amount, msg, now)
       case Ok((next, _)) => next
       case Err(_) => st)
    case WithdrawStake(caller, amount) =>
      (match StakingWithdrawStake(st, caller, amount)
       case Ok(next) => next
       case Err(_) => st)
    case WithdrawInterests(caller) =>
      (match StakingWithdrawInterests(st, caller, now)
       case Ok(next) => next
       case Err(_) => st)
    case Settle(i, outcome) =>
      if i < |st.pending| then Resolve(st, i, outcome, now) else st
    case Invoke(call, outcome) =>
      (match Callback(st, call, outcome, now)
       case Ok(next) => next
       case Err(_) => st)
  }

  /** One scheduled step: an operation and the block time it runs at. */
  datatype Step = Step(op: Op, now: u64)

  /** The state after an interleaving of calls and settlements. */
  function Run(st: Staking, steps: seq<Step>): Staking
    decreases |steps|
  {
    if |steps| == 0 then st
    else Run(Apply(st, steps[0].op, steps[0].now), steps[1..])
  }

  /** No interleaving changes the interest rate or the token contract. */
  lemma {:induction false} RunPreservesConfig(st: Staking, steps: seq<Step>)
    ensures SameConfig(st, Run(st, steps))
    decreases |steps|
  {
    if |steps| > 0 {
      RunPreservesConfig(Apply(st, steps[0].op, steps[0].now), steps[1..]);
    }
  }
}
