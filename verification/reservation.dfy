/** The protocol with three corrections:
    - the stake-withdrawal request also counts the stake withdrawals of the
      same account still pending, instead of checking each amount against
      the whole principal (`Protocol.DoubleWithdrawalUnderflows`);
    - the interest-withdrawal request is refused while an interest payout
      to the same account is still pending, so the interest owed is not
      paid twice (`Protocol.DoubleInterestPayout`);
    - the callbacks are private: they run only as the continuation of a
      transfer the contract issued, never on a direct call
      (`Protocol.ForgedCallbackDebits`).
    Every interleaving then keeps the pending stake withdrawals covered by
    the principal, so no successful stake callback can underflow, and keeps
    at most one pending interest payout per account. */
module Reservation {
  import opened Base
  import opened Accrual
  import opened Ledger

  /** What entry `e` withholds from `account`'s principal. */
  function Contribution(e: Pending, account: string): nat {
    if e.PendingStake? && e.account == account then e.amount else 0
  }

  /** The total of `account`'s pending stake withdrawals. */
  function Reserved(p: seq<Pending>, account: string): nat
    decreases |p|
  {
    if |p| == 0 then 0
    else Reserved(p[..|p| - 1], account) + Contribution(p[|p| - 1], account)
  }

  lemma {:induction false} ReservedAppend(p: seq<Pending>, q: seq<Pending>, account: string)
    ensures Reserved(p + q, account) == Reserved(p, account) + Reserved(q, account)
    decreases |q|
  {
    if |q| > 0 {
      var q' := q[..|q| - 1];
      assert (p + q)[..|p + q| - 1] == p + q';
      ReservedAppend(p, q', account);
    } else {
      assert p + q == p;
    }
  }

  /** Removing entry `i` releases exactly that entry's contribution. */
  lemma ReservedRemoveAt(p: seq<Pending>, i: nat, account: string)
    requires i < |p|
    ensures Reserved(RemoveAt(p, i), account) + Contribution(p[i], account) == Reserved(p, account)
  {
    assert p == p[..i] + [p[i]] + p[i + 1..];
    ReservedAppend(p[..i] + [p[i]], p[i + 1..], account);
    ReservedAppend(p[..i], [p[i]], account);
    ReservedAppend(p[..i], p[i + 1..], account);
    assert Reserved([p[i]], account) == Contribution(p[i], account) by {
      assert [p[i]][..0] == [];
    }
  }

  /** Every account's pending stake withdrawals fit in its principal. */
  ghost predicate Covered(st: Staking) {
    forall account :: Reserved(st.pending, account) <= StakingAmountOf(st, account)
  }

  /** `staking_withdraw_stake` with a reservation: the amount must fit in
      what the principal has left after the account's pending withdrawals. */
  function StakingWithdrawStakeReserved(st: Staking, caller: string, amount: u128): (r: Result<Staking>)
    ensures r == Err(NoStake) <==> caller !in st.stakes
    ensures r == Err(NotEnoughStake) <==>
      caller in st.stakes && st.stakes[caller].amount < Reserved(st.pending, caller) + amount
    ensures r.Ok? || r == Err(NoStake) || r == Err(NotEnoughStake)
    ensures r.Ok? ==> r.value.stakes == st.stakes && SameConfig(st, r.value)
    ensures r.Ok? ==> r.value.pending == st.pending + [PendingStake(caller, amount)]
    ensures r.Ok? ==> Reserved(r.value.pending, caller) <= StakingAmountOf(r.value, caller)
  {
    if caller !in st.stakes then Err(NoStake)
    else if st.stakes[caller].amount < Reserved(st.pending, caller) + amount then Err(NotEnoughStake)
    else
      var next := st.(pending := st.pending + [PendingStake(caller, amount)]);
      assert next.pending[..|next.pending| - 1] == st.pending;
      Ok(next)
  }

  /** Whether an interest payout to `account` is waiting for its callback. */
  predicate InterestPendingFor(p: seq<Pending>, account: string) {
    exists k :: 0 <= k < |p| && p[k].PendingInterest? && p[k].account == account
  }

  /** No account has two interest payouts waiting at once. */
  predicate OneInterestEach(p: seq<Pending>) {
    forall i, j :: 0 <= i < j < |p| && p[i].PendingInterest? && p[j].PendingInterest? ==>
      p[i].account != p[j].account
  }

  /** `staking_withdraw_interests` refusing a second payout: while one is
      pending for `caller` the request fails; otherwise it is the contract's
      request unchanged. */
  function StakingWithdrawInterestsReserved(st: Staking, caller: string, now: u64): (r: Result<Staking>)
    ensures caller !in st.stakes ==> r == Err(NoInterests)
    ensures caller in st.stakes ==>
      (r == Err(InterestPending) <==> InterestPendingFor(st.pending, caller))
    ensures caller in st.stakes && !InterestPendingFor(st.pending, caller) ==>
      (r.Ok? <==> StakingInterestsOf(st, caller, now).Ok?)
    ensures r.Ok? ==> r.value.stakes == st.stakes && SameConfig(st, r.value)
    ensures r.Ok? ==>
      r.value.pending == st.pending + [PendingInterest(caller, StakingInterestsOf(st, caller, now).value)]
    ensures r.Ok? && OneInterestEach(st.pending) ==> OneInterestEach(r.value.pending)
  {
    if caller !in st.stakes then Err(NoInterests)
    else if InterestPendingFor(st.pending, caller) then Err(InterestPending)
    else
      var next :- StakingWithdrawInterests(st, caller, now);
      Ok(next)
  }

  /** `Ledger.Apply` with the reserving requests and with direct callback
      calls refused. */
  function ApplyReserved(st: Staking, op: Op, now: u64): (r: Staking)
    ensures SameConfig(st, r)
    ensures op.Invoke? ==> r == st
    ensures op.WithdrawStake? && StakingWithdrawStakeReserved(st, op.caller, op.amount).Err? ==> r == st
    ensures op.WithdrawInterests? && StakingWithdrawInterestsReserved(st, op.caller, now).Err? ==> r == st
    ensures op.Deposit? || op.Settle? ==> r == Apply(st, op, now)
    ensures op.WithdrawStake? && StakingWithdrawStakeReserved(st, op.caller, op.amount).Ok? ==>
      r.stakes == st.stakes && r.pending == st.pending + [PendingStake(op.caller, op.amount)]
    ensures op.WithdrawInterests? && StakingWithdrawInterestsReserved(st, op.caller, now).Ok? ==>
      r.stakes == st.stakes
      && r.pending == st.pending + [PendingInterest(op.caller, StakingInterestsOf(st, op.caller, now).value)]
  {
    match op
    case WithdrawStake(caller, amount) =>
      (match StakingWithdrawStakeReserved(st, caller, amount)
       case Ok(next) => next
       case Err(_) => st)
    case WithdrawInterests(caller) =>
      (match StakingWithdrawInterestsReserved(st, caller, now)
       case Ok(next) => next
       case Err(_) => st)
    case Invoke(_, _) => st
    case _ => Apply(st, op, now)
  }

  function RunReserved(st: Staking, steps: seq<Step>): Staking
    decreases |steps|
  {
    if |steps| == 0 then st
    else RunReserved(ApplyReserved(st, steps[0].op, steps[0].now), steps[1..])
  }

  lemma InitCovered(interestRate: u128, tokenAccountId: string)
    ensures Covered(Init(interestRate, tokenAccountId))
  {
  }

  /** Appending an entry that withholds nothing keeps the cover. */
  lemma AppendNothingReserved(st: Staking, next: Staking, e: Pending)
    requires Covered(st)
    requires next.stakes == st.stakes && next.pending == st.pending + [e]
    requires forall account :: Contribution(e, account) == 0
    ensures Covered(next)
  {
    forall account
      ensures Reserved(next.pending, account) <= StakingAmountOf(next, account)
    {
      assert next.pending[..|next.pending| - 1] == st.pending;
      assert Reserved(st.pending, account) <= StakingAmountOf(st, account);
    }
  }

  lemma DepositKeepsCover(st: Staking, predecessor: string, sender: string, amount: u128, msg: string, now: u64)
    requires Covered(st)
    requires FtOnTransfer(st, predecessor, sender, amount, msg, now).Ok?
    ensures Covered(FtOnTransfer(st, predecessor, sender, amount, msg, now).value.0)
  {
    var next := FtOnTransfer(st, predecessor, sender, amount, msg, now).value.0;
    forall account
      ensures Reserved(next.pending, account) <= StakingAmountOf(next, account)
    {
      assert Reserved(st.pending, account) <= StakingAmountOf(st, account);
      if account != sender {
        assert account in next.stakes - {sender} <==> account in st.stakes - {sender};
      }
    }
  }

  lemma WithdrawStakeKeepsCover(st: Staking, caller: string, amount: u128)
    requires Covered(st)
    requires StakingWithdrawStakeReserved(st, caller, amount).Ok?
    ensures Covered(StakingWithdrawStakeReserved(st, caller, amount).value)
  {
    var next := StakingWithdrawStakeReserved(st, caller, amount).value;
    forall account
      ensures Reserved(next.pending, account) <= StakingAmountOf(next, account)
    {
      assert next.pending[..|next.pending| - 1] == st.pending;
      assert Reserved(st.pending, account) <= StakingAmountOf(st, account);
    }
  }

  /** Settling any entry with any outcome keeps the cover: a successful stake
      callback takes from the principal exactly what its entry released. */
  lemma ResolveKeepsCover(st: Staking, i: nat, outcome: PromiseResult, now: u64)
    requires Covered(st) && i < |st.pending|
    ensures Covered(Resolve(st, i, outcome, now))
  {
    var e := st.pending[i];
    var rest := st.(pending := RemoveAt(st.pending, i));
    var next := Resolve(st, i, outcome, now);
    var called := Callback(rest, e, outcome, now);
    assert called.Ok? ==> next == called.value;
    assert called.Err? ==> next == rest;
    forall account
      ensures Reserved(next.pending, account) <= StakingAmountOf(next, account)
    {
      ReservedRemoveAt(st.pending, i, account);
      assert Reserved(st.pending, account) <= StakingAmountOf(st, account);
      if account != e.account {
        assert account in next.stakes - {e.account} <==> account in st.stakes - {e.account};
      } else if called.Ok? && e.PendingStake? {
        assert StakingAmountOf(next, account) == StakingAmountOf(st, account) - e.amount;
      }
    }
  }

  /** Every step of the reserving protocol keeps the cover. */
  lemma ReservedStepPreservesCover(st: Staking, op: Op, now: u64)
    requires Covered(st)
    ensures Covered(ApplyReserved(st, op, now))
  {
    match op
    case Deposit(predecessor, sender, amount, msg) =>
      if FtOnTransfer(st, predecessor, sender, amount, msg, now).Ok? {
        DepositKeepsCover(st, predecessor, sender, amount, msg, now);
      }
    case WithdrawStake(caller, amount) =>
      if StakingWithdrawStakeReserved(st, caller, amount).Ok? {
        WithdrawStakeKeepsCover(st, caller, amount);
      }
    case WithdrawInterests(caller) =>
      var r := StakingWithdrawInterestsReserved(st, caller, now);
      if r.Ok? {
        AppendNothingReserved(st, r.value, r.value.pending[|st.pending|]);
      }
    case Settle(i, outcome) =>
      if i < |st.pending| {
        ResolveKeepsCover(st, i, outcome, now);
      }
    case Invoke(_, _) =>
  }

  /** Every interleaving of the reserving protocol from initialisation keeps
      the cover. */
  lemma {:induction false} RunReservedCovered(st: Staking, steps: seq<Step>)
    requires Covered(st)
    ensures Covered(RunReserved(st, steps))
    decreases |steps|
  {
    if |steps| > 0 {
      ReservedStepPreservesCover(st, steps[0].op, steps[0].now);
      RunReservedCovered(ApplyReserved(st, steps[0].op, steps[0].now), steps[1..]);
    }
  }

  /** Under the cover no successful stake callback underflows: the entry's
      amount is at most what the account has staked. */
  lemma CoveredCallbackNeverUnderflows(st: Staking, i: nat, now: u64)
    requires Covered(st) && i < |st.pending| && st.pending[i].PendingStake?
    ensures var rest := st.(pending := RemoveAt(st.pending, i));
      Callback(rest, st.pending[i], Successful, now) != Err(AmountUnderflow)
  {
    var e := st.pending[i];
    ReservedRemoveAt(st.pending, i, e.account);
    assert Reserved(st.pending, e.account) <= StakingAmountOf(st, e.account);
  }

  /** Removing an entry keeps the payouts one per account. */
  lemma OneInterestEachRemoveAt(p: seq<Pending>, i: nat)
    requires i < |p| && OneInterestEach(p)
    ensures OneInterestEach(RemoveAt(p, i))
  {
    var q := RemoveAt(p, i);
    forall a, b | 0 <= a < b < |q| && q[a].PendingInterest? && q[b].PendingInterest?
      ensures q[a].account != q[b].account
    {
      var a' := if a < i then a else a + 1;
      var b' := if b < i then b else b + 1;
      assert q[a] == p[a'] && q[b] == p[b'];
    }
  }

  /** Every step of the corrected protocol keeps at most one pending interest
      payout per account. */
  lemma ReservedStepKeepsOneInterest(st: Staking, op: Op, now: u64)
    requires OneInterestEach(st.pending)
    ensures OneInterestEach(ApplyReserved(st, op, now).pending)
  {
    match op
    case Deposit(predecessor, sender, amount, msg) =>
    case WithdrawStake(caller, amount) =>
      var r := StakingWithdrawStakeReserved(st, caller, amount);
      if r.Ok? {
        var p := r.value.pending;
        assert forall k :: 0 <= k < |st.pending| ==> p[k] == st.pending[k];
      }
    case WithdrawInterests(caller) =>
    case Settle(i, outcome) =>
      if i < |st.pending| {
        OneInterestEachRemoveAt(st.pending, i);
      }
    case Invoke(_, _) =>
  }

  /** Every interleaving of the corrected protocol keeps at most one pending
      interest payout per account. */
  lemma {:induction false} RunReservedOneInterest(st: Staking, steps: seq<Step>)
    requires OneInterestEach(st.pending)
    ensures OneInterestEach(RunReserved(st, steps).pending)
    decreases |steps|
  {
    if |steps| > 0 {
      ReservedStepKeepsOneInterest(st, steps[0].op, steps[0].now);
      RunReservedOneInterest(ApplyReserved(st, steps[0].op, steps[0].now), steps[1..]);
    }
  }

  /** A second interest request before the first one's callback is refused,
      so the interest owed at request time is paid out at most once. */
  lemma SecondInterestRequestRefused(st: Staking, account: string, t1: u64, t2: u64)
    requires StakingWithdrawInterestsReserved(st, account, t1).Ok?
    ensures StakingWithdrawInterestsReserved(StakingWithdrawInterestsReserved(st, account, t1).value, account, t2)
      == Err(InterestPending)
  {
    var next := StakingWithdrawInterestsReserved(st, account, t1).value;
    assert next.pending[|st.pending|].PendingInterest?;
  }
}
