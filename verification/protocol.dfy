/** What a withdrawal request and its callback do together, and what the
    contract's request/callback split lets an interleaving do. */
module Protocol {
  import opened Base
  import opened Accrual
  import opened Ledger

  /** A stake withdrawal that is transferred reduces the principal by exactly
      the amount; one whose transfer fails leaves the state exactly as it was
      before the request. */
  lemma WithdrawStakeRoundTrip(st: Staking, account: string, amount: u128, now: u64)
    requires StakingWithdrawStake(st, account, amount).Ok?
    requires StakingInterestsOf(st, account, now).Ok?
    ensures var requested := StakingWithdrawStake(st, account, amount).value;
      && StakingAmountOf(Resolve(requested, |st.pending|, Successful, now), account)
           == StakingAmountOf(st, account) - amount
      && Resolve(requested, |st.pending|, Successful, now).pending == st.pending
      && Resolve(requested, |st.pending|, Failed, now) == st
      && Resolve(requested, |st.pending|, NotReady, now) == st
  {
    var requested := StakingWithdrawStake(st, account, amount).value;
    var i := |st.pending|;
    assert RemoveAt(requested.pending, i) == st.pending;
    var rest := requested.(pending := st.pending);
    assert rest == st;
    assert Callback(rest, requested.pending[i], Successful, now).Ok?;
  }

  /** An interest withdrawal that is transferred pays the interest owed at
      request time and leaves nothing owed at callback time; one whose
      transfer fails leaves the state exactly as it was. */
  lemma WithdrawInterestsRoundTrip(st: Staking, account: string, now: u64)
    requires StakingWithdrawInterests(st, account, now).Ok?
    ensures var requested := StakingWithdrawInterests(st, account, now).value;
      && requested.pending[|st.pending|] == PendingInterest(account, StakingInterestsOf(st, account, now).value)
      && StakingInterestsOf(Resolve(requested, |st.pending|, Successful, now), account, now) == Ok(0)
      && StakingAmountOf(Resolve(requested, |st.pending|, Successful, now), account) == StakingAmountOf(st, account)
      && Resolve(requested, |st.pending|, Failed, now) == st
  {
    var requested := StakingWithdrawInterests(st, account, now).value;
    var i := |st.pending|;
    assert RemoveAt(requested.pending, i) == st.pending;
    assert requested.(pending := st.pending) == st;
  }

  /** The payout is fixed when interest is requested at `t1`, but the
      callback at `t2` zeroes the record as of `t2`: whatever accrued in
      between is neither paid nor kept. */
  lemma InterestAccruedBeforeCallbackIsForfeited(st: Staking, account: string, t1: u64, t2: u64)
    requires t1 <= t2
    requires StakingWithdrawInterests(st, account, t1).Ok?
    requires StakingInterestsOf(st, account, t2).Ok?
    ensures var requested := StakingWithdrawInterests(st, account, t1).value;
      var paid := requested.pending[|st.pending|].amount;
      var settled := Resolve(requested, |st.pending|, Successful, t2);
      && paid == StakingInterestsOf(st, account, t1).value
      && paid <= StakingInterestsOf(st, account, t2).value
      && StakingInterestsOf(settled, account, t2) == Ok(0)
  {
    var requested := StakingWithdrawInterests(st, account, t1).value;
    assert account in st.stakes;
    CalcMonotone(st.stakes[account], st.interestRate, t1, t2);
    var i := |st.pending|;
    assert RemoveAt(requested.pending, i) == st.pending;
    assert requested.(pending := st.pending) == st;
  }

  /** Concretely: a request issued the moment 1_000_000 tokens are staked at
      10% pays nothing, and a callback one year later wipes the 100_000
      tokens of interest earned meanwhile. Nothing refuses the empty payout. */
  lemma ZeroPayoutForfeitsAYear(st: Staking, account: string)
    requires st.interestRate == 10_000_000 && st.pending == []
    requires st.stakes == map[account := UserStake(1_000_000, 0, 0)]
    ensures var requested := StakingWithdrawInterests(st, account, 0);
      && requested.Ok?
      && requested.value.pending == [PendingInterest(account, 0)]
      && StakingInterestsOf(st, account, SecondsPerYear) == Ok(100_000)
      && StakingInterestsOf(Resolve(requested.value, 0, Successful, SecondsPerYear), account, SecondsPerYear) == Ok(0)
  {
    TenPercentForOneYear();
  }

  /** The stake check reads the principal but reserves nothing: two requests
      for the whole stake are both accepted, the first successful callback
      empties the record, and the second one's unstake underflows, so its
      callback panics after its transfer has already gone out. */
  lemma DoubleWithdrawalUnderflows(st: Staking, account: string, now: u64)
    requires account in st.stakes && st.stakes[account].amount > 0
    requires StakingInterestsOf(st, account, now).Ok?
    ensures var whole := st.stakes[account].amount;
      var first := StakingWithdrawStake(st, account, whole);
      && first.Ok?
      && var second := StakingWithdrawStake(first.value, account, whole);
      && second.Ok?
      && var settled := Resolve(second.value, |st.pending|, Successful, now);
      && StakingAmountOf(settled, account) == 0
      && settled.pending == st.pending + [PendingStake(account, whole)]
      && CallbackWithdrawStake(settled, account, whole, Successful, now) == Err(AmountUnderflow)
      && Resolve(settled, |st.pending|, Successful, now).stakes == settled.stakes
      && Resolve(settled, |st.pending|, Successful, now).pending == st.pending
  {
    var whole := st.stakes[account].amount;
    var first := StakingWithdrawStake(st, account, whole).value;
    var second := StakingWithdrawStake(first, account, whole).value;
    var i := |st.pending|;
    assert RemoveAt(second.pending, i) == st.pending + [PendingStake(account, whole)];
    var settled := Resolve(second, i, Successful, now);
    assert settled.stakes[account].date == now;
    assert RemoveAt(settled.pending, i) == st.pending;
  }

  /** Two interest requests issued before either callback both carry the
      full amount owed, and both callbacks succeed: the account is paid twice
      what it was owed (`Reservation.StakingWithdrawInterestsReserved` refuses
      the second request). */
  lemma DoubleInterestPayout(st: Staking, account: string, now: u64)
    requires StakingWithdrawInterests(st, account, now).Ok?
    ensures var owed := StakingInterestsOf(st, account, now).value;
      var first := StakingWithdrawInterests(st, account, now).value;
      var second := StakingWithdrawInterests(first, account, now);
      && second.Ok?
      && second.value.pending == st.pending + [PendingInterest(account, owed), PendingInterest(account, owed)]
      && var once := Resolve(second.value, |st.pending|, Successful, now);
      && once.pending == st.pending + [PendingInterest(account, owed)]
      && CallbackWithdrawInterests(once, account, Successful, now).Ok?
      && var twice := Resolve(once, |st.pending|, Successful, now);
      && twice.pending == st.pending
      && StakingInterestsOf(twice, account, now) == Ok(0)
  {
    var first := StakingWithdrawInterests(st, account, now).value;
    var second := StakingWithdrawInterests(first, account, now).value;
    var i := |st.pending|;
    assert RemoveAt(second.pending, i) == st.pending + [PendingInterest(account, StakingInterestsOf(st, account, now).value)];
    var once := Resolve(second, i, Successful, now);
    assert RemoveAt(once.pending, i) == st.pending;
  }

  /** Deposit 1000, request 400 back: a successful transfer leaves 600 staked,
      a failed one leaves all 1000. */
  lemma DepositWithdrawExample(rate: u128, token: string, account: string, now: u64)
    ensures var deposited := FtOnTransfer(Init(rate, token), token, account, 1000, "stake", now);
      && deposited.Ok?
      && StakingAmountOf(deposited.value.0, account) == 1000
      && var requested := StakingWithdrawStake(deposited.value.0, account, 400);
      && requested.Ok?
      && StakingAmountOf(Resolve(requested.value, 0, Successful, now), account) == 600
      && StakingAmountOf(Resolve(requested.value, 0, Failed, now), account) == 1000
  {
    var deposited := FtOnTransfer(Init(rate, token), token, account, 1000, "stake", now).value.0;
    assert StakingInterestsOf(deposited, account, now) == Ok(0);
    WithdrawStakeRoundTrip(deposited, account, 400, now);
  }

  /** The callbacks are exported without a check of their caller, so any
      account can chain a successful promise of its own to
      `callback_withdraw_stake(victim, x)`: the victim's principal falls by
      `x` with no transfer and no pending withdrawal behind it. */
  lemma ForgedCallbackDebits(st: Staking, victim: string, x: u128, now: u64)
    requires victim in st.stakes && x <= st.stakes[victim].amount
    requires StakingInterestsOf(st, victim, now).Ok?
    ensures var forged := Apply(st, Invoke(PendingStake(victim, x), Successful), now);
      && forged.pending == st.pending
      && StakingAmountOf(forged, victim) == StakingAmountOf(st, victim) - x
  {
  }

  /** Likewise a direct call of `callback_withdraw_interests(victim)` wipes
      the interest the victim is owed, with nothing paid out. */
  lemma ForgedCallbackWipesInterest(st: Staking, victim: string, now: u64)
    requires victim in st.stakes
    ensures var forged := Apply(st, Invoke(PendingInterest(victim, 0), Successful), now);
      && forged.pending == st.pending
      && StakingInterestsOf(forged, victim, now) == Ok(0)
  {
  }
}
