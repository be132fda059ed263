/** One account's accrual record (`UserStake`): the staked principal, the
    interest locked in at the last snapshot, and the time of that snapshot.
    Every read of the block clock in the contract is the explicit `now`
    parameter here, in whole seconds. */
module Accrual {
  import opened Base
  import Arith

  /** Fixed-point scale of the interest rate: a rate of 10^8 is 100% a year. */
  const RateScale: nat := 100_000_000

  /** Seconds in a Julian year, the divisor that turns elapsed seconds into years. */
  const SecondsPerYear: nat := 31_557_600

  datatype UserStake = UserStake(amount: u128, interestsBefore: u128, date: u64)

  /** Interest that `amount` earns over `elapsed` seconds at `rate`, as one
      floor division of the exact product by 10^8 * 31557600. */
  function Accrued(amount: nat, elapsed: nat, rate: nat): nat {
    amount * elapsed * rate / (RateScale * SecondsPerYear)
  }

  /** Whether evaluating the interest at `now` stays inside u128 at each of
      the three checked steps: amount * elapsed, then * rate, then the final
      addition of the locked-in interest. */
  predicate InterestFits(s: UserStake, rate: nat, now: nat)
    requires s.date <= now
  {
    var elapsed := now - s.date;
    && s.amount * elapsed < U128Limit
    && s.amount * elapsed * rate < U128Limit
    && s.interestsBefore + Accrued(s.amount, elapsed, rate) < U128Limit
  }

  /** A fresh record holding `amount`, dated `now`, with no interest. */
  function New(amount: u128, now: u64): (s: UserStake)
    ensures s.amount == amount && s.date == now
    ensures forall rate: u128 :: CalcInterests(s, rate, now) == Ok(0)
  {
    UserStake(amount, 0, now)
  }

  /** The interest owed at `now`: the locked-in interest plus the principal's
      accrual since the snapshot, computed by the contract's sequence of
      checked u128 steps with two successive truncating divisions. */
  function CalcInterests(s: UserStake, rate: u128, now: u64): (r: Result<u128>)
    ensures now < s.date ==> r == Err(ClockUnderflow)
    ensures s.date <= now ==> (r.Ok? <==> InterestFits(s, rate, now))
    ensures s.date <= now && r.Err? ==> r.error == Overflow
    ensures r.Ok? ==> r.value == s.interestsBefore + Accrued(s.amount, now - s.date, rate)
    ensures r.Ok? ==> r.value >= s.interestsBefore
  {
    if now < s.date then Err(ClockUnderflow)
    else
      var time := now - s.date;
      var scaled := s.amount * time;
      if scaled >= U128Limit then Err(Overflow)
      else
        var weighted := scaled * rate;
        if weighted >= U128Limit then Err(Overflow)
        else
          var earned := weighted / RateScale / SecondsPerYear;
          Arith.DivDiv(weighted, RateScale, SecondsPerYear);
          var total := earned + s.interestsBefore;
          if total >= U128Limit then Err(Overflow) else Ok(total)
  }

  /** Locks the interest owed at `now` into the record and re-dates it. */
  function StockInterestsBefore(s: UserStake, rate: u128, now: u64): (r: Result<UserStake>)
    ensures r.Ok? <==> CalcInterests(s, rate, now).Ok?
    ensures r.Err? ==> r.error == CalcInterests(s, rate, now).error
    ensures r.Ok? ==> r.value.amount == s.amount && r.value.date == now
    ensures r.Ok? ==> CalcInterests(r.value, rate, now) == CalcInterests(s, rate, now)
  {
    var owed :- CalcInterests(s, rate, now);
    Ok(UserStake(s.amount, owed, now))
  }

  /** Snapshot, then add `amount` to the principal. */
  function Stake(s: UserStake, amount: u128, rate: u128, now: u64): (r: Result<UserStake>)
    ensures r.Ok? <==> CalcInterests(s, rate, now).Ok? && s.amount + amount < U128Limit
    ensures CalcInterests(s, rate, now).Err? ==> r == Err(CalcInterests(s, rate, now).error)
    ensures CalcInterests(s, rate, now).Ok? && r.Err? ==> r.error == Overflow
    ensures r.Ok? ==> r.value.amount == s.amount + amount && r.value.date == now
    ensures r.Ok? ==> CalcInterests(r.value, rate, now) == CalcInterests(s, rate, now)
  {
    var stocked :- StockInterestsBefore(s, rate, now);
    if stocked.amount + amount >= U128Limit then Err(Overflow)
    else Ok(stocked.(amount := stocked.amount + amount))
  }

  /** Snapshot, then take `amount` off the principal. */
  function Unstake(s: UserStake, amount: u128, rate: u128, now: u64): (r: Result<UserStake>)
    ensures r.Ok? <==> CalcInterests(s, rate, now).Ok? && amount <= s.amount
    ensures CalcInterests(s, rate, now).Err? ==> r == Err(CalcInterests(s, rate, now).error)
    ensures CalcInterests(s, rate, now).Ok? && r.Err? ==> r.error == AmountUnderflow
    ensures r.Ok? ==> r.value.amount == s.amount - amount && r.value.date == now
    ensures r.Ok? ==> CalcInterests(r.value, rate, now) == CalcInterests(s, rate, now)
  {
    var stocked :- StockInterestsBefore(s, rate, now);
    if stocked.amount < amount then Err(AmountUnderflow)
    else Ok(stocked.(amount := stocked.amount - amount))
  }

  /** Drops all interest owed and re-dates the record; the principal stays. */
  function ResetInterests(s: UserStake, now: u64): (r: UserStake)
    ensures r.amount == s.amount && r.date == now
    ensures forall rate: u128 :: CalcInterests(r, rate, now) == Ok(0)
  {
    s.(interestsBefore := 0, date := now)
  }

  /** Accrual is monotone in time: if the interest can be computed at a later
      time it can be computed at every earlier time since the snapshot, and
      it is no smaller later. */
  lemma {:induction false} CalcMonotone(s: UserStake, rate: u128, t1: u64, t2: u64)
    requires s.date <= t1 <= t2
    requires CalcInterests(s, rate, t2).Ok?
    ensures CalcInterests(s, rate, t1).Ok?
    ensures CalcInterests(s, rate, t1).value <= CalcInterests(s, rate, t2).value
  {
    var e1, e2 := t1 - s.date, t2 - s.date;
    Arith.MulLeft(s.amount, e1, e2);
    Arith.MulLeft(rate, s.amount * e1, s.amount * e2);
    assert s.amount * e1 * rate <= s.amount * e2 * rate;
    Arith.DivMono(s.amount * e1 * rate, s.amount * e2 * rate, RateScale * SecondsPerYear);
  }

  /** Over exactly one Julian year the accrual is `amount * rate / 10^8`. */
  lemma OneYear(s: UserStake, rate: u128, now: u64)
    requires now == s.date + SecondsPerYear
    requires CalcInterests(s, rate, now).Ok?
    ensures CalcInterests(s, rate, now).value == s.interestsBefore + s.amount * rate / RateScale
  {
    assert s.amount * SecondsPerYear * rate == s.amount * rate * SecondsPerYear;
    Arith.DivCancel(s.amount * rate, SecondsPerYear, RateScale);
    assert SecondsPerYear * RateScale == RateScale * SecondsPerYear;
  }

  /** A 10% rate on 1_000_000 over one year yields exactly 100_000. */
  lemma TenPercentForOneYear()
    ensures CalcInterests(UserStake(1_000_000, 0, 0), 10_000_000, SecondsPerYear) == Ok(100_000)
  {
  }

  /** Staking then unstaking the same amount at the same instant leaves the
      record as a bare snapshot would: the principal is restored and the
      interest owed is the same. */
  lemma StakeThenUnstake(s: UserStake, amount: u128, rate: u128, now: u64)
    requires Stake(s, amount, rate, now).Ok?
    ensures Unstake(Stake(s, amount, rate, now).value, amount, rate, now) == StockInterestsBefore(s, rate, now)
  {
  }

  /** Unstaking then staking back the same amount at the same instant is
      likewise a bare snapshot. */
  lemma UnstakeThenStake(s: UserStake, amount: u128, rate: u128, now: u64)
    requires Unstake(s, amount, rate, now).Ok?
    ensures Stake(Unstake(s, amount, rate, now).value, amount, rate, now) == StockInterestsBefore(s, rate, now)
  {
  }

  /** A snapshot taken at the record's own date changes nothing, so a stake and
      unstake of one amount at that instant restore the record exactly. */
  lemma StakeThenUnstakeAtDate(s: UserStake, amount: u128, rate: u128)
    requires Stake(s, amount, rate, s.date).Ok?
    ensures Unstake(Stake(s, amount, rate, s.date).value, amount, rate, s.date) == Ok(s)
  {
    StakeThenUnstake(s, amount, rate, s.date);
  }
}
