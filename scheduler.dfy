/**
 * The wait sequence of vm_manager.py (lines 114-144): the deadline rule for the
 * business-hours window and the poll loop that the control lock can cancel.
 *
 * Time is an integer count of seconds since Monday, 1 January of year 1, 00:00
 * (Python's datetime.min), so the weekday and the time of day follow by division.
 * The clock is an oracle: `clock(k)` is the reading after `k` sleeps. What other
 * processes do to the control lock during sleep `k` is the oracle `rivals(k)`.
 */
module Scheduler {
  import opened Wrappers
  import opened LockRecord
  import opened LockFiles
  import opened DaysParser

  const SecondsPerMinute := 60
  const MinutesPerDay := 1440
  const SecondsPerDay := 86400
  /** timedelta keeps its day count within this magnitude. */
  const MaxTimedeltaDays := 999999999
  /** The ordinal of 31 December 9999 (datetime.max): the number of days a datetime can fall on. */
  const DaysInCalendar := 3652059
  /** The poll loop sleeps this many seconds between two looks at the control lock. */
  const PollInterval := 60

  /** A time of day as strptime('%H:%M') reads it, in minutes after midnight. */
  type MinuteOfDay = m: int | 0 <= m < 1440

  /** datetime.weekday() + 1: 1 is Monday, 7 is Sunday. */
  function Weekday(t: int): (w: int)
    ensures 1 <= w <= 7
    ensures t >= 0 && t < 7 * SecondsPerDay ==> w == t / SecondsPerDay + 1
  {
    (t / SecondsPerDay) % 7 + 1
  }

  /** The day after a Sunday is a Monday: the weekday advances by one, cyclically, every day. */
  lemma WeekdayNext(t: int)
    ensures Weekday(t + SecondsPerDay) == Weekday(t) % 7 + 1
  {
    var q := t / SecondsPerDay;
    var r := t % SecondsPerDay;
    assert t + SecondsPerDay == SecondsPerDay * (q + 1) + r;
    assert (t + SecondsPerDay) / SecondsPerDay == q + 1;
    assert (q + 1) % 7 == (q % 7 + 1) % 7;
  }

  /** Midnight at the start of the day of `t` (datetime.combine(t.date(), 00:00)). */
  function MidnightOf(t: int): (m: int)
    ensures m <= t < m + SecondsPerDay
    ensures m % SecondsPerDay == 0
  {
    t - t % SecondsPerDay
  }

  /** datetime.time() of `t`, in seconds after midnight. */
  function TimeOfDay(t: int): (s: int)
    ensures 0 <= s < SecondsPerDay
    ensures t == MidnightOf(t) + s
  {
    t % SecondsPerDay
  }

  /** datetime.combine(now.date(), hours_end): the end of the window on the day of `now`. */
  function EndOfWorkday(now: int, hoursEnd: MinuteOfDay): (e: int)
    ensures MidnightOf(now) <= e < MidnightOf(now) + SecondsPerDay
    ensures TimeOfDay(e) == hoursEnd * SecondsPerMinute
  {
    MidnightOf(now) + hoursEnd * SecondsPerMinute
  }

  /**
   * The active window: a listed weekday, and hours_start <= time of day <= hours_end.
   * A window can only be active when it does not end before it starts, and then `now`
   * lies between its start and its end on that day.
   */
  function InWindow(now: int, days: set<int>, hoursStart: MinuteOfDay, hoursEnd: MinuteOfDay): (b: bool)
    ensures b ==> hoursStart <= hoursEnd
    ensures b ==> MidnightOf(now) + hoursStart * SecondsPerMinute <= now <= EndOfWorkday(now, hoursEnd)
    ensures b ==> Weekday(now) in days
  {
    Weekday(now) in days
    && hoursStart * SecondsPerMinute <= TimeOfDay(now) <= hoursEnd * SecondsPerMinute
  }

  /**
   * timedelta(minutes=m) can be built: the day count it normalises to, m // 1440 rounded
   * down (Euclidean division by a positive divisor rounds down too), has magnitude at
   * most 999999999; otherwise OverflowError.
   */
  predicate TimedeltaInRange(minutes: int) {
    -MaxTimedeltaDays <= minutes / MinutesPerDay <= MaxTimedeltaDays
  }

  /** A datetime exists at `t`: from datetime.min up to the end of 31 December 9999. */
  predicate InDatetimeRange(t: int) {
    0 <= t < DaysInCalendar * SecondsPerDay
  }

  /** The timeouts timedelta accepts run from -1439999998560 to 1439999999999 minutes. */
  lemma TimedeltaBounds()
    ensures TimedeltaInRange(1439999999999) && !TimedeltaInRange(1440000000000)
    ensures TimedeltaInRange(-1439999998560) && !TimedeltaInRange(-1439999998561)
  {
  }

  /**
   * time_to_save: inside the window, the earlier of the end of the timeout and the
   * end of the window that day; outside it, now.
   */
  function Deadline(now: int, timeout: int, days: set<int>, hoursStart: MinuteOfDay, hoursEnd: MinuteOfDay): (d: int)
    ensures !InWindow(now, days, hoursStart, hoursEnd) ==> d == now
    ensures InWindow(now, days, hoursStart, hoursEnd) ==>
              d <= now + timeout * SecondsPerMinute && d <= EndOfWorkday(now, hoursEnd)
              && (d == now + timeout * SecondsPerMinute || d == EndOfWorkday(now, hoursEnd))
    ensures InWindow(now, days, hoursStart, hoursEnd) && timeout >= 0 ==> now <= d
    ensures d < MidnightOf(now) + SecondsPerDay
  {
    if InWindow(now, days, hoursStart, hoursEnd) then
      var endOfWorkday := EndOfWorkday(now, hoursEnd);
      var endOfTimeout := now + timeout * SecondsPerMinute;
      if endOfTimeout <= endOfWorkday then endOfTimeout else endOfWorkday
    else
      now
  }

  /** A window that opens and closes at the same minute never defers: the deadline is now. */
  lemma ZeroWidthWindow(now: int, timeout: int, days: set<int>, hours: MinuteOfDay)
    requires timeout >= 0
    ensures Deadline(now, timeout, days, hours, hours) == now
  {
  }

  /** A zero timeout never defers either. */
  lemma ZeroTimeout(now: int, days: set<int>, hoursStart: MinuteOfDay, hoursEnd: MinuteOfDay)
    ensures Deadline(now, 0, days, hoursStart, hoursEnd) == now
  {
  }

  /** Monday 09:00 with eight hours of timeout and a window closing at 17:00: wait until 17:00. */
  lemma MondayMorningExample()
    ensures Deadline(9 * 3600, 480, {1, 2, 3, 4, 5}, 8 * 60, 17 * 60) == 17 * 3600
  {
  }

  /** Monday 16:50 with thirty minutes of timeout: the window's end, 17:00, caps the wait. */
  lemma WindowEndCapsTimeout()
    ensures Deadline(16 * 3600 + 50 * 60, 30, {1, 2, 3, 4, 5}, 8 * 60, 17 * 60) == 17 * 3600
  {
  }

  /** Saturday 10:00 with a Monday-to-Friday window: no wait at all. */
  lemma WeekendExample()
    ensures Deadline(5 * SecondsPerDay + 10 * 3600, 480, {1, 2, 3, 4, 5}, 8 * 60, 17 * 60)
              == 5 * SecondsPerDay + 10 * 3600
  {
  }

  /**
   * The first part of `wait` (lines 115-131), in the order the code runs it: build the
   * timedelta, parse the days, and inside the window add the timeout to now. The result
   * is the deadline, or how the wait ends before it polls: OverflowError from timedelta
   * or from the addition, or ValueError from the days setting. A deadline is always a
   * datetime when now is one.
   */
  function TimeToSave(now: int, timeout: int, days: string, hoursStart: MinuteOfDay, hoursEnd: MinuteOfDay)
    : (r: Result<int, WaitOutcome>)
    ensures r == Failure(Overflow) <==>
              !TimedeltaInRange(timeout)
              || (ParseDays(days).Success? && InWindow(now, ParseDays(days).value, hoursStart, hoursEnd)
                  && !InDatetimeRange(now + timeout * SecondsPerMinute))
    ensures r.Failure? && r.error.InvalidDays? <==> TimedeltaInRange(timeout) && ParseDays(days).Failure?
    ensures r.Failure? && r.error.InvalidDays? ==> r.error.literal == ParseDays(days).error
    ensures r.Failure? ==> r.error == Overflow || r.error.InvalidDays?
    ensures r.Success? ==>
              ParseDays(days).Success? && r.value == Deadline(now, timeout, ParseDays(days).value, hoursStart, hoursEnd)
    ensures r.Success? && InDatetimeRange(now) ==> InDatetimeRange(r.value)
  {
    if !TimedeltaInRange(timeout) then Failure(Overflow)
    else
      match ParseDays(days)
      case Failure(literal) => Failure(InvalidDays(literal))
      case Success(ds) =>
        if InWindow(now, ds, hoursStart, hoursEnd) && !InDatetimeRange(now + timeout * SecondsPerMinute)
        then Failure(Overflow)
        else Success(Deadline(now, timeout, ds, hoursStart, hoursEnd))
  }

  /** The days setting "1": Mondays only. */
  lemma MondaysOnly()
    ensures ParseDays("1") == Success({1})
  {
    assert Split("1", ',') == ["1"] by {
      assert "1"[1..] == [];
    }
    assert PieceValue("1") == Success(1) by {
      StripUntrimmed("1");
    }
  }

  /** Monday 09:00, an end of timeout past year 9999 inside the window: OverflowError, no wait. */
  lemma OverflowExample()
    ensures TimeToSave(9 * 3600, 6000000000, "1", 8 * 60, 17 * 60) == Failure(Overflow)
  {
    MondaysOnly();
    assert TimedeltaInRange(6000000000);
    assert Weekday(9 * 3600) == 1 && TimeOfDay(9 * 3600) == 9 * 3600;
    assert InWindow(9 * 3600, {1}, 8 * 60, 17 * 60);
    assert 9 * 3600 + 6000000000 * SecondsPerMinute == 360000032400;
    assert !InDatetimeRange(360000032400);
  }

  /** sleep(PollInterval) takes at least that long: readings k and k + 1 are that far apart. */
  predicate Ticks(clock: nat -> int, k: nat) {
    clock(k) + PollInterval <= clock(k + 1)
  }

  /** The control lock's record after `n` sleeps, during which other processes acted as `rivals` says. */
  function RecordAfter(start: Option<int>, rivals: nat -> Rival, n: nat): Option<int>
    decreases n
  {
    if n == 0 then start else AfterRival(RecordAfter(start, rivals, n - 1), rivals(n - 1))
  }

  /** When no other process touches the control lock, it keeps its content across any number of sleeps. */
  lemma {:induction false} UndisturbedRecord(start: Option<int>, rivals: nat -> Rival, n: nat)
    requires forall k: nat :: rivals(k) == Idle
    ensures RecordAfter(start, rivals, n) == start
    decreases n
  {
    if n > 0 {
      UndisturbedRecord(start, rivals, n - 1);
      assert rivals(n - 1) == Idle;
    }
  }

  /** Every poll before the `n`-th came before the deadline and found the control lock ours. */
  predicate PolledOurs(start: Option<int>, rivals: nat -> Rival, pid: int, clock: nat -> int, deadline: int, n: nat) {
    forall k {:trigger clock(k)} :: 0 <= k < n ==>
      clock(k) < deadline && IsOurs(RecordAfter(start, rivals, k), pid)
  }

  /**
   * How the wait sequence ends: the deadline passed, another process took control,
   * the timeout or the deadline fell outside what datetime can hold, or the days setting raised.
   */
  datatype WaitOutcome = Elapsed | Cancelled | Overflow | InvalidDays(literal: string)

  /** sleep(60): the only time at which other processes get to act on the control lock. */
  method Sleep(control: LockFile, act: Rival)
    modifies control
    ensures control.record == AfterRival(old(control.record), act)
  {
    control.record := AfterRival(control.record, act);
  }

  /**
   * The poll loop (lines 133-144): while now < deadline, look at the control lock; if it is
   * no longer ours, stop as cancelled before sleeping again; otherwise sleep and read the
   * clock. `sleeps` counts the sleeps taken; poll `k` happens at `clock(k)`.
   */
  method Poll(deadline: int, control: LockFile, clock: nat -> int, rivals: nat -> Rival)
    returns (outcome: WaitOutcome, ghost sleeps: nat)
    requires forall k: nat :: Ticks(clock, k)
    modifies control
    ensures control.record == RecordAfter(old(control.record), rivals, sleeps)
    ensures PolledOurs(old(control.record), rivals, control.pid, clock, deadline, sleeps)
    ensures outcome == Elapsed <==> deadline <= clock(sleeps)
    ensures outcome == Cancelled <==> clock(sleeps) < deadline && !IsOurs(control.record, control.pid)
    ensures outcome == Elapsed || outcome == Cancelled
    ensures deadline <= clock(0) ==> outcome == Elapsed && sleeps == 0
  {
    ghost var start := control.record;
    var now := clock(0);
    var k: nat := 0;
    while now < deadline
      invariant now == clock(k)
      invariant control.record == RecordAfter(start, rivals, k)
      invariant PolledOurs(start, rivals, control.pid, clock, deadline, k)
      decreases deadline - now
    {
      var ours := control.Ours();
      if !ours {
        return Cancelled, k;
      }
      assert Ticks(clock, k);
      Sleep(control, rivals(k));
      k := k + 1;
      now := clock(k);
    }
    return Elapsed, k;
  }

  /**
   * `wait`: build the timedelta, parse the days, compute the deadline from the first clock
   * reading, then poll. An exception on the way ends the wait before it polls or sleeps.
   */
  method Wait(timeout: int, days: string, hoursStart: MinuteOfDay, hoursEnd: MinuteOfDay,
              control: LockFile, clock: nat -> int, rivals: nat -> Rival)
    returns (outcome: WaitOutcome, ghost sleeps: nat)
    requires forall k: nat :: Ticks(clock, k)
    modifies control
    ensures TimeToSave(clock(0), timeout, days, hoursStart, hoursEnd).Failure? ==>
              outcome == TimeToSave(clock(0), timeout, days, hoursStart, hoursEnd).error
              && sleeps == 0 && control.record == old(control.record)
    ensures TimeToSave(clock(0), timeout, days, hoursStart, hoursEnd).Success? ==>
              var deadline := TimeToSave(clock(0), timeout, days, hoursStart, hoursEnd).value;
              && control.record == RecordAfter(old(control.record), rivals, sleeps)
              && PolledOurs(old(control.record), rivals, control.pid, clock, deadline, sleeps)
              && (outcome == Elapsed || outcome == Cancelled)
              && (outcome == Elapsed <==> deadline <= clock(sleeps))
              && (outcome == Cancelled <==> clock(sleeps) < deadline && !IsOurs(control.record, control.pid))
    ensures outcome.InvalidDays? <==> TimedeltaInRange(timeout) && ParseDays(days).Failure?
    ensures TimedeltaInRange(timeout) && ParseDays(days).Success?
              && !InWindow(clock(0), ParseDays(days).value, hoursStart, hoursEnd) ==>
              outcome == Elapsed && sleeps == 0
  {
    var scheduled := TimeToSave(clock(0), timeout, days, hoursStart, hoursEnd);
    if scheduled.Failure? {
      return scheduled.error, 0;
    }
    outcome, sleeps := Poll(scheduled.value, control, clock, rivals);
  }
}
