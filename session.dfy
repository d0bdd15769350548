/**
 * The main sequence of vm_manager.py (lines 153-198) over the lock model: start the
 * virtual machine, take the session (rdp) lock, seize the control lock, hold the
 * remote session, release the session lock, wait, and save the machine.
 * VirtualBox and xfreerdp are outside the model: what VirtualBox reports is given
 * as the booleans `vmStarted` and `vmRunningAtSave`.
 */
module Session {
  import opened Wrappers
  import opened LockRecord
  import opened LockFiles
  import opened DaysParser
  import opened Scheduler

  /** How the process ends. */
  datatype Exit =
    | Saved                          // waited out, the machine was saved
    | WaitCancelled                  // another process took the control lock
    | StartFailed                    // vbox_start could not bring the machine up
    | SessionBusy                    // the session lock belongs to another process
    | InvalidDaysSetting(literal: string)  // int() raised on a piece of the days setting
    | Overflowed                     // timedelta or the deadline raised OverflowError
    | SaveFailed                     // vbox_save found the machine not running

  /** The process exit status: sys.exit(0), sys.exit(1), or 1 for an exception nothing catches. */
  function ExitStatus(e: Exit): (status: int)
    ensures status == 0 <==> e == Saved || e == WaitCancelled
    ensures status == 0 || status == 1
  {
    match e
    case Saved => 0
    case WaitCancelled => 0
    case StartFailed => 1
    case SessionBusy => 1
    case InvalidDaysSetting(_) => 1
    case Overflowed => 1
    case SaveFailed => 1
  }

  /**
   * One run of the script. A failed start or a busy session lock ends the run before
   * anything is changed. Otherwise the session lock is free again and the control lock
   * ours when the wait starts; the wait either raises before it polls, or polls until the
   * deadline passes (and the machine is saved if it is running) or until the control
   * lock is found taken. `sleeps` counts the sleeps of the poll loop.
   */
  method Run(rdp: LockFile, control: LockFile, vmStarted: bool, vmRunningAtSave: bool,
             timeout: int, days: string, hoursStart: MinuteOfDay, hoursEnd: MinuteOfDay,
             clock: nat -> int, rivals: nat -> Rival)
    returns (exit: Exit, ghost sleeps: nat)
    requires rdp != control
    requires forall k: nat :: Ticks(clock, k)
    modifies rdp, control
    ensures !vmStarted ==>
              exit == StartFailed && sleeps == 0
              && rdp.record == old(rdp.record) && control.record == old(control.record)
    ensures vmStarted && StatusOf(old(rdp.record), rdp.pid).OwnedByOther? ==>
              exit == SessionBusy && sleeps == 0
              && rdp.record == old(rdp.record) && control.record == old(control.record)
    ensures vmStarted && !StatusOf(old(rdp.record), rdp.pid).OwnedByOther? ==>
              IsFree(rdp.record) && exit != StartFailed && exit != SessionBusy
    ensures vmStarted && !StatusOf(old(rdp.record), rdp.pid).OwnedByOther?
            && TimeToSave(clock(0), timeout, days, hoursStart, hoursEnd).Failure? ==>
              var raised := TimeToSave(clock(0), timeout, days, hoursStart, hoursEnd).error;
              && control.record == Some(control.pid) && sleeps == 0
              && exit == (if raised == Overflow then Overflowed else InvalidDaysSetting(raised.literal))
    ensures vmStarted && !StatusOf(old(rdp.record), rdp.pid).OwnedByOther?
            && TimeToSave(clock(0), timeout, days, hoursStart, hoursEnd).Success? ==>
              var deadline := TimeToSave(clock(0), timeout, days, hoursStart, hoursEnd).value;
              && control.record == RecordAfter(Some(control.pid), rivals, sleeps)
              && PolledOurs(Some(control.pid), rivals, control.pid, clock, deadline, sleeps)
              && (exit == Saved || exit == SaveFailed || exit == WaitCancelled)
              && (exit == WaitCancelled <==> clock(sleeps) < deadline && !IsOurs(control.record, control.pid))
              && (exit == Saved <==> deadline <= clock(sleeps) && vmRunningAtSave)
              && (exit == SaveFailed <==> deadline <= clock(sleeps) && !vmRunningAtSave)
    ensures exit == WaitCancelled ==> !IsOurs(control.record, control.pid)
    ensures exit == Saved ==> vmRunningAtSave && ParseDays(days).Success?
    ensures exit == SaveFailed ==> !vmRunningAtSave
    ensures exit.InvalidDaysSetting? ==> ParseDays(days) == Failure(exit.literal)
  {
    sleeps := 0;
    if !vmStarted {
      return StartFailed, sleeps;
    }
    var acquired := rdp.Acquire();
    if acquired != Ok {
      assert StatusOf(old(rdp.record), rdp.pid).OwnedByOther?;
      return SessionBusy, sleeps;
    }
    var seized := control.Seize();
    // the remote desktop session runs here and blocks until it is closed
    var released := rdp.Release();
    assert released == Ok;
    var waited;
    waited, sleeps := Wait(timeout, days, hoursStart, hoursEnd, control, clock, rivals);
    match waited
    case InvalidDays(literal) =>
      exit := InvalidDaysSetting(literal);
    case Overflow =>
      exit := Overflowed;
    case Cancelled =>
      exit := WaitCancelled;
    case Elapsed =>
      exit := if vmRunningAtSave then Saved else SaveFailed;
  }

  /**
   * A run that no other process disturbs: with both locks free, the machine running and
   * a wait setting that raises nothing, the run ends with the machine saved.
   */
  method UndisturbedRun(timeout: int, days: string, hoursStart: MinuteOfDay, hoursEnd: MinuteOfDay,
                        clock: nat -> int) returns (exit: Exit)
    requires forall k: nat :: Ticks(clock, k)
    requires TimeToSave(clock(0), timeout, days, hoursStart, hoursEnd).Success?
    ensures exit == Saved
  {
    var rdp := new LockFile(1, None);
    var control := new LockFile(1, None);
    var rivals: nat -> Rival := k => Idle;
    ghost var sleeps;
    exit, sleeps := Run(rdp, control, true, true, timeout, days, hoursStart, hoursEnd, clock, rivals);
    UndisturbedRecord(Some(1), rivals, sleeps);
  }

  /**
   * Hand-over of control: process 100 seizes an absent control lock; process 200, reading
   * the same file, sees that the lock is not its own and stops waiting at its first poll.
   */
  method HandOver(deadline: int, clock: nat -> int, rivals: nat -> Rival)
    returns (outcome: WaitOutcome, ghost sleeps: nat)
    requires forall k: nat :: Ticks(clock, k)
    requires clock(0) < deadline
    ensures outcome == Cancelled
    ensures sleeps == 0
  {
    var first := new LockFile(100, None);
    var seized := first.Seize();
    var second := new LockFile(200, first.record);
    outcome, sleeps := Poll(deadline, second, clock, rivals);
  }
}
