/**
 * The persisted state of one lock file, as pure values.
 *
 * The record is the whole content of the file: absent, or one integer process id.
 * Every operation of vm_manager.py's LockFile is a function from the record before
 * the call to an `Effect`: the record after it and whether the call returned or raised.
 * The class in lock_file.dfy performs these steps in place and is specified by them.
 */
module LockRecord {
  import opened Wrappers

  /** What the code raises: `Locked` names the owner, the other two come from `_set`. */
  datatype LockError =
    | Locked(owner: int)   // another process id owns the record
    | FileNotFound         // os.remove on a record that does not exist
    | InvalidValue         // `_set` given something that is neither an int nor None

  datatype Outcome = Ok | Raised(error: LockError)

  /** The record after a call, and whether the call returned normally. */
  datatype Effect = Effect(record: Option<int>, outcome: Outcome)

  /** The argument of `_set`: an int, None, or any other Python value. */
  datatype Value = IntValue(i: int) | NoneValue | OtherValue

  /** The three states of the lock as seen by the process with id `pid`. */
  datatype Status = Free | OwnedBySelf | OwnedByOther(owner: int)

  /** The `free` property: the lock file does not exist. */
  predicate IsFree(rec: Option<int>) {
    rec == None
  }

  /** The `ours` property: the lock file holds the caller's own process id. */
  predicate IsOurs(rec: Option<int>, pid: int) {
    rec == Some(pid)
  }

  /** Classifies a record into the lock's three states; the observations pick out exactly one. */
  function StatusOf(rec: Option<int>, pid: int): (s: Status)
    ensures s == Free <==> IsFree(rec)
    ensures s == OwnedBySelf <==> IsOurs(rec, pid)
    ensures s.OwnedByOther? <==> !IsFree(rec) && !IsOurs(rec, pid)
    ensures s.OwnedByOther? ==> rec == Some(s.owner) && s.owner != pid
  {
    match rec
    case None => Free
    case Some(owner) => if owner == pid then OwnedBySelf else OwnedByOther(owner)
  }

  /** `_set`: writes an int, removes the file for None (which fails if it is absent), rejects anything else. */
  function Set(rec: Option<int>, v: Value): (e: Effect)
    ensures e.outcome == Ok <==> v.IntValue? || (v.NoneValue? && !IsFree(rec))
    ensures e.outcome == Ok ==> e.record == (if v.IntValue? then Some(v.i) else None)
    ensures e.outcome != Ok ==> e.record == rec
    ensures v.OtherValue? ==> e.outcome == Raised(InvalidValue)
    ensures v.NoneValue? && IsFree(rec) ==> e.outcome == Raised(FileNotFound)
  {
    match v
    case IntValue(i) => Effect(Some(i), Ok)
    case NoneValue => if rec.None? then Effect(rec, Raised(FileNotFound)) else Effect(None, Ok)
    case OtherValue => Effect(rec, Raised(InvalidValue))
  }

  /** `clear`: unconditional removal; unlike `Release` it fails on a record that is already free. */
  function Clear(rec: Option<int>): (e: Effect)
    ensures IsFree(e.record)
    ensures e.outcome == Ok <==> !IsFree(rec)
    ensures e.outcome != Ok ==> e.outcome == Raised(FileNotFound)
  {
    Set(rec, NoneValue)
  }

  /** `seize`: unconditional overwrite with the caller's id; never raises, whoever held the lock. */
  function Seize(rec: Option<int>, pid: int): (e: Effect)
    ensures e.outcome == Ok
    ensures StatusOf(e.record, pid) == OwnedBySelf
    ensures forall other :: other != pid ==> !IsOurs(e.record, other)
  {
    Set(rec, IntValue(pid))
  }

  /** `acquire`: takes a free lock, keeps one already ours, and raises `Locked(owner)` otherwise. */
  function Acquire(rec: Option<int>, pid: int): (e: Effect)
    ensures e.outcome == Ok <==> !StatusOf(rec, pid).OwnedByOther?
    ensures e.outcome == Ok ==> StatusOf(e.record, pid) == OwnedBySelf
    ensures StatusOf(rec, pid) == OwnedBySelf ==> e.record == rec
    ensures StatusOf(rec, pid).OwnedByOther? ==>
              e.record == rec && e.outcome == Raised(Locked(StatusOf(rec, pid).owner))
  {
    var owner := rec;
    if owner == Some(pid) || owner == None then Set(rec, IntValue(pid))
    else Effect(rec, Raised(Locked(owner.value)))
  }

  /** `release`: frees a lock that is ours, leaves a free one alone, raises `Locked(owner)` otherwise. */
  function Release(rec: Option<int>, pid: int): (e: Effect)
    ensures e.outcome == Ok <==> !StatusOf(rec, pid).OwnedByOther?
    ensures e.outcome == Ok ==> StatusOf(e.record, pid) == Free
    ensures StatusOf(rec, pid).OwnedByOther? ==>
              e.record == rec && e.outcome == Raised(Locked(StatusOf(rec, pid).owner))
  {
    var owner := rec;
    if owner == Some(pid) then Clear(rec)
    else if owner == None then Effect(rec, Ok)
    else Effect(rec, Raised(Locked(owner.value)))
  }

  /** Releasing `n` times in a row; the first call that raises ends the sequence, as an exception would. */
  function ReleaseRepeatedly(rec: Option<int>, pid: int, n: nat): Effect
    decreases n
  {
    if n == 0 then Effect(rec, Ok)
    else
      var e := Release(rec, pid);
      if e.outcome != Ok then e else ReleaseRepeatedly(e.record, pid, n - 1)
  }

  /** Repeated releases are idempotent: after the first, the record stays free and nothing raises. */
  lemma {:induction false} RepeatedRelease(rec: Option<int>, pid: int, n: nat)
    requires n >= 1
    ensures !StatusOf(rec, pid).OwnedByOther? ==> ReleaseRepeatedly(rec, pid, n) == Effect(None, Ok)
    ensures StatusOf(rec, pid).OwnedByOther? ==> ReleaseRepeatedly(rec, pid, n) == Release(rec, pid)
    decreases n
  {
    var e := Release(rec, pid);
    if e.outcome == Ok && n > 1 {
      RepeatedRelease(e.record, pid, n - 1);
    }
  }

  /** One of the lock operations a process can call. */
  datatype Op = AcquireOp | ReleaseOp | SeizeOp | ClearOp

  function Apply(rec: Option<int>, pid: int, op: Op): Effect
  {
    match op
    case AcquireOp => Acquire(rec, pid)
    case ReleaseOp => Release(rec, pid)
    case SeizeOp => Seize(rec, pid)
    case ClearOp => Clear(rec)
  }

  /** One process running `ops` in order; the first call that raises ends the run. */
  function RunOwn(rec: Option<int>, pid: int, ops: seq<Op>): Effect
    decreases |ops|
  {
    if ops == [] then Effect(rec, Ok)
    else
      var e := Apply(rec, pid, ops[0]);
      if e.outcome != Ok then e else RunOwn(e.record, pid, ops[1..])
  }

  /**
   * A process alone with a lock that no other process holds never sees `Locked` from
   * acquire, release and seize: every such call returns, and the lock stays free or ours.
   */
  lemma {:induction false} AloneNeverLocked(rec: Option<int>, pid: int, ops: seq<Op>)
    requires !StatusOf(rec, pid).OwnedByOther?
    requires forall i :: 0 <= i < |ops| ==> ops[i] != ClearOp
    ensures RunOwn(rec, pid, ops).outcome == Ok
    ensures !StatusOf(RunOwn(rec, pid, ops).record, pid).OwnedByOther?
    decreases |ops|
  {
    if ops != [] {
      var e := Apply(rec, pid, ops[0]);
      AloneNeverLocked(e.record, pid, ops[1..]);
    }
  }

  /** A call by process `pid` in a sequential interleaving of several processes. */
  datatype Call = Call(pid: int, op: Op)

  /** Record after the calls in order; a call that raises affects only its own process, so others go on. */
  function RunAll(rec: Option<int>, calls: seq<Call>): Option<int>
    decreases |calls|
  {
    if calls == [] then rec
    else RunAll(Apply(rec, calls[0].pid, calls[0].op).record, calls[1..])
  }

  /**
   * Mutual exclusion of the session lock: while its owner makes no call, acquire and release
   * by every other process leave the owner in place (each of those calls raises `Locked(owner)`).
   * Only seize and clear, which bypass ownership, can take the lock away.
   */
  lemma {:induction false} OwnerKeepsLock(owner: int, calls: seq<Call>)
    requires forall i :: 0 <= i < |calls| ==> calls[i].pid != owner
    requires forall i :: 0 <= i < |calls| ==> calls[i].op == AcquireOp || calls[i].op == ReleaseOp
    ensures RunAll(Some(owner), calls) == Some(owner)
    ensures forall i :: 0 <= i < |calls| ==>
              Apply(Some(owner), calls[i].pid, calls[i].op).outcome == Raised(Locked(owner))
  {
    if calls != [] {
      OwnerKeepsLock(owner, calls[1..]);
      assert forall i :: 1 <= i < |calls| ==> calls[i] == calls[1..][i - 1];
    }
  }

  /** What another process does to a lock file while this one sleeps. */
  datatype Rival = Idle | Seizes(owner: int) | Clears

  /** The record after another process's call; a clear that raises leaves it as it was. */
  function AfterRival(rec: Option<int>, act: Rival): (r: Option<int>)
    ensures act.Idle? ==> r == rec
    ensures act.Seizes? ==> StatusOf(r, act.owner) == OwnedBySelf
    ensures act.Clears? ==> IsFree(r)
  {
    match act
    case Idle => rec
    case Seizes(owner) => Seize(rec, owner).record
    case Clears => Clear(rec).record
  }
}
