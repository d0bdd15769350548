/**
 * The LockFile class of vm_manager.py (lines 14-66): a handle on one lock file,
 * holding the caller's own process id. The file's content is the mutable field
 * `record`; every method reads it and then writes it as the function of the same
 * name in LockRecord says. Exceptions are returned as an `Outcome`.
 */
module LockFiles {
  import opened Wrappers
  import opened LockRecord

  class LockFile {
    /** The process id of the process that opened the handle (os.getpid()). */
    const pid: int
    /** The content of the lock file: absent, or the id of the owning process. */
    var record: Option<int>

    /** Opens a handle for process `pid` on a file whose current content is `record`. */
    constructor (pid: int, record: Option<int>)
      ensures this.pid == pid && this.record == record
    {
      this.pid := pid;
      this.record := record;
    }

    /** `_get`: the id written in the file, or None when the file does not exist. */
    method Get() returns (owner: Option<int>)
      ensures owner == record
      ensures owner.Some? <==> !IsFree(record)
    {
      owner := record;
    }

    /** `_set`: writes an id, removes the file for None, rejects any other value. */
    method Set(v: Value) returns (outcome: Outcome)
      modifies this
      ensures record == LockRecord.Set(old(record), v).record
      ensures outcome == LockRecord.Set(old(record), v).outcome
    {
      match v
      case IntValue(i) =>
        record := Some(i);
        outcome := Ok;
      case NoneValue =>
        if record.None? {
          outcome := Raised(FileNotFound);
        } else {
          record := None;
          outcome := Ok;
        }
      case OtherValue =>
        outcome := Raised(InvalidValue);
    }

    /** The `free` property; it only reads the file. */
    method Free() returns (free: bool)
      ensures free <==> StatusOf(record, pid) == LockRecord.Free
    {
      var owner := Get();
      free := owner == None;
    }

    /** The `ours` property; it only reads the file. */
    method Ours() returns (ours: bool)
      ensures ours <==> StatusOf(record, pid) == OwnedBySelf
      ensures ours ==> record == Some(pid)
    {
      var owner := Get();
      ours := owner == Some(pid);
    }

    /** `clear`: removes the file whoever owns it; raises when there is no file. */
    method Clear() returns (outcome: Outcome)
      modifies this
      ensures record == LockRecord.Clear(old(record)).record
      ensures outcome == LockRecord.Clear(old(record)).outcome
    {
      outcome := Set(NoneValue);
    }

    /** `seize`: writes the caller's id whoever owns the file. */
    method Seize() returns (outcome: Outcome)
      modifies this
      ensures record == LockRecord.Seize(old(record), pid).record
      ensures outcome == LockRecord.Seize(old(record), pid).outcome
    {
      outcome := Set(IntValue(pid));
    }

    /** `acquire`: read the owner, then write the caller's id if the lock is free or already ours. */
    method Acquire() returns (outcome: Outcome)
      modifies this
      ensures record == LockRecord.Acquire(old(record), pid).record
      ensures outcome == LockRecord.Acquire(old(record), pid).outcome
    {
      var owner := Get();
      if owner == Some(pid) || owner == None {
        outcome := Set(IntValue(pid));
      } else {
        outcome := Raised(Locked(owner.value));
      }
    }

    /** `release`: read the owner, then clear the file if it is ours; a free lock is left alone. */
    method Release() returns (outcome: Outcome)
      modifies this
      ensures record == LockRecord.Release(old(record), pid).record
      ensures outcome == LockRecord.Release(old(record), pid).outcome
    {
      var owner := Get();
      if owner == Some(pid) {
        outcome := Clear();
      } else if owner == None {
        outcome := Ok;
      } else {
        outcome := Raised(Locked(owner.value));
      }
    }
  }
}
