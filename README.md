# vm_manager core in Dafny

vm_manager.py starts a VirtualBox machine, lets one user at a time hold a remote
desktop session on it, and saves the machine after an idle timeout that respects a
business-hours window. Two lock files coordinate the processes that run the script:
the *rdp* (session) lock, taken with `acquire` so that a second session is refused,
and the *control* lock, taken with `seize` so that the most recent session decides
when the machine is saved. After the session ends, `wait` computes a deadline and
polls the control lock once a minute; if another process has seized it, the wait is
cancelled and this process exits without saving.

This project models that core:

- `LockRecord` (lock_record.dfy): the content of a lock file (absent, or one process
  id) and every `LockFile` operation as a pure step from the old content to the new
  content and an outcome (`Ok`, or the exception raised: `Locked(owner)`,
  `FileNotFound` from `os.remove`, `InvalidValue` from `_set`). Contracts are stated
  against the lock's three states `Free`, `OwnedBySelf`, `OwnedByOther(owner)`.
  Lemmas cover repeated releases, a process alone with its lock, and the mutual
  exclusion that `acquire`/`release` give while the owner keeps the lock.
- `LockFiles` (lock_file.dfy): the `LockFile` class itself, with the constant `pid`
  and the mutable field `record`. Each method reads the record, then writes it, and
  is proved to do what the step of the same name in `LockRecord` says.
- `DaysParser` (days_parser.dfy): `{int(i.strip()) for i in days.split(',')}` as
  `str.split`, `str.strip` and Python's base-10 `int()` (sign, digits, single
  underscores between digits), with the split/join and parse/print round trips. The
  comprehension is stated for any element expression that may raise (`ReadAll`) and
  used with `int(piece.strip())` (`PieceValue`); `int()` is proved equal to an
  independent reading of well-formed literals from the left.
- `Scheduler` (scheduler.dfy): integer time in seconds since Monday 1 January of
  year 1 (Python's `datetime.min`), weekday 1 = Monday .. 7 = Sunday, the deadline
  rule, and the poll loop. The clock is an oracle `clock(k)` (the reading after `k`
  sleeps, each at least 60 seconds after the previous one); what other processes do
  to the control lock during sleep `k` is the oracle `rivals(k)`.
- `Session` (session.dfy): the `__main__` sequence start → acquire → seize → session
  → release → wait → save, with the exit status of each ending.

Notes on what the code does at its edges, which the model reproduces:

- Exit statuses: the process exits with 0 when the machine was saved or the wait was
  cancelled, and with 1 on every failure, including an exception nothing catches.
- A window whose start equals its end: the test `hours_start <= now.time() <=
  hours_end` admits that exact instant. With a timeout that is not negative, the
  deadline is then `now` and nothing is waited for (`Scheduler.ZeroWidthWindow`); a
  negative timeout gives the earlier deadline `now + timeout`, which the loop also
  treats as already passed.
- `clear` on a free lock raises (`os.remove` of a missing file), whereas `release` on a
  free lock does nothing.
- `datetime` and `timedelta` are bounded: `timedelta(minutes=timeout)` raises
  OverflowError for a timeout of 1440000000000 minutes or more (or below
  -1439999998560), even outside the window, and inside the window `now + timeout`
  raises when it falls after year 9999 or before year 1. Nothing catches it, so the
  script exits with 1 without saving (`Scheduler.TimeToSave`, `Session.Run`).

## Model

| member | source | states |
|---|---|---|
| `LockRecord.StatusOf` | vm_manager.py:38-44 | `free` holds exactly when the lock is Free, `ours` exactly when it is OwnedBySelf, otherwise another id owns it; so `free` and `ours` are never both true |
| `LockRecord.Set` | vm_manager.py:29-36 | `_set` succeeds for an int (the record becomes that id) and for None on an existing file (the record becomes absent); None on an absent file raises FileNotFound, any other value raises ValueError, and a failed call leaves the record as it was |
| `LockRecord.Clear` | vm_manager.py:46-47 | after `clear` the lock is free; it raises FileNotFound exactly when the lock was already free |
| `LockRecord.Seize` | vm_manager.py:49-50 | `seize` never raises and always leaves the lock owned by the caller, whoever held it, so every other process sees it as not theirs |
| `LockRecord.Acquire` | vm_manager.py:52-57 | `acquire` succeeds exactly when the lock is not owned by another process and then leaves it owned by the caller (unchanged if already ours); otherwise it raises `Locked` with the owner's id and leaves the record unchanged |
| `LockRecord.Release` | vm_manager.py:59-66 | `release` succeeds exactly when the lock is not owned by another process and then leaves it free; otherwise it raises `Locked` with the owner's id and leaves the record unchanged |
| `LockRecord.RepeatedRelease` | vm_manager.py:59-66 | any number of consecutive releases of a free or own lock ends with the lock free and nothing raised; on another's lock the first release raises and nothing changes |
| `LockRecord.AloneNeverLocked` | vm_manager.py:49-66 | a process that runs any sequence of acquire, release and seize on a lock no other process holds never gets an exception, and the lock stays free or its own |
| `LockRecord.OwnerKeepsLock` | vm_manager.py:52-66 | while the owner makes no call, every acquire and release by other processes raises `Locked(owner)` and the owner keeps the lock |
| `LockRecord.AfterRival` | vm_manager.py:46-50 | another process's seize leaves the lock owned by that process, its clear leaves it free, and no action leaves it unchanged |
| `LockFiles.LockFile.constructor` | vm_manager.py:15-17 | a handle holds the opening process's id and sees the file's current content |
| `LockFiles.LockFile.Get` | vm_manager.py:22-27 | `_get` returns the id in the file, or None exactly when the file does not exist |
| `LockFiles.LockFile.Set` | vm_manager.py:29-36 | `_set` changes the file and raises exactly as `LockRecord.Set` says |
| `LockFiles.LockFile.Free` | vm_manager.py:38-40 | the `free` property is true exactly when the lock is Free, and changes nothing |
| `LockFiles.LockFile.Ours` | vm_manager.py:42-44 | the `ours` property is true exactly when the file holds the caller's id, and changes nothing |
| `LockFiles.LockFile.Clear` | vm_manager.py:46-47 | `clear` removes the file, raising on a missing file, as `LockRecord.Clear` says |
| `LockFiles.LockFile.Seize` | vm_manager.py:49-50 | `seize` writes the caller's id, as `LockRecord.Seize` says |
| `LockFiles.LockFile.Acquire` | vm_manager.py:52-57 | `acquire` reads the owner, then writes or raises, as `LockRecord.Acquire` says |
| `LockFiles.LockFile.Release` | vm_manager.py:59-66 | `release` reads the owner, then clears, does nothing or raises, as `LockRecord.Release` says |
| `DaysParser.TrimStart` | vm_manager.py:117 | the result is the suffix left after removing exactly the leading whitespace |
| `DaysParser.TrimEnd` | vm_manager.py:117 | the result is the prefix left after removing exactly the trailing whitespace |
| `DaysParser.Strip` | vm_manager.py:117 | `strip()` gives a slice of the piece that neither starts nor ends with whitespace, and everything cut off is whitespace |
| `DaysParser.StripUntrimmed` | vm_manager.py:117 | a piece without surrounding whitespace is left as it is by `strip()` |
| `DaysParser.Split` | vm_manager.py:117 | `split(',')` gives at least one piece, no piece contains a comma, and joining the pieces with commas gives back the string |
| `DaysParser.SplitAfterPlain` | vm_manager.py:117 | comma-free text in front of a string only extends the first piece of its split |
| `DaysParser.SplitAfterSep` | vm_manager.py:117 | a comma in front of a string opens an empty first piece |
| `DaysParser.SplitCons` | vm_manager.py:117 | comma-free text, a comma, then a string: the text is the first piece, followed by the string's pieces |
| `DaysParser.SplitJoin` | vm_manager.py:117 | splitting the comma-join of comma-free pieces gives back exactly those pieces |
| `DaysParser.ParseDigits` | vm_manager.py:117 | an accepted digit string starts and ends with a digit and holds only digits and underscores |
| `DaysParser.ParseInt` | vm_manager.py:117 | an accepted `int()` literal is non-empty, starts with a sign or a digit and ends with a digit |
| `DaysParser.FoldDigitsSnoc` | vm_manager.py:117 | appending an underscore leaves the left-to-right value of a digit string alone; appending a digit multiplies it by ten and adds the digit |
| `DaysParser.WellFormedAfterDigit` | vm_manager.py:117 | a digit after a digit: the string is a well-formed digit string exactly when it is without its last digit |
| `DaysParser.WellFormedAfterUnderscore` | vm_manager.py:117 | a digit after an underscore: the string is well formed exactly when what precedes the underscore is a well-formed digit string |
| `DaysParser.FoldAfterUnderscore` | vm_manager.py:117 | the value of a well-formed digit string ending in an underscore and a digit is ten times the value before the underscore, plus that digit |
| `DaysParser.FoldAfterDigit` | vm_manager.py:117 | the value of a well-formed digit string ending in two digits is ten times its value without the last digit, plus that digit |
| `DaysParser.ParseDigitsValue` | vm_manager.py:117 | the digits of a literal are accepted exactly when they are well formed (at least one digit, each underscore between two digits), and then their value is the digits read from the left, underscores skipped |
| `DaysParser.ParseIntValue` | vm_manager.py:117 | `int()` accepts exactly the well-formed digit strings with at most one leading sign, and gives their value, negated after a minus |
| `DaysParser.AcceptedLiterals` | vm_manager.py:117 | `int("007") == 7`, `int("+3") == 3`, `int("-1_0") == -10` |
| `DaysParser.RejectedLiterals` | vm_manager.py:117 | `int()` raises on "1__0", "_1", "1_", "+", "" and "+-1" |
| `DaysParser.ParseShowNat` | vm_manager.py:117 | the decimal digits of a natural number read back as that number |
| `DaysParser.ParseShowNegative` | vm_manager.py:117 | a minus sign followed by the digits of n reads as -n |
| `DaysParser.ParseShowInt` | vm_manager.py:117 | `int(str(i)) == i` for every int, negative ones included |
| `DaysParser.PieceValue` | vm_manager.py:117 | `int(piece.strip())` gives the value of the stripped piece when it is an int literal, and otherwise raises ValueError naming the stripped piece |
| `DaysParser.ReadAll` | vm_manager.py:117 | the comprehension `{read(p) for p in pieces}` holds at most one element per piece, and is empty after a successful read exactly when there are no pieces |
| `DaysParser.AllReadCons` | vm_manager.py:117 | the element expression succeeds on every piece exactly when it succeeds on the first piece and on the rest |
| `DaysParser.FirstInvalidCons` | vm_manager.py:117 | a piece read successfully in front of the others moves the first failing piece one place to the right |
| `DaysParser.ReadAllSucceeds` | vm_manager.py:117 | the comprehension over any element expression that may raise succeeds exactly when the expression succeeds on every piece |
| `DaysParser.ReadAllElements` | vm_manager.py:117 | a successful comprehension holds exactly the values the element expression gives for the pieces |
| `DaysParser.ReadAllError` | vm_manager.py:117 | a failed comprehension raises the error of the first piece, from the left, on which the element expression raises |
| `DaysParser.ParseDays` | vm_manager.py:117 | an empty days setting raises (its only piece is empty) |
| `DaysParser.ShownDayReadsBack` | vm_manager.py:117 | a day written by `str()` contains no comma, and `int(piece.strip())` reads it back as that day |
| `DaysParser.ShownDays` | vm_manager.py:117 | the pieces of a formatted list of days are one per day, comma-free, and each reads back as its day |
| `DaysParser.ReadAllValues` | vm_manager.py:117 | when each piece reads as the value at the same place in a list, the comprehension gives exactly the set of that list |
| `DaysParser.ParseFormatDays` | vm_manager.py:117 | any comma-separated list of ints reads back as the set of its elements |
| `Scheduler.Weekday` | vm_manager.py:122 | `weekday() + 1` lies in 1..7, and the first seven days of the time scale are Monday to Sunday |
| `Scheduler.WeekdayNext` | vm_manager.py:122 | the weekday advances by one every day, and the day after a Sunday (7) is a Monday (1), for every time |
| `Scheduler.MidnightOf` | vm_manager.py:123 | midnight of the day of `t` is at most `t`, less than a day before it, and a whole number of days |
| `Scheduler.TimeOfDay` | vm_manager.py:122 | `now.time()` lies within one day and adds to midnight to give `now` |
| `Scheduler.EndOfWorkday` | vm_manager.py:123 | `combine(now.date(), hours_end)` falls on the day of `now` at exactly `hours_end` |
| `Scheduler.InWindow` | vm_manager.py:122 | an active window is on a listed weekday, never ends before it starts, and holds now between its start and its end on that day |
| `Scheduler.Deadline` | vm_manager.py:121-131 | the deadline when nothing overflows: outside the window it is now; inside it, it is the smaller of now + timeout and that day's `hours_end`, it is not before now when the timeout is not negative, and it never falls on a later day |
| `Scheduler.ZeroWidthWindow` | vm_manager.py:122-127 | with `hours_start == hours_end` and a timeout that is not negative, the deadline is now |
| `Scheduler.ZeroTimeout` | vm_manager.py:121-131 | a timeout of 0 gives the deadline now |
| `Scheduler.MondayMorningExample` | vm_manager.py:121-131 | Monday 09:00, 480 minutes, window ending 17:00: the deadline is 17:00 |
| `Scheduler.WindowEndCapsTimeout` | vm_manager.py:121-131 | Monday 16:50, 30 minutes, window ending 17:00: the deadline is 17:00 |
| `Scheduler.WeekendExample` | vm_manager.py:121-131 | Saturday with a Monday-to-Friday window: the deadline is now |
| `Scheduler.TimedeltaBounds` | vm_manager.py:116 | `timedelta(minutes=m)` exists for m up to 1439999999999 and down to -1439999998560, and not one minute beyond either bound |
| `Scheduler.TimeToSave` | vm_manager.py:115-131 | OverflowError is raised exactly when the timeout is out of timedelta's range or, inside the window, now + timeout falls outside datetime's range; ValueError for the days setting is raised exactly when the timedelta was built and the days do not parse, naming the first bad piece; otherwise the result is `Deadline` of the parsed days, and it is a datetime whenever now is |
| `Scheduler.MondaysOnly` | vm_manager.py:117 | the days setting "1" parses to Monday only |
| `Scheduler.OverflowExample` | vm_manager.py:121-124 | Monday 09:00, a timeout of 6000000000 minutes and the window 08:00-17:00 raise OverflowError instead of giving a deadline |
| `Scheduler.UndisturbedRecord` | vm_manager.py:133-141 | when no other process acts on the control lock, its content is the same after any number of sleeps |
| `Scheduler.Sleep` | vm_manager.py:139 | during a sleep the control lock changes only as the other process's action says |
| `Scheduler.Poll` | vm_manager.py:133-144 | the loop returns Elapsed exactly when the clock has reached the deadline, and Cancelled exactly when, before the deadline, the control lock is found not ours; at every earlier poll the clock was before the deadline and the lock was ours; the lock's content is what the other processes made of it |
| `Scheduler.Wait` | vm_manager.py:114-144 | when `TimeToSave` raises, the wait ends with that exception before it polls and changes nothing; otherwise the poll loop runs against the deadline of the first clock reading and ends Elapsed or Cancelled; a bad days setting ends it as InvalidDays exactly when the timedelta was built; outside the window it never sleeps and ends Elapsed |
| `Session.ExitStatus` | vm_manager.py:170-198 | the process exits with 0 exactly when the machine was saved or the wait was cancelled, and with 1 otherwise, including an uncaught ValueError or OverflowError |
| `Session.Run` | vm_manager.py:170-198 | a failed start or a busy session lock ends the run with both locks untouched; otherwise the session lock ends free, and when `TimeToSave` raises, the run ends with that exception while the control lock is ours; otherwise the control lock holds what other processes made of it after `sleeps` sleeps, every earlier poll found it ours before the deadline, and the run ends cancelled exactly when the last poll found it taken before the deadline, saved exactly when the deadline passed and the machine runs, and with a failed save exactly when the deadline passed and it does not |
| `Session.UndisturbedRun` | vm_manager.py:170-198 | with free locks, a running machine, no other process and a wait setting that raises nothing, the run ends with the machine saved |
| `Session.HandOver` | vm_manager.py:133-137 | after process 100 seizes the control lock, process 200 waiting on it is cancelled at its first poll before its deadline |

## Left out

- `vbox_get_state`, `vbox_start`, `vbox_save` and `rdp_connect` (vm_manager.py:73-111, 147-150): calls to VBoxManage and xfreerdp and a regex over their output; `Session.Run` takes their results as the booleans `vmStarted` and `vmRunningAtSave`, and the remote session itself is a step that changes nothing in the model.
- The real clock and `sleep`: replaced by the clock oracle; time is counted in whole seconds, so the microseconds of `datetime.now()` (which can put `17:00:00.5` just outside a window ending at 17:00) are not modelled, nor are time zones and daylight saving; the clock readings themselves are not bounded to the years 1 to 9999 that `datetime.now()` always lies in, and only the sum `now + timeout` is checked against that range.
- `strptime` (vm_manager.py:118-119): the window bounds are given as minutes after midnight; a malformed `HH:MM` string is not modelled.
- Logging, including the heartbeat `minutes_left` computation (vm_manager.py:142-144): output only.
- Configuration loading and `getint` (vm_manager.py:153-168): the settings are parameters of `Session.Run`.
- Concurrency: the model is sequential. Other processes act on the control lock only while this process sleeps (`Scheduler.Sleep`), and only by seize or clear; the non-atomic read-then-write inside `acquire` and `release`, and changes to the locks during the remote session, are not modelled.
- `int(file.read())` on a lock file whose content is not an integer (vm_manager.py:25): the record holds only an id or nothing.
- `DaysParser.ParseIntValue`, `DaysParser.ParseShowInt`: `int()` and `str()` are read as CPython 3.6 and later read them without the limit on the number of digits (4300 by default in CPython 3.11 and the 3.7-3.10 security releases, set by `PYTHONINTMAXSTRDIGITS`), beyond which both raise ValueError; earlier versions, which reject underscores in `int()`, are not modelled either.
- `int()` on non-ASCII decimal digits (for example Arabic-Indic digits): `DaysParser.ParseInt` accepts ASCII digits only.
- Process termination: `sys.exit` inside `wait` and `vbox_*` becomes an outcome value returned to the caller.
