# Ring-buffer temperature logger, modelled in Dafny

The logger samples a temperature/humidity sensor every 10 seconds and keeps
the readings in a resident array of `MEM_SIZE` (60) slots used as a ring: a
cursor `mem_position` names the next slot to write and a flag `mem_full`
records that every slot has been written at least once. A button press,
filtered against contact bounce (300 ms), prints the most recent
`REPORT_SIZE` (10) readings, oldest first, walking backwards from the cursor
with a non-negative modulus helper `mod`.

The model has three modules:

- `IndexArith` (`index_arith.dfy`): C++'s truncating `/` and `%` on `int`
  (`CDiv`, `CRem`; Dafny's own operators are Euclidean), and `Mod`, the
  two-branch helper written on top of `CRem` exactly as the source writes it.
  Lemmas prove that for a positive modulus it returns the one value of
  `[0, y)` congruent to `x`, negative `x` included.
- `Debounce` (`debounce.dfy`): `unsigned long` (32 bits on the target
  boards) as the subset type `ULong`, the wrapping subtraction `Elapsed`,
  the decision `Accepts`, and `Decisions`, the outcomes of a run of
  presses, with lemmas on what gets suppressed.
- `RingLogger` (`ring_logger.dfy`): class `Logger<R>` holds the slot array,
  the cursor, the flag and the handler's remembered press time, plus a ghost
  `History` of every reading ever written. `Valid()` ties them together:
  the cursor is the number of writes modulo the capacity, the flag is up
  exactly when there have been at least `capacity` writes, and each of the
  last `capacity` readings sits in slot `k % capacity`, where `k` is its
  write number. `WriteRecord` is `write_Record`, `CreateReport` is the
  window selection of `create_report`, and `InterruptReport` is
  `interrupt_report`, which takes the clock reading as a parameter.

The class takes the capacity and report size as constructor arguments, so
that one scenario (5 slots, report of 3) can be stated. The device's values
are the constants `MEM_SIZE` and `REPORT_SIZE`, used by
`WriteAllFromStart` and `EmptyReport`.

In the full branch (src/main.cpp:52-54) the code sets `limit = REPORT_SIZE`
without taking a minimum. `CreateReport` models that branch as written. It
proves the result equals `Min(registersInMemory, reportSize)` when
`reportSize <= capacity` (10 of 60 on the device), and it keeps every index
in bounds for any report size.

## Model

| member | source | states |
|---|---|---|
| IndexArith.CRem | src/main.cpp:26 | C++ `%`: with the truncating quotient it rebuilds the dividend, and its sign follows the dividend with magnitude below the divisor's |
| IndexArith.Mod | src/main.cpp:25-27 | for `y > 0` the result is in `[0, y)` and congruent to `x` for every integer `x`, negative ones included; an `x` already in `[0, y)` is returned unchanged |
| IndexArith.ModIsUnique | src/main.cpp:25-27 | any value of `[0, y)` congruent to `x` equals `mod(x, y)`, so the helper is the unique least non-negative residue |
| IndexArith.ModIsEuclidean | src/main.cpp:25-27 | for `y > 0` the two-branch formula agrees with the Euclidean remainder, whatever the sign of `x` |
| RingLogger.NextCursor | src/main.cpp:40-44 | advancing the cursor by one and resetting it at `MEM_SIZE` is the write count plus one, modulo the capacity |
| RingLogger.WindowSlot | src/main.cpp:67-71 | the slot `mod(start_pos + i, MEM_SIZE)` with `start_pos = mem_position - limit` holds reading number `n - limit + i`, where `n` is the number of writes |
| RingLogger.Logger.constructor | src/main.cpp:19-21 | start-up state: cursor 0, flag down, no reading written, no press remembered, cursor/flag/slot invariant established |
| RingLogger.Logger.WriteRecord | src/main.cpp:38-45 | `rec` lands in the slot at the old cursor and no other slot changes; the cursor moves on by one and wraps to 0 at the end; the flag goes up exactly on the wrap and never comes down; the invariant (cursor = writes mod capacity, flag iff at least capacity writes) is kept |
| RingLogger.Logger.CreateReport | src/main.cpp:48-71 | the header count is `min(writes, MEM_SIZE)`; `limit` is `REPORT_SIZE` when full and `min(writes, REPORT_SIZE)` otherwise; each listed reading is read through `mod`, so every index is in bounds; with `REPORT_SIZE <= MEM_SIZE` the limit is `min(registers, REPORT_SIZE)` and the body is exactly the last `limit` readings written, oldest first and newest last, across wraparound; an empty memory lists nothing |
| RingLogger.Logger.InterruptReport | src/main.cpp:98-107 | a report is made iff `(now - last) mod 2^32 > 300`; the remembered time becomes `now` either way; the memory is untouched; a report made has the header count, limit and `Mod`-indexed entries `CreateReport` gives for any report size, and, when `reportSize <= capacity`, lists exactly the last `limit` readings oldest first |
| RingLogger.Logger.PressAll | src/main.cpp:98-107 | handling presses at `times` one after another yields exactly `Decisions(last, times)`, so each press is judged against the press before it, and the last press stays remembered |
| RingLogger.WriteAllFromStart | src/main.cpp:19-71 | after `n` writes from start-up on the device's 60 slots, the cursor is `n % 60`, the flag is up iff `n >= 60`, and the report lists the last `min(n, 10)` readings in write order |
| RingLogger.WrapAroundReport | src/main.cpp:38-71 | with 5 slots and a report of 3, writing 10, 11, 12, 13, 14 (wrapping once) gives a report of 12, 13, 14 in that order |
| RingLogger.EmptyReport | src/main.cpp:48-71 | on a fresh device the report holds and lists zero readings |
| Debounce.Elapsed | src/main.cpp:102 | `unsigned long` subtraction: the plain difference when the clock has not wrapped, the difference plus 2^32 when it has, congruent to the true difference in every case |
| Debounce.AcceptsExactly | src/main.cpp:102-105 | `Accepts`, the test of line 102, holds iff more than 300 ms separate the presses in plain integer terms: `now > last + 300` without a clock wrap, `(2^32 - last) + now > 300` across one; both directions |
| Debounce.CloseFollowerIsSuppressed | src/main.cpp:102-106 | a press at most 300 ms after the previous one gives no report, with or without a clock wrap in between |
| Debounce.EarlyFirstPressIsSuppressed | src/main.cpp:99-105 | the remembered time starts at 0, so a first press reports exactly when it comes after 300 ms |
| Debounce.Decisions | src/main.cpp:98-107 | a run of presses gets one decision per press, and the first is judged against the remembered time |
| Debounce.DecidedAgainstPreviousPress | src/main.cpp:102-106 | every later press is judged against the press just before it, whether that one was accepted or suppressed |
| Debounce.SteadyBounceNeverReports | src/main.cpp:102-106 | a run of presses each within 300 ms of the one before gives no report at all, however long it lasts |

## Left out

- Serial output (src/main.cpp:60-65, 69-77): the model gives the header
  counts and the listed readings, not the printed text or float formatting.
- Sensor reads in `record_DHT` (src/main.cpp:30-35): a reading is a value
  of the type parameter `R`. The float fields, NaN on a failed read, and the
  DHT library are not modelled.
- `read_DHT`'s blink (`blink_builtin`, `digitalWrite`, `Alarm.delay`,
  src/main.cpp:81-95): hardware output and blocking delays. What `read_DHT`
  does to the memory is `WriteRecord`.
- `setup` and `loop`, TimeAlarms scheduling, `attachInterrupt` and
  `millis()` (src/main.cpp:109-132): platform wiring. The clock reading is
  the `now` parameter of `InterruptReport`.
- The button handler runs as an interrupt and can preempt `write_Record`
  half-way, and nothing in the code prevents that. The model assumes calls
  run one after another, so it does not capture a torn cursor/flag/slot
  read.
- The width of C++ `int` is not modelled. Every value the logger puts in an
  `int` stays within `[-REPORT_SIZE, MEM_SIZE]`, so no overflow can happen.
- IndexArith.Mod: range and congruence are stated for a positive modulus
  only. The logger calls it only with `MEM_SIZE`. A zero modulus is excluded
  by its requires, because C++ leaves `%` by zero undefined.
- The initial contents of `records` (zero-filled in C++) are unspecified in
  the model. No report reads a slot that has not been written, so they
  cannot be observed.
