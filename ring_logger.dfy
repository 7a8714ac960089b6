/** The logger's resident memory: a fixed array of readings written as a
    ring, the cursor of the next slot to write, the sticky "memory full"
    flag, the report of the most recent readings, and the button handler
    that asks for that report. A reading is any value (`R`): the sensor that
    produces it and the text the report prints are not part of this model. */
module RingLogger {
  import opened IndexArith
  import opened Debounce

  /** Number of slots of the device's memory. */
  const MEM_SIZE: nat := 60
  /** Number of readings the device's report shows at most. */
  const REPORT_SIZE: nat := 10

  datatype Option<T> = None | Some(value: T)

  /** What a report shows, without its text: the count in its header, how
      many readings it lists, and those readings in the order listed. */
  datatype Report<R> = Report(registersInMemory: nat, limit: nat, entries: seq<R>)

  function Min(a: int, b: int): int
  {
    if a < b then a else b
  }

  /** The cursor moves on by one slot and wraps to 0 exactly at the end. */
  lemma NextCursor(n: nat, capacity: nat)
    requires capacity > 0
    ensures (n + 1) % capacity == if n % capacity + 1 == capacity then 0 else n % capacity + 1
  {
    ResidueOfSum(n, 1, capacity);
    if n % capacity + 1 < capacity {
      DivisionIsUnique(0, n % capacity + 1, capacity);
    } else {
      DivisionIsUnique(1, 0, capacity);
    }
  }

  /** The slot `Mod(start + i, capacity)` that a report reads, where the
      cursor is `n % capacity` and `start` is `limit` before the cursor,
      is the slot of the `n - limit + i`-th reading written. */
  lemma WindowSlot(n: nat, capacity: nat, limit: int, i: int)
    requires capacity > 0
    ensures Mod(n % capacity - limit + i, capacity) == (n - limit + i) % capacity
  {
    ModIsEuclidean(n % capacity - limit + i, capacity);
    ResidueOfSum(n, -limit + i, capacity);
  }

  class Logger<R(0)> {
    /** `MEM_SIZE` on the device. */
    const capacity: nat
    /** `REPORT_SIZE` on the device. */
    const reportSize: nat

    /** The slots, `records` of the device. */
    var records: array<R>
    /** The next slot to write. */
    var memPosition: nat
    /** Set once every slot has been written. */
    var memFull: bool
    /** The time of the previous button press, kept between calls. */
    var lastInterruptTime: ULong

    /** Every reading written so far, oldest first. */
    ghost var History: seq<R>

    /** The memory invariant: the cursor is the number of writes modulo the
        capacity, the flag says whether there have been `capacity` writes,
        and each of the last `capacity` readings written sits in the slot
        its write number names. */
    ghost predicate Valid()
      reads this, records
    {
      records.Length == capacity && 0 < capacity &&
      memPosition < capacity &&
      memPosition == |History| % capacity &&
      (memFull <==> |History| >= capacity) &&
      forall k :: |History| - capacity <= k < |History| && 0 <= k ==> records[k % capacity] == History[k]
    }

    /** The memory at start-up: nothing written, cursor at 0, not full, and
        no press remembered (the handler's static starts at 0). */
    constructor (capacity: nat, reportSize: nat)
      requires capacity > 0
      ensures Valid() && fresh(records)
      ensures this.capacity == capacity && this.reportSize == reportSize
      ensures memPosition == 0 && !memFull && lastInterruptTime == 0
      ensures History == []
    {
      this.capacity := capacity;
      this.reportSize := reportSize;
      records := new R[capacity];
      memPosition := 0;
      memFull := false;
      lastInterruptTime := 0;
      History := [];
    }

    /** `write_Record`: store `rec` at the cursor, move the cursor on, and
        when it reaches the end put it back at 0 and raise the flag for
        good. No other slot changes. */
    method WriteRecord(rec: R)
      requires Valid()
      modifies records, this`memPosition, this`memFull, this`History
      ensures Valid()
      ensures records[..] == old(records[..])[old(memPosition) := rec]
      ensures memPosition == if old(memPosition) + 1 == capacity then 0 else old(memPosition) + 1
      ensures memFull <==> old(memFull) || memPosition == 0
      ensures History == old(History) + [rec]
    {
      ghost var n := |History|;
      ghost var before := records[..];
      NextCursor(n, capacity);
      records[memPosition] := rec;
      memPosition := memPosition + 1;
      if memPosition == capacity {
        memPosition := 0;
        memFull := true;
      }
      History := History + [rec];
      forall k | |History| - capacity <= k < |History| && 0 <= k
        ensures records[k % capacity] == History[k]
      {
        if k < n {
          CloseValuesHaveDistinctResidues(k, n, capacity);
          assert records[k % capacity] == before[k % capacity];
        }
      }
    }

    /** `create_report`, without its text: the header counts every reading
        still held; the body lists the `limit` slots that end at the cursor,
        each read through `Mod`, so always in bounds. When the report size
        is at most the capacity (as on the device, 10 of 60), `limit` is the
        smaller of the two counts and the listed readings are exactly the most
        recent `limit` ones written, oldest first. */
    method CreateReport() returns (rep: Report<R>)
      requires Valid()
      ensures rep.registersInMemory == Min(|History|, capacity)
      ensures memFull ==> rep.limit == reportSize
      ensures !memFull ==> rep.limit == Min(|History|, reportSize)
      ensures |rep.entries| == rep.limit
      ensures forall i :: 0 <= i < rep.limit ==> rep.entries[i] == records[Mod(memPosition - rep.limit + i, capacity)]
      ensures reportSize <= capacity ==> rep.limit == Min(rep.registersInMemory, reportSize)
      ensures reportSize <= capacity ==> rep.entries == History[|History| - rep.limit..]
    {
      var limit: nat;
      var registersInMemory: nat;
      if memFull {
        limit := reportSize;
        registersInMemory := capacity;
      } else {
        limit := Min(memPosition, reportSize);
        registersInMemory := memPosition;
      }
      var startPos := memPosition - limit;
      var entries: seq<R> := [];
      for i := 0 to limit
        invariant |entries| == i
        invariant forall j :: 0 <= j < i ==> entries[j] == records[Mod(startPos + j, capacity)]
      {
        entries := entries + [records[Mod(startPos + i, capacity)]];
      }
      rep := Report(registersInMemory, limit, entries);
      if !memFull {
        DivisionIsUnique(0, |History|, capacity);
      }
      if reportSize <= capacity {
        var n := |History|;
        forall i | 0 <= i < limit
          ensures entries[i] == History[n - limit + i]
        {
          WindowSlot(n, capacity, limit, i);
        }
      }
    }

    /** `interrupt_report`, with `millis()` passed in as `now`: a report is
        made exactly when more than 300 ms of `unsigned long` time separate
        this press from the previous one, and the press is remembered either
        way. The memory is only read. */
    method InterruptReport(now: ULong) returns (report: Option<Report<R>>)
      requires Valid()
      modifies this`lastInterruptTime
      ensures Valid()
      ensures lastInterruptTime == now
      ensures report.Some? <==> Accepts(now, old(lastInterruptTime))
      ensures report.Some? ==> report.value.registersInMemory == Min(|History|, capacity)
      ensures report.Some? && memFull ==> report.value.limit == reportSize
      ensures report.Some? && !memFull ==> report.value.limit == Min(|History|, reportSize)
      ensures report.Some? ==> |report.value.entries| == report.value.limit
      ensures report.Some? ==> forall i :: 0 <= i < report.value.limit ==>
        report.value.entries[i] == records[Mod(memPosition - report.value.limit + i, capacity)]
      ensures report.Some? && reportSize <= capacity ==>
        report.value.registersInMemory == Min(|History|, capacity) &&
        report.value.limit == Min(report.value.registersInMemory, reportSize) &&
        report.value.entries == History[|History| - report.value.limit..]
    {
      var interruptTime := now;
      if Elapsed(interruptTime, lastInterruptTime) > DEBOUNCE_MS {
        var rep := CreateReport();
        report := Some(rep);
      } else {
        report := None;
      }
      lastInterruptTime := interruptTime;
    }

    /** `interrupt_report` called once per button press at the clock
        readings `times`, in order: the outcomes are the `Decisions` of the
        run, so each press is judged against the press just before it, and
        the last press is what stays remembered. */
    method PressAll(times: seq<ULong>) returns (outcomes: seq<bool>)
      requires Valid()
      modifies this`lastInterruptTime
      ensures Valid()
      ensures outcomes == Decisions(old(lastInterruptTime), times)
      ensures lastInterruptTime == if times == [] then old(lastInterruptTime) else times[|times| - 1]
    {
      ghost var start := lastInterruptTime;
      outcomes := [];
      for i := 0 to |times|
        invariant Valid()
        invariant outcomes == Decisions(start, times)[..i]
        invariant lastInterruptTime == if i == 0 then start else times[i - 1]
      {
        if i > 0 {
          DecidedAgainstPreviousPress(start, times, i);
        }
        var report := InterruptReport(times[i]);
        outcomes := outcomes + [report.Some?];
      }
    }
  }

  /** The device memory after writing `recs` from start-up, one reading at
      a time: the cursor is the number of writes modulo 60, the flag is up
      exactly when there have been 60 or more, and a report then lists the
      last (at most 10) readings written, oldest first. */
  method WriteAllFromStart<R(0)>(recs: seq<R>) returns (cursor: nat, full: bool, shown: seq<R>)
    ensures cursor == |recs| % MEM_SIZE
    ensures full <==> |recs| >= MEM_SIZE
    ensures shown == recs[|recs| - Min(|recs|, REPORT_SIZE)..]
  {
    var logger := new Logger<R>(MEM_SIZE, REPORT_SIZE);
    for i := 0 to |recs|
      invariant logger.Valid() && fresh(logger.records)
      invariant logger.capacity == MEM_SIZE && logger.reportSize == REPORT_SIZE
      invariant logger.History == recs[..i]
    {
      logger.WriteRecord(recs[i]);
    }
    assert logger.History == recs;
    var rep := logger.CreateReport();
    cursor, full, shown := logger.memPosition, logger.memFull, rep.entries;
  }

  /** With five slots and a report of three, five readings 10..14 fill the
      memory exactly once (the cursor wraps to 0 on the fifth); the report then
      lists 12, 13, 14 in that order. */
  method WrapAroundReport() returns (temperatures: seq<int>)
    ensures temperatures == [12, 13, 14]
  {
    var logger := new Logger<int>(5, 3);
    logger.WriteRecord(10);
    logger.WriteRecord(11);
    logger.WriteRecord(12);
    logger.WriteRecord(13);
    logger.WriteRecord(14);
    assert logger.History == [10, 11, 12, 13, 14];
    var rep := logger.CreateReport();
    temperatures := rep.entries;
  }

  /** A freshly started device reports no readings and reads no slot. */
  method EmptyReport() returns (listed: nat, held: nat)
    ensures listed == 0 && held == 0
  {
    var logger := new Logger<int>(MEM_SIZE, REPORT_SIZE);
    var rep := logger.CreateReport();
    listed, held := rep.limit, rep.registersInMemory;
  }
}
