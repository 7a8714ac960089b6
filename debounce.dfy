/** The bounce filter of the report button: a press is taken only when
    more than 300 ms of `unsigned long` time have passed since the previous
    press, accepted or not. The clock is an input; on the 8-bit Arduino
    boards the logger targets, `unsigned long` is 32 bits wide. */
module Debounce {

  const ULONG_MODULUS: int := 0x1_0000_0000

  /** A C++ `unsigned long` of the target. */
  type ULong = x: int | 0 <= x < ULONG_MODULUS

  /** Presses closer together than this, in milliseconds, are bounce. */
  const DEBOUNCE_MS: int := 300

  /** `interrupt_time - last_interrupt_time` in `unsigned long` arithmetic:
      the true difference when the clock has not wrapped since `last`, and
      the difference plus 2^32 when it has. */
  function Elapsed(now: ULong, last: ULong): (d: ULong)
    ensures last <= now ==> d == now - last
    ensures now < last ==> d == now - last + ULONG_MODULUS
    ensures (d - (now - last)) % ULONG_MODULUS == 0
  {
    if last <= now then now - last else now - last + ULONG_MODULUS
  }

  /** Whether the press at `now` produces a report, given the time of
      the previous press. */
  predicate Accepts(now: ULong, last: ULong)
  {
    Elapsed(now, last) > DEBOUNCE_MS
  }

  /** Both directions of the decision, in plain integer terms: without a
      wrap of the clock, more than 300 ms must separate the presses; across
      a wrap, the time left before the wrap and the time after it must add
      up to more than 300 ms. */
  lemma AcceptsExactly(now: ULong, last: ULong)
    ensures last <= now ==> (Accepts(now, last) <==> now > last + DEBOUNCE_MS)
    ensures now < last ==> (Accepts(now, last) <==> (ULONG_MODULUS - last) + now > DEBOUNCE_MS)
  {
  }

  /** The press at `now` is suppressed when the previous one came at most
      300 ms earlier, whether or not the clock wrapped in between. */
  lemma CloseFollowerIsSuppressed(now: ULong, last: ULong)
    requires (last <= now && now - last <= DEBOUNCE_MS) ||
             (now < last && ULONG_MODULUS - last + now <= DEBOUNCE_MS)
    ensures !Accepts(now, last)
  {
  }

  /** The remembered time starts at 0, so a first press in the first
      300 ms after start-up gives no report. */
  lemma EarlyFirstPressIsSuppressed(now: ULong)
    ensures Accepts(now, 0) <==> now > DEBOUNCE_MS
  {
  }

  /** The decisions taken for presses at `times`, in that order, when the
      previous press was at `last`: every press is judged against the one
      just before it, and the remembered time moves on at every press. */
  function Decisions(last: ULong, times: seq<ULong>): (r: seq<bool>)
    ensures |r| == |times|
    ensures |times| > 0 ==> r[0] == Accepts(times[0], last)
    decreases |times|
  {
    if times == [] then [] else [Accepts(times[0], last)] + Decisions(times[0], times[1..])
  }

  /** Past the first press, a press is decided by the gap to the press just
      before it, whether that one was accepted or suppressed. */
  lemma {:induction false} DecidedAgainstPreviousPress(last: ULong, times: seq<ULong>, i: nat)
    requires 0 < i < |times|
    ensures Decisions(last, times)[i] == Accepts(times[i], times[i - 1])
    decreases i
  {
    if i > 1 {
      DecidedAgainstPreviousPress(times[0], times[1..], i - 1);
    }
  }

  /** A run of presses each of which comes within 300 ms of the one before
      it (the first within 300 ms of `last`) produces no report at all, no
      matter how long the run lasts. */
  lemma {:induction false} SteadyBounceNeverReports(last: ULong, times: seq<ULong>)
    requires |times| > 0 ==> Elapsed(times[0], last) <= DEBOUNCE_MS
    requires forall i :: 0 < i < |times| ==> Elapsed(times[i], times[i - 1]) <= DEBOUNCE_MS
    ensures forall i :: 0 <= i < |times| ==> !Decisions(last, times)[i]
  {
    forall i | 0 <= i < |times|
      ensures !Decisions(last, times)[i]
    {
      if i > 0 {
        DecidedAgainstPreviousPress(last, times, i);
      }
    }
  }
}
