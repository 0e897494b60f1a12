/**
 * The SNTP phase of `main`: `SNTP_run` is polled in a do-while loop whose
 * condition is `(millis() - start_ms) < RECV_TIMEOUT`, and the firmware
 * halts unless the last value was 1. `millis()` returns the wrapping
 * millisecond counter (see the Timer module), so the readings lie in
 * 0..998 and the condition does not measure ten seconds: how the
 * subtraction behaves depends on the width of the C library's `time_t`,
 * which is a parameter here.
 */
module Sntp {
  import opened Bytes

  /** `#define RECV_TIMEOUT (1000 * 10)` */
  const RECV_TIMEOUT: int := 10000
  const UINT32_MODULUS: int := 0x1_0000_0000
  /** The largest value `millis()` returns: the counter resets at 999. */
  const MILLIS_MAX: nat := 998

  /** The width of `time_t`, the return type of `millis()`. */
  datatype TimeT = Signed64 | Signed32

  /**
   * One pass of the loop body and condition: the value `SNTP_run` returned
   * (stored in the `uint8_t retval`) and the `millis()` reading taken by the
   * loop condition.
   */
  datatype SntpPoll = SntpPoll(retval: byte, clock: nat)

  /**
   * `Synced`: `SNTP_run` returned 1 at poll `at`. `Failed`: the loop
   * condition ended the loop after poll `at` with `retval != 1` and the
   * firmware halts, printing `retval`. `Polling`: all given polls consumed.
   */
  datatype SntpOutcome = Synced(at: nat) | Failed(at: nat, retval: byte) | Polling

  /**
   * `millis() - start_ms` as the loop condition compares it with
   * `RECV_TIMEOUT`. A 64-bit `time_t` makes the subtraction signed; a
   * 32-bit one converts both sides to `uint32_t`, so it wraps modulo 2^32.
   */
  function Elapsed(now: nat, startMs: nat, width: TimeT): int {
    match width
    case Signed64 => now - startMs
    case Signed32 => (now - startMs) % UINT32_MODULUS
  }

  function SntpFrom(polls: seq<SntpPoll>, i: nat, startMs: nat, width: TimeT): SntpOutcome
    requires i <= |polls|
    decreases |polls| - i
  {
    if i == |polls| then Polling
    else if polls[i].retval == 1 then Synced(i)
    else if Elapsed(polls[i].clock, startMs, width) >= RECV_TIMEOUT then Failed(i, polls[i].retval)
    else SntpFrom(polls, i + 1, startMs, width)
  }

  function SntpRun(polls: seq<SntpPoll>, startMs: nat, width: TimeT): SntpOutcome {
    SntpFrom(polls, 0, startMs, width)
  }

  /** The loop keeps polling after poll `j`: no 1, and the condition still held. */
  predicate KeepsPolling(polls: seq<SntpPoll>, j: nat, startMs: nat, width: TimeT)
    requires j < |polls|
  {
    polls[j].retval != 1 && Elapsed(polls[j].clock, startMs, width) < RECV_TIMEOUT
  }

  lemma {:induction false} SntpFromOutcome(polls: seq<SntpPoll>, i: nat, startMs: nat, width: TimeT)
    requires i <= |polls|
    ensures var o := SntpFrom(polls, i, startMs, width);
      match o
      case Synced(at) =>
        i <= at < |polls| && polls[at].retval == 1
        && forall j :: i <= j < at ==> KeepsPolling(polls, j, startMs, width)
      case Failed(at, r) =>
        i <= at < |polls| && r == polls[at].retval && r != 1
        && Elapsed(polls[at].clock, startMs, width) >= RECV_TIMEOUT
        && forall j :: i <= j < at ==> KeepsPolling(polls, j, startMs, width)
      case Polling =>
        forall j :: i <= j < |polls| ==> KeepsPolling(polls, j, startMs, width)
    decreases |polls| - i
  {
    if i < |polls| && KeepsPolling(polls, i, startMs, width) {
      SntpFromOutcome(polls, i + 1, startMs, width);
    }
  }

  /**
   * The loop stops polling on the first 1, and halts with any other value
   * only where the loop condition failed; until then every poll returned
   * something other than 1 with the condition holding.
   */
  lemma SntpRunOutcome(polls: seq<SntpPoll>, startMs: nat, width: TimeT)
    ensures var o := SntpRun(polls, startMs, width);
      match o
      case Synced(at) =>
        at < |polls| && polls[at].retval == 1
        && forall j :: 0 <= j < at ==> KeepsPolling(polls, j, startMs, width)
      case Failed(at, r) =>
        at < |polls| && r == polls[at].retval && r != 1
        && Elapsed(polls[at].clock, startMs, width) >= RECV_TIMEOUT
        && forall j :: 0 <= j < at ==> KeepsPolling(polls, j, startMs, width)
      case Polling =>
        forall j :: 0 <= j < |polls| ==> KeepsPolling(polls, j, startMs, width)
  {
    SntpFromOutcome(polls, 0, startMs, width);
  }

  predicate ClockReadingsInRange(polls: seq<SntpPoll>) {
    forall j :: 0 <= j < |polls| ==> polls[j].clock <= MILLIS_MAX
  }

  /**
   * With a 64-bit `time_t` and readings from the wrapping counter, the
   * condition never fails: the phase cannot halt, it polls until `SNTP_run`
   * returns 1.
   */
  lemma {:induction false} Sntp64NeverTimesOut(polls: seq<SntpPoll>, i: nat, startMs: nat)
    requires i <= |polls|
    requires startMs <= MILLIS_MAX && ClockReadingsInRange(polls)
    ensures !SntpFrom(polls, i, startMs, Signed64).Failed?
    decreases |polls| - i
  {
    if i < |polls| && polls[i].retval != 1 {
      Sntp64NeverTimesOut(polls, i + 1, startMs);
    }
  }

  /**
   * With a 32-bit `time_t`, the condition fails exactly when a reading is
   * below the starting one, so only on a reading taken after the counter
   * wrapped and before it climbed back to `start_ms`.
   */
  lemma Sntp32FailsOnlyOnWrap(polls: seq<SntpPoll>, startMs: nat)
    requires startMs <= MILLIS_MAX && ClockReadingsInRange(polls)
    ensures forall now :: 0 <= now <= MILLIS_MAX ==>
      (Elapsed(now, startMs, Signed32) >= RECV_TIMEOUT <==> now < startMs)
    ensures SntpRun(polls, startMs, Signed32).Failed? ==>
      SntpRun(polls, startMs, Signed32).at < |polls| &&
      polls[SntpRun(polls, startMs, Signed32).at].clock < startMs
  {
    SntpRunOutcome(polls, startMs, Signed32);
  }

  /**
   * With a 32-bit `time_t` and a start reading of 0, no reading is below
   * the start, so the condition never fails either.
   */
  lemma Sntp32NeverFailsFromZero(polls: seq<SntpPoll>)
    requires ClockReadingsInRange(polls)
    ensures !SntpRun(polls, 0, Signed32).Failed?
  {
    Sntp32FailsOnlyOnWrap(polls, 0);
  }

  /**
   * The do-while loop: poll, stop on 1, otherwise test the condition with a
   * fresh `millis()` reading. Returns the outcome and the final `retval`.
   */
  method SyncTime(polls: seq<SntpPoll>, startMs: nat, width: TimeT) returns (outcome: SntpOutcome, retval: byte)
    ensures outcome == SntpRun(polls, startMs, width)
    ensures outcome.Synced? ==> retval == 1
    ensures outcome.Failed? ==> retval == outcome.retval && retval != 1
  {
    retval := 0;
    var i := 0;
    while i < |polls|
      invariant 0 <= i <= |polls|
      invariant SntpRun(polls, startMs, width) == SntpFrom(polls, i, startMs, width)
    {
      retval := polls[i].retval;
      if retval == 1 {
        outcome := Synced(i);
        return;
      }
      if Elapsed(polls[i].clock, startMs, width) >= RECV_TIMEOUT {
        outcome := Failed(i, retval);
        return;
      }
      i := i + 1;
    }
    outcome := Polling;
  }
}
