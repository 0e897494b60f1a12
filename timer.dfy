/**
 * The 1 ms repeating-timer callback and `millis()`. The callback increments
 * the 16-bit `g_msec_cnt`; when it reaches `1000 - 1` it resets it to 0 and
 * runs the DHCP and DNS time handlers. `millis()` returns the counter, so it
 * is a phase within the current 999-tick period, not elapsed time.
 */
module Timer {

  const UINT16_MODULUS: nat := 0x1_0000
  /** The reset threshold `1000 - 1`. */
  const TICK_PERIOD: nat := 999

  /** One callback's effect on the counter: a `uint16_t` increment, then the reset. */
  function NextCount(c: nat): nat {
    var n := (c + 1) % UINT16_MODULUS;
    if n >= TICK_PERIOD then 0 else n
  }

  /** The counter after `n` callbacks from its initial 0. */
  function CountAfter(n: nat): nat {
    if n == 0 then 0 else NextCount(CountAfter(n - 1))
  }

  /** How often the time handlers ran during the first `n` callbacks. */
  function FiresAfter(n: nat): nat {
    if n == 0 then 0
    else FiresAfter(n - 1) + (if (CountAfter(n - 1) + 1) % UINT16_MODULUS >= TICK_PERIOD then 1 else 0)
  }

  /**
   * After `n` callbacks the counter is `n mod 999`, within 0..998, and the
   * handlers have run once per completed 999 callbacks.
   */
  lemma {:induction false} TickPeriodic(n: nat)
    ensures CountAfter(n) == n % TICK_PERIOD
    ensures CountAfter(n) < TICK_PERIOD
    ensures FiresAfter(n) == n / TICK_PERIOD
  {
    if n > 0 {
      TickPeriodic(n - 1);
      var q, r := (n - 1) / TICK_PERIOD, (n - 1) % TICK_PERIOD;
      assert n == q * TICK_PERIOD + r + 1;
      if r + 1 == TICK_PERIOD {
        assert n % TICK_PERIOD == 0 && n / TICK_PERIOD == q + 1;
      } else {
        assert n % TICK_PERIOD == r + 1 && n / TICK_PERIOD == q;
      }
    }
  }

  class MsecTimer {
    /** `g_msec_cnt` */
    var msecCnt: nat
    /** Calls of `DHCP_time_handler` and of `DNS_time_handler` so far. */
    var dhcpHandlerCalls: nat
    var dnsHandlerCalls: nat
    /** Callbacks so far. */
    ghost var ticks: nat

    ghost predicate Valid()
      reads this
    {
      && msecCnt == CountAfter(ticks)
      && dhcpHandlerCalls == FiresAfter(ticks)
      && dnsHandlerCalls == FiresAfter(ticks)
    }

    constructor ()
      ensures Valid() && ticks == 0 && msecCnt == 0
      ensures dhcpHandlerCalls == 0 && dnsHandlerCalls == 0
    {
      msecCnt, dhcpHandlerCalls, dnsHandlerCalls := 0, 0, 0;
      ticks := 0;
    }

    /**
     * `repeating_timer_callback`. Afterwards the counter lies in 0..998;
     * the handlers fire on every 999th callback and on no other.
     */
    method Tick() returns (fired: bool)
      requires Valid()
      modifies this
      ensures Valid() && ticks == old(ticks) + 1
      ensures msecCnt == NextCount(old(msecCnt))
      ensures msecCnt <= TICK_PERIOD - 1 && msecCnt == ticks % TICK_PERIOD
      ensures fired <==> ticks % TICK_PERIOD == 0
      ensures dhcpHandlerCalls == old(dhcpHandlerCalls) + (if fired then 1 else 0)
      ensures dnsHandlerCalls == old(dnsHandlerCalls) + (if fired then 1 else 0)
      ensures dhcpHandlerCalls == dnsHandlerCalls == ticks / TICK_PERIOD
    {
      TickPeriodic(ticks + 1);
      msecCnt := (msecCnt + 1) % UINT16_MODULUS;
      fired := msecCnt >= TICK_PERIOD;
      if fired {
        msecCnt := 0;
        dhcpHandlerCalls := dhcpHandlerCalls + 1;
        dnsHandlerCalls := dnsHandlerCalls + 1;
      }
      ticks := ticks + 1;
    }

    /** `millis()`: never more than 998, whatever time has passed. */
    function Millis(): (ms: nat)
      reads this
      requires Valid()
      ensures ms <= TICK_PERIOD - 1
      ensures ms == ticks % TICK_PERIOD
    {
      TickPeriodic(ticks);
      msecCnt
    }
  }
}
