/**
 * The DHCP lease loop of `main`: `DHCP_run` is polled until it reports a
 * lease, and the loop halts (after `DHCP_stop`) once the number of
 * `DHCP_FAILED` results exceeds `DHCP_RETRY_COUNT`. The results of
 * `DHCP_run` are the input; the one-second delay between polls is left to
 * the caller.
 */
module Dhcp {

  /** The values `DHCP_run` returns. */
  datatype DhcpStatus = Failed | Running | IpAssign | IpChanged | IpLeased | Stopped

  const DHCP_RETRY_COUNT: nat := 5

  /**
   * How the loop ends: `Leased` breaks out with the lease taken from result
   * `at`; `Halted` is the spin after `DHCP_stop` at result `at`; `Waiting`
   * means every given result was consumed and the loop is still polling.
   * `retries` is the value of `dhcp_retry`.
   */
  datatype DhcpOutcome =
    | Leased(at: nat, retries: nat)
    | Halted(at: nat, retries: nat)
    | Waiting(retries: nat)

  /**
   * The loop from result `i` on, with `dhcp_retry == retry` and
   * `g_dhcp_get_ip_flag == flag`.
   */
  function DhcpFrom(rs: seq<DhcpStatus>, i: nat, retry: nat, flag: bool): DhcpOutcome
    requires i <= |rs|
    decreases |rs| - i
  {
    if i == |rs| then Waiting(retry)
    else if rs[i] == IpLeased && !flag then Leased(i, retry)
    else
      var retry' := if rs[i] == Failed then retry + 1 else retry;
      var flag' := if rs[i] == Failed then false else flag;
      if retry' > DHCP_RETRY_COUNT then Halted(i, retry')
      else DhcpFrom(rs, i + 1, retry', flag')
  }

  /** The whole loop, from `dhcp_retry = 0` and `g_dhcp_get_ip_flag = 0`. */
  function DhcpRun(rs: seq<DhcpStatus>): DhcpOutcome {
    DhcpFrom(rs, 0, 0, false)
  }

  /** The number of `DHCP_FAILED` results in `s`. */
  function Failures(s: seq<DhcpStatus>): nat {
    if s == [] then 0
    else Failures(s[..|s| - 1]) + (if s[|s| - 1] == Failed then 1 else 0)
  }

  lemma FailuresStep(rs: seq<DhcpStatus>, i: nat)
    requires i < |rs|
    ensures Failures(rs[..i + 1]) == Failures(rs[..i]) + (if rs[i] == Failed then 1 else 0)
  {
    assert rs[..i + 1][..i] == rs[..i];
  }

  /** Counting failures over a longer prefix never gives fewer. */
  lemma {:induction false} FailuresMonotone(rs: seq<DhcpStatus>, i: nat, j: nat)
    requires i <= j <= |rs|
    ensures Failures(rs[..i]) <= Failures(rs[..j])
    decreases j - i
  {
    if i < j {
      FailuresStep(rs, j - 1);
      FailuresMonotone(rs, i, j - 1);
    }
  }

  /**
   * The outcome the source promises for a result stream: a lease at the
   * first `IpLeased` seen before the sixth failure, with the failures seen
   * so far as the retry count; a halt exactly at the sixth failure when no
   * lease came before it; otherwise still waiting.
   */
  ghost predicate IsDhcpOutcome(rs: seq<DhcpStatus>, o: DhcpOutcome) {
    match o
    case Leased(at, r) =>
      at < |rs| && rs[at] == IpLeased && IpLeased !in rs[..at]
      && r == Failures(rs[..at]) && r <= DHCP_RETRY_COUNT
    case Halted(at, r) =>
      at < |rs| && rs[at] == Failed && IpLeased !in rs[..at]
      && Failures(rs[..at]) == DHCP_RETRY_COUNT && r == DHCP_RETRY_COUNT + 1
    case Waiting(r) =>
      IpLeased !in rs && r == Failures(rs) && r <= DHCP_RETRY_COUNT
  }

  lemma {:induction false} DhcpFromMeetsSpec(rs: seq<DhcpStatus>, i: nat)
    requires i <= |rs|
    requires IpLeased !in rs[..i]
    requires Failures(rs[..i]) <= DHCP_RETRY_COUNT
    ensures IsDhcpOutcome(rs, DhcpFrom(rs, i, Failures(rs[..i]), false))
    decreases |rs| - i
  {
    if i == |rs| {
      assert rs[..i] == rs;
    } else {
      FailuresStep(rs, i);
      if rs[i] != IpLeased {
        assert rs[..i + 1] == rs[..i] + [rs[i]];
        if Failures(rs[..i + 1]) <= DHCP_RETRY_COUNT {
          DhcpFromMeetsSpec(rs, i + 1);
        }
      }
    }
  }

  /** The loop ends as the source promises (see `IsDhcpOutcome`). */
  lemma DhcpRunMeetsSpec(rs: seq<DhcpStatus>)
    ensures IsDhcpOutcome(rs, DhcpRun(rs))
  {
    assert rs[..0] == [];
    DhcpFromMeetsSpec(rs, 0);
  }

  /** `IsDhcpOutcome` admits one outcome only, so it characterises the loop. */
  lemma DhcpOutcomeUnique(rs: seq<DhcpStatus>, o1: DhcpOutcome, o2: DhcpOutcome)
    requires IsDhcpOutcome(rs, o1) && IsDhcpOutcome(rs, o2)
    ensures o1 == o2
  {
    forall o, p | IsDhcpOutcome(rs, o) && IsDhcpOutcome(rs, p) && !o.Waiting? && !p.Waiting?
      ensures o.at <= p.at
    {
      if p.at < o.at {
        assert rs[p.at] in rs[..o.at];
        if p.Halted? {
          FailuresStep(rs, p.at);
          FailuresMonotone(rs, p.at + 1, o.at);
        }
      }
    }
    if o1.Waiting? && !o2.Waiting? {
      WaitingExcludesEnd(rs, o2);
    } else if o2.Waiting? && !o1.Waiting? {
      WaitingExcludesEnd(rs, o1);
    }
  }

  lemma WaitingExcludesEnd(rs: seq<DhcpStatus>, o: DhcpOutcome)
    requires !o.Waiting? && IsDhcpOutcome(rs, o)
    ensures IpLeased in rs || Failures(rs) > DHCP_RETRY_COUNT
  {
    if o.Halted? {
      FailuresStep(rs, o.at);
      FailuresMonotone(rs, o.at + 1, |rs|);
      assert rs[..|rs|] == rs;
    }
  }

  /** The halt happens exactly at the sixth failure, never earlier. */
  lemma DhcpHaltsAtSixthFailure(rs: seq<DhcpStatus>, i: nat)
    ensures (DhcpRun(rs).Halted? && DhcpRun(rs).at == i) <==>
      (i < |rs| && rs[i] == Failed && Failures(rs[..i]) == DHCP_RETRY_COUNT && IpLeased !in rs[..i])
  {
    DhcpRunMeetsSpec(rs);
    if i < |rs| && rs[i] == Failed && Failures(rs[..i]) == DHCP_RETRY_COUNT && IpLeased !in rs[..i] {
      DhcpOutcomeUnique(rs, DhcpRun(rs), Halted(i, DHCP_RETRY_COUNT + 1));
    }
  }

  /** A lease seen before the sixth failure ends the loop at that result. */
  lemma DhcpLeasesAtFirstLease(rs: seq<DhcpStatus>, i: nat)
    ensures (DhcpRun(rs).Leased? && DhcpRun(rs).at == i) <==>
      (i < |rs| && rs[i] == IpLeased && IpLeased !in rs[..i] && Failures(rs[..i]) <= DHCP_RETRY_COUNT)
  {
    DhcpRunMeetsSpec(rs);
    if i < |rs| && rs[i] == IpLeased && IpLeased !in rs[..i] && Failures(rs[..i]) <= DHCP_RETRY_COUNT {
      DhcpOutcomeUnique(rs, DhcpRun(rs), Leased(i, Failures(rs[..i])));
    }
  }

  /** 1, 2, ..., n */
  function UpTo(n: nat): (s: seq<nat>)
    ensures |s| == n && forall k :: 0 <= k < n ==> s[k] == k + 1
  {
    if n == 0 then [] else UpTo(n - 1) + [n]
  }

  /** The `retry` lines printed before the loop ends: one per failure, at most five. */
  function RetryLog(o: DhcpOutcome): seq<nat> {
    UpTo(if o.retries <= DHCP_RETRY_COUNT then o.retries else DHCP_RETRY_COUNT)
  }

  /**
   * The lease loop itself. Returns how it ended, the final
   * `g_dhcp_get_ip_flag`, and the retry numbers it printed.
   */
  method LeaseDhcp(rs: seq<DhcpStatus>) returns (outcome: DhcpOutcome, ipFlag: bool, retryLog: seq<nat>)
    ensures outcome == DhcpRun(rs)
    ensures ipFlag <==> outcome.Leased?
    ensures retryLog == RetryLog(outcome)
    ensures forall k :: 0 <= k < |retryLog| ==> 1 <= retryLog[k] <= DHCP_RETRY_COUNT
  {
    var dhcpRetry: nat := 0;
    ipFlag := false;
    retryLog := [];
    var i := 0;
    while true
      invariant 0 <= i <= |rs|
      invariant dhcpRetry <= DHCP_RETRY_COUNT && !ipFlag
      invariant DhcpRun(rs) == DhcpFrom(rs, i, dhcpRetry, ipFlag)
      invariant retryLog == UpTo(dhcpRetry)
      decreases |rs| - i
    {
      if i == |rs| {
        outcome := Waiting(dhcpRetry);
        return;
      }
      var retval := rs[i];
      if retval == IpLeased {
        if !ipFlag {
          ipFlag := true;
          outcome := Leased(i, dhcpRetry);
          return;
        }
      } else if retval == Failed {
        ipFlag := false;
        dhcpRetry := dhcpRetry + 1;
        if dhcpRetry <= DHCP_RETRY_COUNT {
          retryLog := retryLog + [dhcpRetry];
        }
      }
      if dhcpRetry > DHCP_RETRY_COUNT {
        outcome := Halted(i, dhcpRetry);
        return;
      }
      i := i + 1;
    }
  }
}
