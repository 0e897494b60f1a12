/**
 * The bring-up sequence of `main`: DHCP lease, one DNS lookup, SNTP time,
 * then the signed HTTP request. Every failure spins forever, which is the
 * outcome `HaltedIn`; a loop that is still running when its given results
 * run out is `WaitingIn`. The results of the network libraries are inputs.
 */
module Firmware {
  import opened Bytes
  import opened Signer
  import opened Dhcp
  import opened Sntp
  import opened Http

  datatype Phase = DhcpPhase | DnsPhase | SntpPhase | HttpPhase

  /** The order in which `main` starts the phases. */
  const PHASE_ORDER: seq<Phase> := [DhcpPhase, DnsPhase, SntpPhase, HttpPhase]

  /**
   * `HaltedIn`: the spin after a failure in that phase. `WaitingIn`: that
   * phase's loop is still polling. `ResponseDrained`: the HTTP loop broke
   * out after asking `httpc_recv` for `len` bytes; the firmware then idles.
   */
  datatype RunOutcome = HaltedIn(phase: Phase) | WaitingIn(phase: Phase) | ResponseDrained(len: nat)

  /**
   * What the libraries return to `main`: the `DHCP_run` results, the
   * `DNS_run` result, the `millis()` reading that starts the SNTP loop, the
   * SNTP polls, the width of `time_t`, the HTTP client's observations, the
   * credentials, the NTP-era seconds `changedatetime_to_seconds` returns when
   * the header set is built, and the SHA-512 function.
   */
  datatype Inputs = Inputs(
    dhcp: seq<DhcpStatus>,
    dnsResult: int,
    sntpStartMs: nat,
    sntp: seq<SntpPoll>,
    timeWidth: TimeT,
    http: seq<HttpObs>,
    creds: Credentials,
    ntpAtSend: uint64,
    sha512: seq<byte> -> seq<byte>)

  /** The phases `main` started, in order, and how the run ended. */
  datatype Report = Report(started: seq<Phase>, outcome: RunOutcome)

  function RunSpec(inp: Inputs): Report {
    var d := DhcpRun(inp.dhcp);
    if d.Halted? then Report(PHASE_ORDER[..1], HaltedIn(DhcpPhase))
    else if d.Waiting? then Report(PHASE_ORDER[..1], WaitingIn(DhcpPhase))
    else if inp.dnsResult <= 0 then Report(PHASE_ORDER[..2], HaltedIn(DnsPhase))
    else
      match SntpRun(inp.sntp, inp.sntpStartMs, inp.timeWidth)
      case Failed(_, _) => Report(PHASE_ORDER[..3], HaltedIn(SntpPhase))
      case Polling => Report(PHASE_ORDER[..3], WaitingIn(SntpPhase))
      case Synced(_) =>
        var h := RequestHeader(inp.creds, inp.ntpAtSend, inp.sha512);
        var t := HttpRun(inp.http, h);
        HttpExitsAfterSend(inp.http, h);
        if t.exited then Report(PHASE_ORDER, ResponseDrained(t.steps[|t.steps| - 1].drained))
        else Report(PHASE_ORDER, WaitingIn(HttpPhase))
  }

  /**
   * The phases start in the fixed order and each at most once; the run ends
   * in the last phase started, so no phase starts after an earlier one
   * halted; a response is drained only when all four phases ran.
   */
  predicate PhasesInOrder(r: Report) {
    && 1 <= |r.started| <= |PHASE_ORDER|
    && r.started == PHASE_ORDER[..|r.started|]
    && (!r.outcome.ResponseDrained? ==> r.outcome.phase == r.started[|r.started| - 1])
    && (r.outcome.ResponseDrained? ==> r.started == PHASE_ORDER)
  }

  /**
   * DNS is attempted exactly when DHCP leased, and once; SNTP starts exactly
   * when the lookup returned a positive result; HTTP starts exactly when
   * SNTP returned 1.
   */
  lemma PhaseGates(inp: Inputs)
    ensures var r := RunSpec(inp);
      (DnsPhase in r.started <==> DhcpRun(inp.dhcp).Leased?)
      && multiset(r.started)[DnsPhase] <= 1
    ensures var r := RunSpec(inp);
      SntpPhase in r.started <==> DhcpRun(inp.dhcp).Leased? && inp.dnsResult > 0
    ensures var r := RunSpec(inp);
      HttpPhase in r.started <==>
        DhcpRun(inp.dhcp).Leased? && inp.dnsResult > 0
        && SntpRun(inp.sntp, inp.sntpStartMs, inp.timeWidth).Synced?
    ensures var r := RunSpec(inp);
      r.outcome == HaltedIn(DhcpPhase) <==> DhcpRun(inp.dhcp).Halted?
  {
    var r := RunSpec(inp);
    assert PHASE_ORDER[..1] == [DhcpPhase];
    assert PHASE_ORDER[..2] == [DhcpPhase, DnsPhase];
    assert PHASE_ORDER[..3] == [DhcpPhase, DnsPhase, SntpPhase];
  }

  /**
   * A drained response means the signed header set went out exactly once,
   * in the first connected iteration, and the count drained is the count
   * the client reported.
   */
  lemma DrainedAfterSingleSend(inp: Inputs)
    requires RunSpec(inp).outcome.ResponseDrained?
    ensures var h := RequestHeader(inp.creds, inp.ntpAtSend, inp.sha512);
      var t := HttpRun(inp.http, h);
      && t.exited && 0 < |t.steps| <= |inp.http|
      && RunSpec(inp).outcome.len == inp.http[|t.steps| - 1].received > 0
      && (exists k :: 0 <= k < |t.steps| && t.steps[k].sent == Some(h))
      && (forall k1, k2 ::
            (0 <= k1 < |t.steps| && 0 <= k2 < |t.steps| && t.steps[k1].sent.Some? && t.steps[k2].sent.Some?)
            ==> k1 == k2)
  {
    var h := RequestHeader(inp.creds, inp.ntpAtSend, inp.sha512);
    HttpExitsAfterSend(inp.http, h);
    HttpSendsAtMostOnce(inp.http, h);
  }

  /**
   * `main` from the DHCP loop to the end of the HTTP loop: each phase runs
   * only if the one before it succeeded.
   */
  method RunFirmware(inp: Inputs) returns (report: Report)
    requires NoNul(inp.creds.appId) && NoNul(inp.creds.appSecret)
    requires IsDigestFunction(inp.sha512)
    requires PreimageFits(inp.creds, TimestampText(inp.ntpAtSend))
    ensures report == RunSpec(inp)
    ensures PhasesInOrder(report)
  {
    var dhcp, ipFlag, retryLog := LeaseDhcp(inp.dhcp);
    if dhcp.Halted? {
      // DHCP_stop, then spin
      return Report([DhcpPhase], HaltedIn(DhcpPhase));
    } else if dhcp.Waiting? {
      return Report([DhcpPhase], WaitingIn(DhcpPhase));
    }
    if inp.dnsResult <= 0 {
      return Report([DhcpPhase, DnsPhase], HaltedIn(DnsPhase));
    }
    var sntp, retval := SyncTime(inp.sntp, inp.sntpStartMs, inp.timeWidth);
    if sntp.Failed? {
      return Report([DhcpPhase, DnsPhase, SntpPhase], HaltedIn(SntpPhase));
    } else if sntp.Polling? {
      return Report([DhcpPhase, DnsPhase, SntpPhase], WaitingIn(SntpPhase));
    }
    var trace := PollHttp(inp.http, inp.creds, inp.ntpAtSend, inp.sha512);
    HttpExitsAfterSend(inp.http, RequestHeader(inp.creds, inp.ntpAtSend, inp.sha512));
    if trace.exited {
      report := Report(PHASE_ORDER, ResponseDrained(trace.steps[|trace.steps| - 1].drained));
    } else {
      report := Report(PHASE_ORDER, WaitingIn(HttpPhase));
    }
  }
}
