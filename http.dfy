/**
 * The HTTP loop of `main`. Each iteration runs the client's connection
 * handler and then reads three values it maintains: whether the socket is
 * open (then `httpc_connect` is called), whether it is connected, and how
 * many bytes were received. In the first connected iteration the signed
 * header set is built and sent; the `send_success` latch keeps it from
 * being sent again. The loop ends in the first connected iteration that
 * sees received bytes, after draining exactly that many.
 */
module Http {
  import opened Bytes
  import opened Signer

  /** What an iteration observes: `httpc_isSockOpen`, `httpc_isConnected`, `httpc_isReceived`. */
  datatype HttpObs = HttpObs(sockOpen: bool, connected: bool, received: nat)

  /** The three custom header fields `appId`, `timeStamp` and `sign`. */
  datatype Header = Header(appId: seq<byte>, timeStamp: seq<byte>, sign: seq<byte>)

  datatype Option<T> = None | Some(value: T)

  /**
   * What one iteration did: whether it called `httpc_connect`, the header
   * set it sent (if any), and how many bytes it asked `httpc_recv` for
   * (0 when it did not drain).
   */
  datatype Iteration = Iteration(connect: bool, sent: Option<Header>, drained: nat)

  /** The iterations run, and whether the loop broke out. */
  datatype HttpTrace = HttpTrace(steps: seq<Iteration>, exited: bool)

  /** The header set the send branch builds for the SNTP time `ntp`. */
  function RequestHeader(c: Credentials, ntp: uint64, sha512: seq<byte> -> seq<byte>): Header {
    var timeStamp := TimestampText(ntp);
    Header(c.appId, timeStamp, Signature(c, timeStamp, sha512))
  }

  /** The iteration on which the loop breaks out. */
  predicate ExitsAt(obs: seq<HttpObs>, j: nat)
    requires j < |obs|
  {
    obs[j].connected && obs[j].received > 0
  }

  /** `j` is the first connected iteration from `i` on. */
  predicate FirstConnected(obs: seq<HttpObs>, i: nat, j: nat)
    requires i <= j < |obs|
  {
    obs[j].connected && forall m :: i <= m < j ==> !obs[m].connected
  }

  /** The loop from iteration `i` on, with the latch `send_success == sent`. */
  function HttpFrom(obs: seq<HttpObs>, i: nat, sent: bool, h: Header): HttpTrace
    requires i <= |obs|
    decreases |obs| - i
  {
    if i == |obs| then HttpTrace([], false)
    else
      var o := obs[i];
      var send := o.connected && !sent;
      var step := Iteration(o.sockOpen, if send then Some(h) else None,
                            if ExitsAt(obs, i) then o.received else 0);
      if ExitsAt(obs, i) then HttpTrace([step], true)
      else
        var rest := HttpFrom(obs, i + 1, sent || send, h);
        HttpTrace([step] + rest.steps, rest.exited)
  }

  /** The whole loop, latch initially clear. */
  function HttpRun(obs: seq<HttpObs>, h: Header): HttpTrace {
    HttpFrom(obs, 0, false, h)
  }

  function Append(steps: seq<Iteration>, t: HttpTrace): HttpTrace {
    HttpTrace(steps + t.steps, t.exited)
  }

  /** One iteration of the loop, as `HttpFrom` unfolds it. */
  function StepAt(obs: seq<HttpObs>, i: nat, sent: bool, h: Header): Iteration
    requires i < |obs|
  {
    Iteration(obs[i].sockOpen, if obs[i].connected && !sent then Some(h) else None,
              if ExitsAt(obs, i) then obs[i].received else 0)
  }

  lemma HttpFromStep(obs: seq<HttpObs>, i: nat, sent: bool, h: Header, steps: seq<Iteration>)
    requires i < |obs|
    ensures ExitsAt(obs, i) ==>
      Append(steps, HttpFrom(obs, i, sent, h)) == HttpTrace(steps + [StepAt(obs, i, sent, h)], true)
    ensures !ExitsAt(obs, i) ==>
      Append(steps, HttpFrom(obs, i, sent, h))
        == Append(steps + [StepAt(obs, i, sent, h)], HttpFrom(obs, i + 1, sent || obs[i].connected, h))
  {
    var rest := HttpFrom(obs, i + 1, sent || obs[i].connected, h);
    assert steps + ([StepAt(obs, i, sent, h)] + rest.steps) == steps + [StepAt(obs, i, sent, h)] + rest.steps;
  }

  lemma {:induction false} HttpFromShape(obs: seq<HttpObs>, i: nat, sent: bool, h: Header)
    requires i <= |obs|
    ensures var t := HttpFrom(obs, i, sent, h);
      && i + |t.steps| <= |obs|
      && (t.exited <==> exists j :: i <= j < |obs| && ExitsAt(obs, j))
      && (!t.exited ==> i + |t.steps| == |obs|)
      && (t.exited ==> |t.steps| > 0 && ExitsAt(obs, i + |t.steps| - 1))
      && (forall j :: i <= j < i + |t.steps| - 1 ==> !ExitsAt(obs, j))
      && (forall k :: 0 <= k < |t.steps| ==>
            && t.steps[k].connect == obs[i + k].sockOpen
            && t.steps[k].drained == (if ExitsAt(obs, i + k) then obs[i + k].received else 0)
            && t.steps[k].sent == (if !sent && FirstConnected(obs, i, i + k) then Some(h) else None))
    decreases |obs| - i
  {
    if i < |obs| && !ExitsAt(obs, i) {
      var o := obs[i];
      var sent' := sent || (o.connected && !sent);
      HttpFromShape(obs, i + 1, sent', h);
      var rest := HttpFrom(obs, i + 1, sent', h);
      var t := HttpFrom(obs, i, sent, h);
      assert t.steps[1..] == rest.steps;
      forall k | 1 <= k < |t.steps|
        ensures t.steps[k].sent == (if !sent && FirstConnected(obs, i, i + k) then Some(h) else None)
      {
        assert t.steps[k] == rest.steps[k - 1];
        if o.connected {
          assert !FirstConnected(obs, i, i + k);
        } else {
          assert FirstConnected(obs, i, i + k) <==> FirstConnected(obs, i + 1, i + k);
        }
      }
    }
  }

  /**
   * The signed header set goes out at most once per run, only in an
   * iteration where the connection is reported connected (the first one),
   * and it carries the header built from the credentials and time.
   */
  lemma HttpSendsAtMostOnce(obs: seq<HttpObs>, h: Header)
    ensures |HttpRun(obs, h).steps| <= |obs|
    ensures var t := HttpRun(obs, h);
      forall k1, k2 ::
        (0 <= k1 < |t.steps| && 0 <= k2 < |t.steps| && t.steps[k1].sent.Some? && t.steps[k2].sent.Some?)
        ==> k1 == k2
    ensures var t := HttpRun(obs, h);
      forall k :: 0 <= k < |t.steps| && t.steps[k].sent.Some? ==>
        obs[k].connected && t.steps[k].sent == Some(h)
  {
    HttpFromShape(obs, 0, false, h);
  }

  /**
   * The loop exits exactly when some iteration is connected with bytes
   * received, at the first such iteration; by then the request has been
   * sent, and exactly the received count is drained, in that iteration only.
   */
  lemma HttpExitsAfterSend(obs: seq<HttpObs>, h: Header)
    ensures var t := HttpRun(obs, h);
      t.exited <==> exists j :: 0 <= j < |obs| && ExitsAt(obs, j)
    ensures var t := HttpRun(obs, h);
      t.exited ==>
        var last := |t.steps| - 1;
        && 0 <= last < |obs| && ExitsAt(obs, last)
        && (forall j :: 0 <= j < last ==> !ExitsAt(obs, j))
        && t.steps[last].drained == obs[last].received
        && (forall k :: 0 <= k < last ==> t.steps[k].drained == 0)
        && (exists k :: 0 <= k <= last && t.steps[k].sent == Some(h))
    ensures var t := HttpRun(obs, h);
      !t.exited ==> |t.steps| == |obs|
  {
    HttpFromShape(obs, 0, false, h);
    var t := HttpRun(obs, h);
    if t.exited {
      var last := |t.steps| - 1;
      var k := FirstConnectedUpTo(obs, last);
      assert t.steps[k].sent == Some(h);
    }
  }

  /** The first connected iteration up to a connected iteration `j`. */
  lemma {:induction false} FirstConnectedUpTo(obs: seq<HttpObs>, j: nat) returns (k: nat)
    requires j < |obs| && obs[j].connected
    ensures k <= j && FirstConnected(obs, 0, k)
    decreases j
  {
    if exists m :: 0 <= m < j && obs[m].connected {
      var m :| 0 <= m < j && obs[m].connected;
      k := FirstConnectedUpTo(obs, m);
    } else {
      k := j;
    }
  }

  /**
   * The loop itself: connect when the socket is open; once connected, sign
   * and send the header set if the latch is clear, then set it; drain and
   * break when bytes were received. `ntp` is what the SNTP library's
   * `changedatetime_to_seconds` returns when the header set is built.
   */
  method PollHttp(obs: seq<HttpObs>, c: Credentials, ntp: uint64, sha512: seq<byte> -> seq<byte>)
    returns (trace: HttpTrace)
    requires NoNul(c.appId) && NoNul(c.appSecret)
    requires IsDigestFunction(sha512)
    requires PreimageFits(c, TimestampText(ntp))
    ensures trace == HttpRun(obs, RequestHeader(c, ntp, sha512))
  {
    ghost var h := RequestHeader(c, ntp, sha512);
    var sendSuccess := false;
    var steps: seq<Iteration> := [];
    var i := 0;
    while i < |obs|
      invariant 0 <= i <= |obs|
      invariant HttpRun(obs, h) == Append(steps, HttpFrom(obs, i, sendSuccess, h))
    {
      HttpFromStep(obs, i, sendSuccess, h, steps);
      var o := obs[i];
      var sent: Option<Header> := None;
      if o.connected {
        if !sendSuccess {
          var timeStamp, sign := SignRequest(c, ntp, sha512);
          sent := Some(Header(c.appId, timeStamp, sign));
          assert sent == Some(h);
          sendSuccess := true;
        }
        if o.received > 0 {
          steps := steps + [Iteration(o.sockOpen, sent, o.received)];
          trace := HttpTrace(steps, true);
          return;
        }
      }
      steps := steps + [Iteration(o.sockOpen, sent, 0)];
      i := i + 1;
    }
    trace := HttpTrace(steps, false);
  }
}
