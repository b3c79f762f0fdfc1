/** The nine-step AT configuration flow of `LTE4G_Client`:
    `executeConfigStep` sends a step's command and collects the reply,
    `processResponse` judges it and either moves on, retries the step,
    restarts the flow (`restartConfigFlow`) or gives up. The source runs
    these as mutually tail-calling procedures; here one round is `Respond`
    after `SendCommand`, and `Run` repeats rounds until the flow stops. */
module Lte4gConfig {
  import opened Bytes
  import MT = ModemText
  import opened WsFrame
  import opened Lte4gState

  /** What one read window collects: the next reply chunk, or nothing. */
  function NextChunk(rx: seq<Bytes>): Bytes
  {
    if rx == [] then [] else rx[0]
  }

  /** The chunks left after one read window. */
  function Later(rx: seq<Bytes>): (r: seq<Bytes>)
    ensures |r| == if rx == [] then 0 else |rx| - 1
  {
    if rx == [] then [] else rx[1..]
  }

  /** The first half of `executeConfigStep` for a step still to run: write
      the step's command with `println`, then collect the 2-second read
      window into `_modemResponse`. */
  function SendCommand(s: State): (r: State)
    requires s.step != MT.Completed
    ensures r.tx == s.tx + MT.Command(s.step, s.serverIP, s.serverPort) + MT.Crlf
    ensures r.modemResponse == NextChunk(s.rx) && r.rx == Later(s.rx)
    ensures r.(tx := s.tx, modemResponse := s.modemResponse, rx := s.rx) == s
  {
    s.(tx := s.tx + MT.Command(s.step, s.serverIP, s.serverPort) + MT.Crlf,
       modemResponse := NextChunk(s.rx), rx := Later(s.rx))
  }

  /** `waitForConnect` after its first check: read chunks, accumulating
      them, until the text so far reports the connection (true), reports
      "CONNECT FAIL" or "ERROR" (false), or nothing more arrives within the
      window (the final check, then false). Returns the verdict and the
      chunks not read. */
  function WaitConnect(response: Bytes, rx: seq<Bytes>): (r: (bool, seq<Bytes>))
    ensures |r.1| <= |rx| && r.1 == rx[|rx| - |r.1|..]
    decreases |rx|
  {
    if rx == [] then (MT.Established(response), [])
    else
      var text := response + rx[0];
      if MT.Established(text) then (true, rx[1..])
      else if Contains(text, MT.ConnectFail) || Contains(text, MT.Error) then (false, rx[1..])
      else WaitConnect(text, rx[1..])
  }

  /** The `waitForConnect` verdict is true exactly when the chunks it read
      (all of them, or up to the deciding one) report the connection; when
      it is false, either every chunk was read or the text read reports a
      failure. */
  lemma {:induction false} WaitConnectSpec(response: Bytes, rx: seq<Bytes>)
    requires !MT.Established(response)
    ensures var (ok, rest) := WaitConnect(response, rx);
      var text := response + Concat(rx[..|rx| - |rest|]);
      && (ok <==> MT.Established(text))
      && (!ok ==> rest == [] || Contains(text, MT.ConnectFail) || Contains(text, MT.Error))
    decreases |rx|
  {
    if rx != [] {
      var text := response + rx[0];
      var (ok, rest) := WaitConnect(response, rx);
      var k := |rx| - |rest|;
      if MT.Established(text) || Contains(text, MT.ConnectFail) || Contains(text, MT.Error) {
        ConcatFirst(rx);
      } else {
        WaitConnectSpec(text, rx[1..]);
        ConcatStep(rx, k);
        assert response + Concat(rx[..k]) == text + Concat(rx[1..][..k - 1]);
      }
    } else {
      assert response + Concat(rx[..0]) == response;
    }
  }

  lemma ConcatFirst(rx: seq<Bytes>)
    requires |rx| > 0
    ensures Concat(rx[..1]) == rx[0]
  {
    assert rx[..1] == [rx[0]];
    assert Concat([rx[0]]) == rx[0] + Concat([]);
  }

  lemma ConcatStep(rx: seq<Bytes>, k: nat)
    requires 0 < k <= |rx|
    ensures Concat(rx[..k]) == rx[0] + Concat(rx[1..][..k - 1])
  {
    assert rx[..k][1..] == rx[1..][..k - 1];
  }

  /** Two states agree on what the flow never touches: the callbacks'
      observations, the mode and the server settings. */
  predicate SameSetup(a: State, b: State)
  {
    a.statusLog == b.statusLog && a.delivered == b.delivered && a.wsMode == b.wsMode
    && a.serverIP == b.serverIP && a.serverPort == b.serverPort
  }

  /** Termination measure of the flow: global restarts left, then steps
      left, then retries of the current step left. */
  function Measure(s: State): nat
  {
    var g := if s.globalRetry < 3 then 3 - s.globalRetry else 0;
    var r := if s.stepRetry < 3 then 3 - s.stepRetry else 0;
    g * 40 + (9 - MT.Index(s.step)) * 4 + r
  }

  /** Starts the WebSocket handshake when WebSocket mode is on and no
      handshake has completed, as every "TCP connected" branch does. */
  function MaybeHandshake(s: State, key: Bytes): (r: State)
    ensures SameSetup(r, s) && r.connected == s.connected && r.configured == s.configured
    ensures r.step == s.step && r.status == s.status
  {
    if s.wsMode && !s.hsComplete then StartHandshake(s, key) else s
  }

  /** The TCP step of `processResponse` (and `waitForConnect`): "OK" is
      needed; then either the reply itself reports the connection, or the
      following chunks must. When `waitForConnect` confirms the connection
      and a handshake is due, the serial input is drained before the
      handshake starts. Returns the state and the step's success. */
  function ConnectOutcome(s: State, key: Bytes): (r: (State, bool))
    ensures r.0.step == s.step && r.0.stepRetry == s.stepRetry && r.0.globalRetry == s.globalRetry
    ensures SameSetup(r.0, s)
  {
    var reply := s.modemResponse;
    if !Contains(reply, MT.Ok) then (s, false)
    else if MT.Established(reply) then (MaybeHandshake(s.(connected := true), key), true)
    else
      var (ok, rest) := WaitConnect([], s.rx);
      var unread := if s.wsMode && !s.hsComplete then [] else rest;
      if ok then (MaybeHandshake(s.(connected := true, modemResponse := [], rx := unread), key), true)
      else (s.(connected := false, rx := rest), false)
  }

  /** A connection confirmed by `waitForConnect` with a handshake due
      leaves no modem text behind: the collected reply is cleared and
      every unread chunk is drained, so whatever is read next answers the
      handshake. Without a handshake due, the chunks after the
      confirmation stay unread. */
  lemma ConnectDrains(s: State, key: Bytes)
    requires Contains(s.modemResponse, MT.Ok) && !MT.Established(s.modemResponse)
    ensures var (r, ok) := ConnectOutcome(s, key);
      ok && s.wsMode && !s.hsComplete ==> r.rx == [] && r.modemResponse == [] && r.connected
    ensures var (r, ok) := ConnectOutcome(s, key);
      ok && !(s.wsMode && !s.hsComplete) ==> r.modemResponse == [] && |r.rx| < |s.rx| && r.rx == s.rx[|s.rx| - |r.rx|..]
  {
    WaitConnectSpec([], s.rx);
  }

  /** The TCP step succeeds exactly when the reply has "OK" and the
      connection is reported, in the reply itself or in what
      `waitForConnect` reads after it (`WaitConnectSpec`). */
  lemma ConnectVerdict(s: State, key: Bytes)
    ensures ConnectOutcome(s, key).1 <==>
      Contains(s.modemResponse, MT.Ok) && (MT.Established(s.modemResponse) || WaitConnect([], s.rx).0)
  {
  }

  /** Success at the TCP step always comes with `_isConnected` set, so the
      "connected flag still false, retry the step" branch after a TCP
      success cannot run; `Succeed` leaves it out. */
  lemma ConnectSuccessConnects(s: State, key: Bytes)
    ensures ConnectOutcome(s, key).1 ==> ConnectOutcome(s, key).0.connected
  {
  }

  /** `restartConfigFlow` before it executes the first step again. */
  function Restart(s: State): (r: State)
    ensures r.step == MT.AtTest && r.stepRetry == 0 && r.globalRetry == s.globalRetry
    ensures !r.connected && !r.configured && !r.wsConnected && !r.hsComplete
    ensures r.tx == s.tx && r.rx == s.rx && r.status == s.status
  {
    s.(step := MT.AtTest, stepRetry := 0, connected := false, configured := false,
       wsConnected := false, hsComplete := false)
  }

  /** The success half of `processResponse`: reset the step's retry count;
      after the TCP step the flow is complete, otherwise the next step runs. */
  function Succeed(s: State): (r: (State, bool))
    requires s.step != MT.Completed
    ensures r.0.stepRetry == 0 && SameSetup(r.0, s) && r.0.tx == s.tx && r.0.rx == s.rx
    ensures r.1 ==> Measure(r.0) < Measure(s)
  {
    if s.step == MT.ConnectTcp then
      (s.(stepRetry := 0, step := MT.Completed, configured := true, globalRetry := 0), false)
    else (s.(stepRetry := 0, step := MT.Next(s.step)), true)
  }

  /** The failure half of `processResponse`: count the failure; the third
      one restarts the flow, or gives up with ERROR once three restarts
      have been counted; before that the step is retried. */
  function Fail(s: State): (r: (State, bool))
    ensures SameSetup(r.0, s) && r.0.tx == s.tx && r.0.rx == s.rx
    ensures r.1 ==> Measure(r.0) < Measure(s)
  {
    var retry := s.stepRetry + 1;
    if retry >= 3 then
      var global := s.globalRetry + 1;
      if global >= 3 then (s.(stepRetry := retry, globalRetry := global, status := Error), false)
      else (Restart(s.(stepRetry := retry, globalRetry := global)), true)
    else (s.(stepRetry := retry), true)
  }

  /** The first half of `processResponse`: trim the collected reply and
      judge it, by the connection outcome at the TCP step and by the step's
      test elsewhere; only the reply and the connection state can change. */
  function Judge(s: State, key: Bytes): (r: (State, bool))
    requires s.step != MT.Completed
    ensures r.0.step == s.step && r.0.stepRetry == s.stepRetry && r.0.globalRetry == s.globalRetry
    ensures SameSetup(r.0, s)
    ensures s.step != MT.ConnectTcp ==> r.0 == s.(modemResponse := Trim(s.modemResponse))
    ensures s.step != MT.ConnectTcp ==> (r.1 <==> MT.Accepts(s.step, Trim(s.modemResponse)))
  {
    var t := s.(modemResponse := Trim(s.modemResponse));
    if s.step == MT.ConnectTcp then ConnectOutcome(t, key)
    else (t, MT.Accepts(s.step, t.modemResponse))
  }

  /** `processResponse` on the collected reply: trim it, judge it by the
      current step's test, and succeed or fail. The second component says whether `executeConfigStep` runs
      again; when it does, the measure has decreased, so the flow always
      stops. */
  function Respond(s: State, key: Bytes): (r: (State, bool))
    requires s.step != MT.Completed
    ensures SameSetup(r.0, s)
    ensures r.1 ==> Measure(r.0) < Measure(s)
  {
    var t := s.(modemResponse := Trim(s.modemResponse));
    if s.step == MT.ConnectTcp then
      var (u, ok) := ConnectOutcome(t, key);
      if ok then Succeed(u) else Fail(u)
    else if MT.Accepts(s.step, t.modemResponse) then Succeed(t)
    else Fail(t)
  }

  /** `processResponse` in the source's two halves: judge, then succeed or
      fail on the judged state. */
  lemma RespondJudged(s: State, key: Bytes)
    requires s.step != MT.Completed
    ensures Respond(s, key) == if Judge(s, key).1 then Succeed(Judge(s, key).0) else Fail(Judge(s, key).0)
  {
  }

  /** The connection outcome changes the reply, the read queue, the link
      and handshake state and the bytes sent, and nothing else. */
  lemma ConnectFrame(s: State, key: Bytes)
    ensures var r := ConnectOutcome(s, key).0;
      r == s.(connected := r.connected, modemResponse := r.modemResponse, rx := r.rx,
              wsKey := r.wsKey, tx := r.tx, hsComplete := r.hsComplete, wsBuffer := r.wsBuffer)
  {
  }

  /** Judging changes the reply, the read queue, the link and handshake
      state and the bytes sent, and nothing else. */
  lemma JudgeFrame(s: State, key: Bytes)
    requires s.step != MT.Completed
    ensures var r := Judge(s, key).0;
      r == s.(connected := r.connected, modemResponse := r.modemResponse, rx := r.rx,
              wsKey := r.wsKey, tx := r.tx, hsComplete := r.hsComplete, wsBuffer := r.wsBuffer)
  {
    ConnectFrame(s.(modemResponse := Trim(s.modemResponse)), key);
  }

  /** Success changes the step, its counters and the configured flag only. */
  lemma SucceedFrame(s: State)
    requires s.step != MT.Completed
    ensures var r := Succeed(s).0;
      r == s.(stepRetry := r.stepRetry, step := r.step, configured := r.configured,
              globalRetry := r.globalRetry)
  {
  }

  /** Failure changes the step, its counters, the status and the four
      connection flags only. */
  lemma FailFrame(s: State)
    ensures var r := Fail(s).0;
      r == s.(step := r.step, stepRetry := r.stepRetry, globalRetry := r.globalRetry,
              status := r.status, connected := r.connected, configured := r.configured,
              wsConnected := r.wsConnected, hsComplete := r.hsComplete)
  {
  }

  /** `executeConfigStep`, with every round it leads to: at COMPLETED it
      only marks the client configured. */
  function Run(s: State, key: Bytes): State
    decreases Measure(s)
  {
    if s.step == MT.Completed then s.(configured := true)
    else
      var (t, more) := Respond(SendCommand(s), key);
      if more then Run(t, key) else t
  }

  /** `restartConfigFlow`. */
  function RestartConfigFlow(s: State, key: Bytes): State
  {
    Run(Restart(s), key)
  }

  /** `configure` up to its wait loop: restart the counters at the first
      step, run the flow, then report CONNECTED or ERROR. */
  function Configure(s: State, key: Bytes): (r: (State, bool))
  {
    var t := Run(s.(step := MT.AtTest, stepRetry := 0, globalRetry := 0), key);
    var st := if t.configured then Connected else Error;
    (t.(status := st, statusLog := t.statusLog + [st]), t.configured)
  }

  /** `reconnect` up to its wait loop: disconnect, then run the flow from
      the TCP step; the result is `_isConnected`. */
  function Reconnect(s: State, key: Bytes): (r: (State, bool))
  {
    var t := Run(Disconnect(s).(step := MT.ConnectTcp, stepRetry := 0), key);
    (t, t.connected)
  }

  /** The global count at which a failed pass leaves the flow in ERROR:
      3 when restarts are left, one more than the count otherwise. */
  function FinalGlobal(g: nat): nat
  {
    if g < 3 then 3 else g + 1
  }

  /** `restartConfigFlow` ends either complete (configured and connected)
      or in ERROR with both flags clear, whatever the global count. */
  lemma RestartConfigFlowOutcome(s: State, key: Bytes)
    ensures var r := RestartConfigFlow(s, key);
      || (r.step == MT.Completed && r.configured && r.connected && r.globalRetry == 0)
      || (r.status == Error && r.stepRetry == 3 && r.globalRetry == FinalGlobal(s.globalRetry)
          && !r.configured && !r.connected)
  {
    if s.globalRetry < 3 {
      RunOutcome(Restart(s), key);
    } else {
      RunSpent(Restart(s), key);
    }
  }

  /** `reconnect` returns true exactly when the flow from the TCP step
      completes; otherwise it ends in ERROR, disconnected, whatever the
      global count. The DISCONNECTED report is the only status it adds. */
  lemma ReconnectOutcome(s: State, key: Bytes)
    ensures var (r, ok) := Reconnect(s, key);
      && (ok <==> r.step == MT.Completed)
      && (ok ==> r.configured && r.globalRetry == 0)
      && (!ok ==> r.status == Error && r.globalRetry == FinalGlobal(s.globalRetry) && !r.connected)
      && r.statusLog == s.statusLog + [Disconnected]
  {
    var t := Disconnect(s).(step := MT.ConnectTcp, stepRetry := 0);
    if s.globalRetry < 3 {
      RunOutcome(t, key);
    } else {
      RunSpent(t, key);
    }
    RunKeeps(t, key);
  }

  /** One round with both counters below 3 either continues with both still
      below 3 and a step left to run, or stops: complete (configured,
      connected, counters reset) or in ERROR after the third failure of the
      third pass. A round that continues never sets the connection or
      configuration flags, and one that passes a restart clears them. */
  lemma RespondOutcome(s: State, key: Bytes)
    requires s.step != MT.Completed && s.stepRetry < 3 && s.globalRetry < 3
    ensures var (t, more) := Respond(s, key);
      && (more ==> t.stepRetry < 3 && t.globalRetry < 3 && t.step != MT.Completed)
      && (more ==> (t.globalRetry == s.globalRetry && (t.configured ==> s.configured) && (t.connected ==> s.connected))
                   || (t.globalRetry == s.globalRetry + 1 && t.step == MT.AtTest && !t.configured && !t.connected))
      && (!more ==> (t.step == MT.Completed && t.configured && t.connected && t.stepRetry == 0 && t.globalRetry == 0)
                    || (t.status == Error && t.stepRetry == 3 && t.globalRetry == 3 && s.globalRetry == 2
                        && (t.configured ==> s.configured) && (t.connected ==> s.connected)))
  {
    var t := s.(modemResponse := Trim(s.modemResponse));
    if s.step == MT.ConnectTcp {
      var (u, ok) := ConnectOutcome(t, key);
      ConnectSuccessConnects(t, key);
      ConnectFailureKeepsFlags(t, key);
      if ok { SucceedOutcome(u); } else { FailOutcome(u); }
    } else if MT.Accepts(s.step, t.modemResponse) {
      SucceedOutcome(t);
    } else {
      FailOutcome(t);
    }
  }

  /** Success moves to the next step with the retry count reset, or, after
      the TCP step, completes the flow. */
  lemma SucceedOutcome(s: State)
    requires s.step != MT.Completed
    ensures var (t, more) := Succeed(s);
      && t.stepRetry == 0 && t.connected == s.connected && t.status == s.status
      && (more <==> s.step != MT.ConnectTcp)
      && (more ==> t.step == MT.Next(s.step) && t.step != MT.Completed
                   && t.globalRetry == s.globalRetry && t.configured == s.configured)
      && (!more ==> t.step == MT.Completed && t.configured && t.globalRetry == 0)
  {
  }

  /** A failure retries the step while fewer than three have been counted;
      the third restarts the flow with the global count increased, or,
      when that count reaches three, stops in ERROR. */
  lemma FailOutcome(s: State)
    requires s.stepRetry < 3 && s.globalRetry < 3
    ensures var (t, more) := Fail(s);
      && (s.stepRetry < 2 ==>
            more && t.stepRetry == s.stepRetry + 1 && t.step == s.step
            && t.globalRetry == s.globalRetry && t.configured == s.configured
            && t.connected == s.connected && t.status == s.status)
      && (s.stepRetry == 2 && s.globalRetry < 2 ==>
            more && t.stepRetry == 0 && t.step == MT.AtTest
            && t.globalRetry == s.globalRetry + 1 && !t.configured && !t.connected)
      && (s.stepRetry == 2 && s.globalRetry == 2 ==>
            !more && t.status == Error && t.stepRetry == 3 && t.globalRetry == 3
            && t.configured == s.configured && t.connected == s.connected)
  {
  }

  /** A failed TCP step leaves the flags as they were or clears the link. */
  lemma ConnectFailureKeepsFlags(s: State, key: Bytes)
    ensures !ConnectOutcome(s, key).1 ==>
      var t := ConnectOutcome(s, key).0;
      t.configured == s.configured && (t.connected ==> s.connected) && t.status == s.status
  {
  }

  /** The flow from any state with counters below 3 ends complete, or in
      ERROR with both counters at 3. Completion reached by running the TCP
      step leaves the client connected with the counters reset. Ending in
      ERROR after a restart (or from a state without the flag) leaves the
      client neither configured nor connected. */
  lemma {:induction false} RunOutcome(s: State, key: Bytes)
    requires s.stepRetry < 3 && s.globalRetry < 3
    ensures var r := Run(s, key);
      (r.step == MT.Completed && r.configured) || (r.status == Error && r.stepRetry == 3 && r.globalRetry == 3)
    ensures var r := Run(s, key);
      s.step != MT.Completed && r.step == MT.Completed ==> r.connected && r.stepRetry == 0 && r.globalRetry == 0
    ensures var r := Run(s, key);
      r.step != MT.Completed && (s.globalRetry < 2 || !s.connected) ==> !r.connected
    ensures var r := Run(s, key);
      r.step != MT.Completed && (s.globalRetry < 2 || !s.configured) ==> !r.configured
  {
    RunEnds(s, key);
    RunFlags(s, key);
  }

  /** The end-state half of `RunOutcome`, by induction on the rounds. */
  lemma {:induction false} RunEnds(s: State, key: Bytes)
    requires s.stepRetry < 3 && s.globalRetry < 3
    ensures var r := Run(s, key);
      (r.step == MT.Completed && r.configured) || (r.status == Error && r.stepRetry == 3 && r.globalRetry == 3)
    ensures var r := Run(s, key);
      s.step != MT.Completed && r.step == MT.Completed ==> r.connected && r.stepRetry == 0 && r.globalRetry == 0
    decreases Measure(s)
  {
    if s.step != MT.Completed {
      var c := SendCommand(s);
      RespondOutcome(c, key);
      var (t, more) := Respond(c, key);
      if more {
        RunStep(s, key);
        RunEnds(t, key);
      } else {
        RunStop(s, key);
      }
    }
  }

  /** A failure once the global count has reached 3 retries the step while
      fewer than three have been counted; the third stops in ERROR. */
  lemma FailSpent(s: State)
    requires s.stepRetry < 3 && s.globalRetry >= 3
    ensures var (t, more) := Fail(s);
      && (more <==> s.stepRetry < 2)
      && t.configured == s.configured && t.connected == s.connected
      && (more ==> t.stepRetry == s.stepRetry + 1 && t.step == s.step
                   && t.globalRetry == s.globalRetry && t.status == s.status)
      && (!more ==> t.status == Error && t.stepRetry == 3 && t.globalRetry == s.globalRetry + 1)
  {
  }

  /** One round once the global count has reached 3: it continues with the
      count unchanged and no flag newly set, or stops complete or in ERROR
      after the step's third failure. */
  lemma RespondSpent(s: State, key: Bytes)
    requires s.step != MT.Completed && s.stepRetry < 3 && s.globalRetry >= 3
    ensures var (t, more) := Respond(s, key);
      && (more ==> t.stepRetry < 3 && t.step != MT.Completed && t.globalRetry == s.globalRetry
                   && (t.configured ==> s.configured) && (t.connected ==> s.connected))
      && (!more ==> (t.step == MT.Completed && t.configured && t.connected && t.stepRetry == 0 && t.globalRetry == 0)
                    || (t.status == Error && t.stepRetry == 3 && t.globalRetry == s.globalRetry + 1
                        && (t.configured ==> s.configured) && (t.connected ==> s.connected)))
  {
    var t := s.(modemResponse := Trim(s.modemResponse));
    if s.step == MT.ConnectTcp {
      var (u, ok) := ConnectOutcome(t, key);
      ConnectSuccessConnects(t, key);
      ConnectFailureKeepsFlags(t, key);
      if ok { SucceedOutcome(u); } else { FailSpent(u); }
    } else if MT.Accepts(s.step, t.modemResponse) {
      SucceedOutcome(t);
    } else {
      FailSpent(t);
    }
  }

  /** The flow once the global count has reached 3 (a `reconnect` or
      restart after a failed configuration) has no restart left: it ends
      complete, or in ERROR after one step fails three times, without
      setting either flag on the way. */
  lemma {:induction false} RunSpent(s: State, key: Bytes)
    requires s.stepRetry < 3 && s.globalRetry >= 3
    ensures var r := Run(s, key);
      (r.step == MT.Completed && r.configured)
      || (r.status == Error && r.stepRetry == 3 && r.globalRetry == s.globalRetry + 1)
    ensures var r := Run(s, key);
      s.step != MT.Completed && r.step == MT.Completed ==> r.connected && r.stepRetry == 0 && r.globalRetry == 0
    ensures var r := Run(s, key);
      r.step != MT.Completed ==> (r.connected ==> s.connected) && (r.configured ==> s.configured)
    decreases Measure(s)
  {
    if s.step != MT.Completed {
      var c := SendCommand(s);
      RespondSpent(c, key);
      var (t, more) := Respond(c, key);
      if more {
        RunStep(s, key);
        RunSpent(t, key);
      } else {
        RunStop(s, key);
      }
    }
  }

  /** The flag half of `RunOutcome`, by induction on the rounds. */
  lemma {:induction false} RunFlags(s: State, key: Bytes)
    requires s.stepRetry < 3 && s.globalRetry < 3
    ensures var r := Run(s, key);
      r.step != MT.Completed && (s.globalRetry < 2 || !s.connected) ==> !r.connected
    ensures var r := Run(s, key);
      r.step != MT.Completed && (s.globalRetry < 2 || !s.configured) ==> !r.configured
    decreases Measure(s)
  {
    if s.step != MT.Completed {
      var c := SendCommand(s);
      RespondOutcome(c, key);
      var (t, more) := Respond(c, key);
      if more {
        RunStep(s, key);
        RunFlags(t, key);
      } else {
        RunStop(s, key);
      }
    }
  }

  /** `configure` returns true exactly when the flow completed; the client
      is then connected with status CONNECTED. Otherwise the status is
      ERROR after the third failed pass, and the client is neither
      configured nor connected. Either way the status is reported once. */
  lemma ConfigureOutcome(s: State, key: Bytes)
    ensures var (r, ok) := Configure(s, key);
      && ok == r.configured
      && (ok ==> r.status == Connected && r.connected && r.step == MT.Completed && r.globalRetry == 0)
      && (!ok ==> r.status == Error && !r.connected && r.globalRetry == 3 && r.stepRetry == 3)
      && r.statusLog == s.statusLog + [r.status]
  {
    RunOutcome(s.(step := MT.AtTest, stepRetry := 0, globalRetry := 0), key);
    RunKeeps(s.(step := MT.AtTest, stepRetry := 0, globalRetry := 0), key);
  }

  /** The flow never reports a status through the callback, delivers no
      payload, and keeps the mode and server settings. */
  lemma {:induction false} RunKeeps(s: State, key: Bytes)
    ensures var r := Run(s, key);
      && r.statusLog == s.statusLog && r.delivered == s.delivered && r.wsMode == s.wsMode
      && r.serverIP == s.serverIP && r.serverPort == s.serverPort
    decreases Measure(s)
  {
    if s.step != MT.Completed {
      var (t, more) := Respond(SendCommand(s), key);
      if more {
        RunKeeps(t, key);
      }
    }
  }

  /** `n` copies of `b`, one after another. */
  function Repeat(b: Bytes, n: nat): Bytes
  {
    if n == 0 then [] else b + Repeat(b, n - 1)
  }

  /** "AT\r\n", the line the first step writes. */
  function AtLine(): Bytes
  {
    MT.Command(MT.AtTest, [], []) + MT.Crlf
  }

  /** No reply chunk contains "OK". */
  predicate NoOk(rx: seq<Bytes>)
  {
    forall i :: 0 <= i < |rx| ==> !Contains(rx[i], MT.Ok)
  }

  /** Attempts of the first step left before the flow gives up. */
  function Attempts(s: State): nat
    requires s.stepRetry < 3 && s.globalRetry < 3
  {
    (3 - s.stepRetry) + 3 * (2 - s.globalRetry)
  }

  /** A modem that never answers "OK" (or is silent) keeps the flow at the
      first step: every remaining attempt writes "AT\r\n" and nothing else,
      and the flow ends in ERROR. */
  lemma {:induction false} NoOkRun(s: State, key: Bytes)
    requires s.step == MT.AtTest && s.stepRetry < 3 && s.globalRetry < 3 && NoOk(s.rx)
    ensures var r := Run(s, key);
      r.status == Error && r.globalRetry == 3 && r.tx == s.tx + Repeat(AtLine(), Attempts(s))
    decreases Measure(s)
  {
    var t, more := NoOkAdvance(s, key);
    if more {
      NoOkRun(t, key);
      RepeatOnce(s.tx, AtLine(), Attempts(t), Attempts(s));
    } else {
      RepeatOne(AtLine(), Attempts(s));
    }
  }

  /** One round of `NoOkRound`, seen from the whole flow: either the flow
      goes on from the state it leaves, or it ends there. */
  lemma NoOkAdvance(s: State, key: Bytes) returns (t: State, more: bool)
    requires s.step == MT.AtTest && s.stepRetry < 3 && s.globalRetry < 3 && NoOk(s.rx)
    ensures t.tx == s.tx + AtLine() && t.step == MT.AtTest && NoOk(t.rx)
    ensures more ==> Run(s, key) == Run(t, key) && Measure(t) < Measure(s)
    ensures more ==> t.stepRetry < 3 && t.globalRetry < 3 && Attempts(t) + 1 == Attempts(s)
    ensures !more ==> Run(s, key) == t && t.status == Error && t.globalRetry == 3 && Attempts(s) == 1
  {
    NoOkRound(s, key);
    t, more := Respond(SendCommand(s), key).0, Respond(SendCommand(s), key).1;
    if more {
      RunStep(s, key);
    } else {
      RunStop(s, key);
    }
  }

  /** One more copy in front of `n` copies makes `m = n + 1` of them. */
  lemma RepeatOnce(a: Bytes, b: Bytes, n: nat, m: nat)
    requires m == n + 1
    ensures a + b + Repeat(b, n) == a + Repeat(b, m)
  {
  }

  /** A single copy is the bytes themselves. */
  lemma RepeatOne(b: Bytes, n: nat)
    requires n == 1
    ensures Repeat(b, n) == b
  {
  }

  /** One round at the first step against a reply without "OK": it writes
      "AT\r\n", fails, and uses up one attempt. */
  lemma NoOkRound(s: State, key: Bytes)
    requires s.step == MT.AtTest && s.stepRetry < 3 && s.globalRetry < 3 && NoOk(s.rx)
    ensures var (t, more) := Respond(SendCommand(s), key);
      && t.tx == s.tx + AtLine() && t.step == MT.AtTest && NoOk(t.rx)
      && (more ==> t.stepRetry < 3 && t.globalRetry < 3 && Attempts(t) + 1 == Attempts(s))
      && (!more ==> t.status == Error && t.globalRetry == 3 && Attempts(s) == 1)
  {
    var c := SendCommand(s);
    NoOkChunk(s.rx);
    TrimContains(c.modemResponse, MT.Ok);
    var u := c.(modemResponse := Trim(c.modemResponse));
    RespondOther(c, key);
    FailOutcome(u);
  }

  /** At every step but the TCP one, `processResponse` is the step's test
      on the trimmed reply followed by success or failure. */
  lemma RespondOther(s: State, key: Bytes)
    requires s.step != MT.Completed && s.step != MT.ConnectTcp
    ensures var t := s.(modemResponse := Trim(s.modemResponse));
      Respond(s, key) == if MT.Accepts(s.step, t.modemResponse) then Succeed(t) else Fail(t)
  {
  }

  /** The chunk a read window collects from chunks without "OK" has none,
      and neither do the chunks after it. */
  lemma NoOkChunk(rx: seq<Bytes>)
    requires NoOk(rx)
    ensures !Contains(NextChunk(rx), MT.Ok) && NoOk(Later(rx))
  {
    if rx == [] {
      assert IndexOf([], MT.Ok, 0) == -1;
    }
  }

  /** `configure` against a modem that never answers "OK" fails after
      exactly nine "AT" commands (three tries in each of three passes) and
      reports ERROR once. */
  lemma ConfigureWithoutOk(s: State, key: Bytes)
    requires NoOk(s.rx)
    ensures var (r, ok) := Configure(s, key);
      && !ok && r.status == Error && r.statusLog == s.statusLog + [Error]
      && r.tx == s.tx + Repeat(AtLine(), 9)
  {
    var s0 := s.(step := MT.AtTest, stepRetry := 0, globalRetry := 0);
    NoOkRun(s0, key);
    RunOutcome(s0, key);
    RunKeeps(s0, key);
  }

  /** The reply that makes a step succeed at once: the step's own test, or
      "OK" with the connection reported for the TCP step. */
  predicate Answers(step: MT.Step, reply: Bytes)
    requires step != MT.Completed
  {
    if step == MT.ConnectTcp then Contains(reply, MT.Ok) && MT.Established(reply)
    else MT.Accepts(step, reply)
  }

  /** The replies answer every step from `step` to the TCP step, one reply
      per step, in order. */
  predicate AnsweredFrom(step: MT.Step, rx: seq<Bytes>)
    decreases 9 - MT.Index(step)
  {
    step == MT.Completed
    || (|rx| > 0 && Answers(step, rx[0])
        && (step != MT.ConnectTcp ==> AnsweredFrom(MT.Next(step), rx[1..])))
  }

  /** A modem that answers every remaining step in turn takes the flow to
      completion, one reply per step, connected and with the counters reset. */
  lemma AnsweredRun(s: State, key: Bytes)
    requires s.step != MT.Completed && AnsweredFrom(s.step, s.rx)
    ensures var r := Run(s, key);
      && r.step == MT.Completed && r.configured && r.connected && r.globalRetry == 0
      && |s.rx| >= 9 - MT.Index(s.step) && r.rx == s.rx[9 - MT.Index(s.step)..]
  {
    AnsweredReplies(s.step, s.rx);
    AnsweredRunFrom(s, key, 9 - MT.Index(s.step));
  }

  /** `AnsweredRun` with `k` steps left to answer. */
  lemma {:induction false} AnsweredRunFrom(s: State, key: Bytes, k: nat)
    requires s.step != MT.Completed && AnsweredFrom(s.step, s.rx)
    requires k == 9 - MT.Index(s.step) && |s.rx| >= k
    ensures var r := Run(s, key);
      && r.step == MT.Completed && r.configured && r.connected && r.globalRetry == 0
      && r.rx == s.rx[k..]
    decreases k
  {
    if s.step == MT.ConnectTcp {
      AnsweredConnect(s, key);
    } else {
      var t := AnsweredAdvance(s, key);
      AnsweredRunFrom(t, key, k - 1);
      DropAfterHead(s.rx, k);
    }
  }

  /** Answering every step from `step` on takes one reply per step. */
  lemma {:induction false} AnsweredReplies(step: MT.Step, rx: seq<Bytes>)
    requires AnsweredFrom(step, rx)
    ensures |rx| >= 9 - MT.Index(step)
    decreases 9 - MT.Index(step)
  {
    if step != MT.Completed && step != MT.ConnectTcp {
      AnsweredReplies(MT.Next(step), rx[1..]);
    }
  }

  /** An answered step other than the TCP one leaves the rest of the flow
      to the next step, with the remaining replies still answering it. */
  lemma AnsweredAdvance(s: State, key: Bytes) returns (t: State)
    requires s.step != MT.Completed && s.step != MT.ConnectTcp && AnsweredFrom(s.step, s.rx)
    ensures Run(s, key) == Run(t, key)
    ensures t.step == MT.Next(s.step) && t.rx == s.rx[1..] && AnsweredFrom(t.step, t.rx)
  {
    AnsweredStep(s, key);
    t := Respond(SendCommand(s), key).0;
    RunStep(s, key);
  }

  /** Dropping the head and then `k - 1` more drops `k`. */
  lemma DropAfterHead<T>(xs: seq<T>, k: nat)
    requires 1 <= k <= |xs|
    ensures xs[1..][k - 1..] == xs[k..]
  {
  }

  /** A round that continues hands the flow on to the next round. */
  lemma RunStep(s: State, key: Bytes)
    requires s.step != MT.Completed && Respond(SendCommand(s), key).1
    ensures Run(s, key) == Run(Respond(SendCommand(s), key).0, key)
    ensures Measure(Respond(SendCommand(s), key).0) < Measure(s)
  {
  }

  /** A round that stops ends the flow. */
  lemma RunStop(s: State, key: Bytes)
    requires s.step != MT.Completed && !Respond(SendCommand(s), key).1
    ensures Run(s, key) == Respond(SendCommand(s), key).0
  {
  }

  /** An answered step other than the TCP one moves on, consuming one reply. */
  lemma AnsweredStep(s: State, key: Bytes)
    requires s.step != MT.Completed && s.step != MT.ConnectTcp && |s.rx| > 0
    requires Answers(s.step, s.rx[0])
    ensures var (t, more) := Respond(SendCommand(s), key);
      more && t.step == MT.Next(s.step) && t.rx == s.rx[1..]
  {
    var c := SendCommand(s);
    MT.AcceptsIgnoresTrim(s.step, c.modemResponse);
    RespondOther(c, key);
    SucceedOutcome(c.(modemResponse := Trim(c.modemResponse)));
  }

  /** An answered TCP step completes the flow, consuming one reply. */
  lemma AnsweredConnect(s: State, key: Bytes)
    requires s.step == MT.ConnectTcp && |s.rx| > 0 && Answers(MT.ConnectTcp, s.rx[0])
    ensures var r := Run(s, key);
      && r.step == MT.Completed && r.configured && r.connected && r.globalRetry == 0
      && r.rx == s.rx[1..]
  {
    var c := SendCommand(s);
    MT.EstablishedIgnoresTrim(c.modemResponse);
    var u := c.(modemResponse := Trim(c.modemResponse));
    ConnectSuccessConnects(u, key);
  }
}
