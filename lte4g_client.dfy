/** `LTE4G_Client` as an object: its fields are updated in place by the
    methods below, and each method is proved to leave exactly the state the
    corresponding function of `Lte4gConfig`, `Lte4gSocket` or `Lte4gState`
    describes, so every lemma proved there holds of the object. */
module Lte4g {
  import opened Bytes
  import MT = ModemText
  import opened WsFrame
  import opened Lte4gState
  import Cfg = Lte4gConfig
  import Sock = Lte4gSocket

  /** The payload of a frame, built byte by byte: each data byte XORed with
      the key byte at its index mod 4 when the frame is masked, copied
      otherwise. */
  method ExtractPayload(f: Frame) returns (payload: Bytes)
    ensures payload == Payload(f)
  {
    payload := [];
    if |f.key| == 4 {
      var mask := f.key;
      for i := 0 to |f.data|
        invariant payload == Xor(f.data[..i], mask)
      {
        XorStep(f.data, mask, i);
        payload := payload + [f.data[i] ^ mask[i % 4]];
      }
      assert f.data[..|f.data|] == f.data;
    } else {
      for i := 0 to |f.data|
        invariant payload == f.data[..i]
      {
        payload := payload + [f.data[i]];
      }
    }
  }

  /** The bytes of a client Text frame, assembled in a buffer of n + 6
      bytes as `sendWebSocketTextFrame` does. */
  method BuildTextFrame(p: Bytes) returns (f: Bytes)
    requires |p| < 126
    ensures f == TextFrame(p)
  {
    var frame := new byte[|p| + 6];
    frame[0] := 0x81;
    frame[1] := 0x80 | (|p| as byte);
    var mask := FixedMask;
    for j := 0 to 4
      invariant frame[0] == 0x81 && frame[1] == 0x80 | (|p| as byte)
      invariant forall k :: 0 <= k < j ==> frame[2 + k] == mask[k]
    {
      frame[2 + j] := mask[j];
    }
    for i := 0 to |p|
      invariant frame[0] == 0x81 && frame[1] == 0x80 | (|p| as byte)
      invariant forall k :: 0 <= k < 4 ==> frame[2 + k] == mask[k]
      invariant forall k :: 0 <= k < i ==> frame[6 + k] == p[k] ^ mask[k % 4]
    {
      frame[6 + i] := p[i] ^ mask[i % 4];
    }
    f := frame[..];
    assert f[..2] == [0x81, 0x80 | (|p| as byte)];
    assert f[2..6] == FixedMask;
    assert f[6..] == Xor(p, FixedMask);
    assert f == f[..2] + f[2..6] + f[6..];
  }

  class Client {
    var status: Status
    var step: MT.Step
    var configured: bool
    var connected: bool
    var wsMode: bool
    var wsConnected: bool
    var hsComplete: bool
    var stepRetry: nat
    var globalRetry: nat
    var modemResponse: Bytes
    var wsBuffer: Bytes
    var wsKey: Bytes
    var serverIP: Bytes
    var serverPort: Bytes
    var rx: seq<Bytes>
    var tx: Bytes
    var delivered: seq<Bytes>
    var statusLog: seq<Status>

    /** The object's fields as a value. */
    function View(): State
      reads this
    {
      State(status, step, configured, connected, wsMode, wsConnected, hsComplete,
            stepRetry, globalRetry, modemResponse, wsBuffer, wsKey, serverIP,
            serverPort, rx, tx, delivered, statusLog)
    }

    /** The constructor together with `begin`: server settings stored, the
        modem still silent on the line. */
    constructor (ip: Bytes, port: Bytes, replies: seq<Bytes>)
      ensures View() == Initial(ip, port, replies)
    {
      status := Disconnected;
      step := MT.AtTest;
      configured, connected, wsMode := false, false, true;
      wsConnected, hsComplete := false, false;
      stepRetry, globalRetry := 0, 0;
      modemResponse, wsBuffer, wsKey := [], [], [];
      serverIP, serverPort := ip, port;
      rx, tx, delivered, statusLog := replies, [], [], [];
    }

    /** `isWebSocketConnected`. */
    method IsWebSocketConnected() returns (up: bool)
      ensures up == WsUp(View())
    {
      up := wsConnected && hsComplete;
    }

    /** `sendWebSocketPongFrame`. */
    method SendWebSocketPongFrame()
      modifies this`tx
      ensures tx == old(tx) + PongFrame
    {
      tx := tx + PongFrame;
    }

    /** `sendWebSocketPing`. */
    method SendWebSocketPing()
      modifies this`tx
      ensures View() == Sock.SendPing(old(View()))
    {
      if !wsConnected {
        return;
      }
      tx := tx + PingFrame;
    }

    /** `sendWebSocketTextFrame`. */
    method SendWebSocketTextFrame(p: Bytes)
      modifies this`tx
      ensures View() == Sock.SendText(old(View()), p)
    {
      if !wsConnected {
        return;
      }
      if |p| >= 126 {
        return;
      }
      var frame := BuildTextFrame(p);
      tx := tx + frame;
    }

    /** `processWebSocketBuffer`: the frames found in the buffer are
        handled by `HandleFrames` and the buffer keeps what they leave. */
    method ProcessWebSocketBuffer()
      modifies this`wsBuffer, this`delivered, this`tx, this`wsConnected
      ensures var r := Sock.ProcessBuffer(old(View()));
        wsBuffer == r.wsBuffer && delivered == r.delivered && tx == r.tx && wsConnected == r.wsConnected
    {
      var rest, texts, replies, up := HandleFrames(wsBuffer, wsConnected);
      wsBuffer, delivered, tx, wsConnected := rest, delivered + texts, tx + replies, up;
    }

    /** `processWebSocketData`, branch for branch. */
    method ProcessWebSocketData(data: Bytes)
      modifies this`wsBuffer, this`delivered, this`tx, this`wsConnected, this`connected
      ensures var r := Sock.ProcessData(old(View()), data);
        wsBuffer == r.wsBuffer && delivered == r.delivered && tx == r.tx
        && wsConnected == r.wsConnected && connected == r.connected
    {
      if |data| == 0 {
        return;
      }
      if 0x80 <= data[0] <= 0x8F {
        wsBuffer := wsBuffer + data;
        ProcessWebSocketBuffer();
        return;
      }
      if !hsComplete {
        var trimmed := Trim(data);
        if Sock.IsLinkMessage(trimmed) && |data| < 15 {
          wsConnected := false;
          connected := false;
          return;
        }
      }
      if hsComplete && wsConnected {
        wsBuffer := wsBuffer + data;
        ProcessWebSocketBuffer();
        return;
      }
      if Sock.MentionsLoss(data) {
        wsConnected := false;
        connected := false;
        return;
      }
      wsBuffer := wsBuffer + data;
      ProcessWebSocketBuffer();
    }

    /** `processWebSocketFrames`, with the chunk just read (empty when
        nothing was available). */
    method ProcessWebSocketFrames(newData: Bytes)
      modifies this`wsBuffer, this`delivered, this`tx, this`wsConnected, this`connected
      ensures var r := Sock.ProcessFrames(old(View()), newData);
        wsBuffer == r.wsBuffer && delivered == r.delivered && tx == r.tx
        && wsConnected == r.wsConnected && connected == r.connected
    {
      ghost var s0 := View();
      if |wsBuffer| > 0 {
        ProcessWebSocketBuffer();
      }
      ghost var s1 := View();
      assert s1 == if |s0.wsBuffer| > 0 then Sock.ProcessBuffer(s0) else s0;
      if |newData| > 0 {
        ProcessWebSocketData(newData);
      }
    }

    /** `startWebSocketHandshake`, with the key it generates. */
    method StartWebSocketHandshake(key: Bytes)
      modifies this`wsKey, this`tx, this`hsComplete, this`wsBuffer
      ensures wsKey == key && tx == old(tx) + HandshakeRequest(serverIP, serverPort, key)
      ensures !hsComplete && wsBuffer == []
    {
      wsKey := key;
      tx := tx + HandshakeRequest(serverIP, serverPort, key);
      hsComplete := false;
      wsBuffer := [];
    }

    /** `checkWebSocketHandshakeResponse`, with the chunk just read (empty
        when nothing was available). */
    method CheckWebSocketHandshakeResponse(response: Bytes)
      modifies this`wsBuffer, this`delivered, this`tx, this`wsConnected, this`hsComplete
      ensures var r := Sock.CheckHandshake(old(View()), response);
        wsBuffer == r.wsBuffer && delivered == r.delivered && tx == r.tx
        && wsConnected == r.wsConnected && hsComplete == r.hsComplete
    {
      if |response| == 0 {
        return;
      }
      wsBuffer := wsBuffer + response;
      if Contains(wsBuffer, Sock.Switching) {
        hsComplete := true;
        wsConnected := true;
        var residue := Sock.Residue(wsBuffer);
        if residue.Some? {
          wsBuffer := wsBuffer[residue.value..];
          ProcessWebSocketBuffer();
          return;
        }
        wsBuffer := [];
        SendWebSocketTextFrame(Sock.Greeting);
        return;
      }
      if Sock.StartsFrame(wsBuffer) {
        hsComplete := true;
        wsConnected := true;
        return;
      }
      if Sock.Refused(wsBuffer) {
        wsConnected := false;
        hsComplete := false;
        return;
      }
      if |wsBuffer| > Sock.MaxHandshake {
        wsBuffer := [];
      }
    }

    /** `disconnect`. */
    method Disconnect()
      modifies this`tx, this`connected, this`wsConnected, this`hsComplete, this`status, this`statusLog
      ensures tx == old(tx) + CloseCommands() && status == Disconnected
      ensures statusLog == old(statusLog) + [Disconnected]
      ensures !connected && !wsConnected && !hsComplete
    {
      tx := tx + CloseCommands();
      connected := false;
      wsConnected := false;
      hsComplete := false;
      status := Disconnected;
      statusLog := statusLog + [Disconnected];
    }

    /** The first half of `executeConfigStep`: send the step's command and
        collect one read window into `_modemResponse`. */
    method SendStepCommand()
      requires step != MT.Completed
      modifies this`tx, this`modemResponse, this`rx
      ensures tx == old(tx) + MT.Command(step, serverIP, serverPort) + MT.Crlf
      ensures modemResponse == Cfg.NextChunk(old(rx)) && rx == Cfg.Later(old(rx))
    {
      tx := tx + MT.Command(step, serverIP, serverPort) + MT.Crlf;
      if rx == [] {
        modemResponse := [];
      } else {
        modemResponse := rx[0];
        rx := rx[1..];
      }
    }

    /** `waitForConnect` after its first check: read chunks until the text
        reports the connection or a failure, or nothing more arrives. */
    method WaitForConnect() returns (ok: bool)
      modifies this`rx
      ensures (ok, rx) == Cfg.WaitConnect([], old(rx))
    {
      var text: Bytes := [];
      while rx != []
        invariant Cfg.WaitConnect(text, rx) == Cfg.WaitConnect([], old(rx))
        decreases |rx|
      {
        text := text + rx[0];
        rx := rx[1..];
        if MT.Established(text) {
          return true;
        }
        if Contains(text, MT.ConnectFail) || Contains(text, MT.Error) {
          return false;
        }
      }
      ok := MT.Established(text);
    }

    /** The TCP step of `processResponse`. */
    method ConnectStep(key: Bytes) returns (ok: bool)
      modifies this`connected, this`modemResponse, this`rx, this`wsKey, this`tx,
               this`hsComplete, this`wsBuffer
      ensures var (r, k) := Cfg.ConnectOutcome(old(View()), key);
        ok == k && connected == r.connected && modemResponse == r.modemResponse && rx == r.rx
        && wsKey == r.wsKey && tx == r.tx && hsComplete == r.hsComplete && wsBuffer == r.wsBuffer
    {
      if !Contains(modemResponse, MT.Ok) {
        return false;
      }
      if MT.Established(modemResponse) {
        connected := true;
        if wsMode && !hsComplete {
          StartWebSocketHandshake(key);
        }
        return true;
      }
      ok := WaitForConnect();
      if ok {
        connected := true;
        modemResponse := [];
        if wsMode && !hsComplete {
          rx := [];
          StartWebSocketHandshake(key);
        }
      } else {
        connected := false;
      }
    }

    /** The success half of `processResponse`. */
    method SucceedStep() returns (more: bool)
      requires step != MT.Completed
      modifies this`stepRetry, this`step, this`configured, this`globalRetry
      ensures var (r, k) := Cfg.Succeed(old(View()));
        more == k && stepRetry == r.stepRetry && step == r.step && configured == r.configured
        && globalRetry == r.globalRetry
    {
      stepRetry := 0;
      if step == MT.ConnectTcp {
        step := MT.Completed;
        configured := true;
        globalRetry := 0;
        more := false;
      } else {
        step := MT.Next(step);
        more := true;
      }
    }

    /** `restartConfigFlow` before it executes the first step again. */
    method ResetFlow()
      modifies this`step, this`stepRetry, this`connected, this`configured,
               this`wsConnected, this`hsComplete
      ensures step == MT.AtTest && stepRetry == 0
      ensures !connected && !configured && !wsConnected && !hsComplete
    {
      step, stepRetry := MT.AtTest, 0;
      connected, configured := false, false;
      wsConnected, hsComplete := false, false;
    }

    /** The failure half of `processResponse`. */
    method FailStep() returns (more: bool)
      modifies this`step, this`stepRetry, this`connected, this`configured,
               this`wsConnected, this`hsComplete, this`globalRetry, this`status
      ensures var (r, k) := Cfg.Fail(old(View()));
        more == k && step == r.step && stepRetry == r.stepRetry && globalRetry == r.globalRetry
        && status == r.status && connected == r.connected && configured == r.configured
        && wsConnected == r.wsConnected && hsComplete == r.hsComplete
    {
      stepRetry := stepRetry + 1;
      if stepRetry >= 3 {
        globalRetry := globalRetry + 1;
        if globalRetry >= 3 {
          status := Error;
          more := false;
        } else {
          ResetFlow();
          more := true;
        }
      } else {
        more := true;
      }
    }

    /** The judging half of `processResponse`: trim the reply, then run the
        TCP step's connection check or the step's test. */
    method JudgeResponse(key: Bytes) returns (ok: bool)
      requires step != MT.Completed
      modifies this`modemResponse, this`connected, this`rx, this`wsKey, this`tx,
               this`hsComplete, this`wsBuffer
      ensures var (r, k) := Cfg.Judge(old(View()), key);
        ok == k && modemResponse == r.modemResponse && connected == r.connected && rx == r.rx
        && wsKey == r.wsKey && tx == r.tx && hsComplete == r.hsComplete && wsBuffer == r.wsBuffer
    {
      ghost var s0 := View();
      TrimResponse();
      if step == MT.ConnectTcp {
        ghost var t := View();
        assert t == s0.(modemResponse := Trim(s0.modemResponse));
        ok := ConnectStep(key);
      } else {
        ok := MT.Accepts(step, modemResponse);
      }
    }

    /** `processResponse`: judge the trimmed reply, then move on, retry,
        restart or give up; `more` says whether `executeConfigStep` runs
        again. */
    method ProcessResponse(key: Bytes) returns (more: bool)
      requires step != MT.Completed
      modifies this`tx, this`modemResponse, this`rx, this`connected, this`wsKey, this`hsComplete,
               this`wsBuffer, this`stepRetry, this`step, this`configured, this`globalRetry,
               this`status, this`wsConnected
      ensures (View(), more) == Cfg.Respond(old(View()), key)
    {
      ghost var s0 := View();
      var ok := JudgeResponse(key);
      ghost var j := Cfg.Judge(s0, key).0;
      Cfg.JudgeFrame(s0, key);
      assert View() == s0.(connected := j.connected, modemResponse := j.modemResponse, rx := j.rx,
                           wsKey := j.wsKey, tx := j.tx, hsComplete := j.hsComplete,
                           wsBuffer := j.wsBuffer);
      more := SettleResponse(ok);
      Cfg.RespondJudged(s0, key);
    }

    /** The deciding half of `processResponse`: success or failure of the
        current step. */
    method SettleResponse(ok: bool) returns (more: bool)
      requires step != MT.Completed
      modifies this`stepRetry, this`step, this`configured, this`globalRetry, this`status,
               this`connected, this`wsConnected, this`hsComplete
      ensures (View(), more) == if ok then Cfg.Succeed(old(View())) else Cfg.Fail(old(View()))
    {
      ghost var u := View();
      if ok {
        more := SucceedStep();
        ghost var r := Cfg.Succeed(u).0;
        Cfg.SucceedFrame(u);
        assert View() == u.(stepRetry := r.stepRetry, step := r.step, configured := r.configured,
                            globalRetry := r.globalRetry);
      } else {
        more := FailStep();
        ghost var r := Cfg.Fail(u).0;
        Cfg.FailFrame(u);
        assert View() == u.(step := r.step, stepRetry := r.stepRetry, globalRetry := r.globalRetry,
                            status := r.status, connected := r.connected, configured := r.configured,
                            wsConnected := r.wsConnected, hsComplete := r.hsComplete);
      }
    }

    /** `_modemResponse.trim()`. */
    method TrimResponse()
      modifies this`modemResponse
      ensures modemResponse == Trim(old(modemResponse))
    {
      modemResponse := Trim(modemResponse);
    }

    /** `executeConfigStep` and every round it leads to, as a loop: the
        flow that remains is the same after every round. */
    method ExecuteConfigStep(key: Bytes)
      modifies this`tx, this`modemResponse, this`rx, this`connected, this`wsKey, this`hsComplete,
               this`wsBuffer, this`stepRetry, this`step, this`configured, this`globalRetry,
               this`status, this`wsConnected
      ensures View() == Cfg.Run(old(View()), key)
    {
      ghost var goal := Cfg.Run(View(), key);
      var more := true;
      while more && step != MT.Completed
        invariant more ==> Cfg.Run(View(), key) == goal
        invariant !more ==> View() == goal
        decreases (if more then 1 else 0), Cfg.Measure(View())
      {
        ghost var v := View();
        more := ConfigRound(key);
        if more {
          Cfg.RunStep(v, key);
        } else {
          Cfg.RunStop(v, key);
        }
      }
      if more {
        MarkConfigured();
      }
    }

    /** `executeConfigStep` at a step still to run: send its command,
        collect the reply and process it. */
    method ConfigRound(key: Bytes) returns (more: bool)
      requires step != MT.Completed
      modifies this`tx, this`modemResponse, this`rx, this`connected, this`wsKey, this`hsComplete,
               this`wsBuffer, this`stepRetry, this`step, this`configured, this`globalRetry,
               this`status, this`wsConnected
      ensures (View(), more) == Cfg.Respond(Cfg.SendCommand(old(View())), key)
    {
      ghost var v := View();
      SendStepCommand();
      assert View() == Cfg.SendCommand(v);
      more := ProcessResponse(key);
    }

    /** `executeConfigStep` at COMPLETED: `_isConfigured = true`. */
    method MarkConfigured()
      modifies this`configured
      ensures configured
    {
      configured := true;
    }

    /** `configure` up to its wait loop. */
    method Configure(key: Bytes) returns (ok: bool)
      modifies this`tx, this`modemResponse, this`rx, this`connected, this`wsKey, this`hsComplete,
               this`wsBuffer, this`stepRetry, this`step, this`configured, this`globalRetry,
               this`status, this`wsConnected, this`statusLog
      ensures (View(), ok) == Cfg.Configure(old(View()), key)
    {
      ghost var s0 := View();
      StartAt(MT.AtTest, true);
      assert View() == s0.(step := MT.AtTest, stepRetry := 0, globalRetry := 0);
      ExecuteConfigStep(key);
      ok := ReportConfigured();
    }

    /** The end of `configure`: report CONNECTED when the flow completed
        and ERROR otherwise; the result is `_isConfigured`. */
    method ReportConfigured() returns (ok: bool)
      modifies this`status, this`statusLog
      ensures var st := if old(configured) then Connected else Error;
        (View(), ok) == (old(View()).(status := st, statusLog := old(statusLog) + [st]), old(configured))
    {
      ghost var t := View();
      if configured {
        Report(Connected);
        assert View() == t.(status := Connected, statusLog := t.statusLog + [Connected]);
      } else {
        Report(Error);
        assert View() == t.(status := Error, statusLog := t.statusLog + [Error]);
      }
      ok := configured;
    }

    /** `restartConfigFlow`. */
    method RestartConfigFlow(key: Bytes)
      modifies this`tx, this`modemResponse, this`rx, this`connected, this`wsKey, this`hsComplete,
               this`wsBuffer, this`stepRetry, this`step, this`configured, this`globalRetry,
               this`status, this`wsConnected
      ensures View() == Cfg.RestartConfigFlow(old(View()), key)
    {
      ghost var s0 := View();
      ResetFlow();
      assert View() == Cfg.Restart(s0);
      ExecuteConfigStep(key);
    }

    /** `reconnect` up to its wait loop. */
    method Reconnect(key: Bytes) returns (ok: bool)
      modifies this`tx, this`modemResponse, this`rx, this`connected, this`wsKey, this`hsComplete,
               this`wsBuffer, this`stepRetry, this`step, this`configured, this`globalRetry,
               this`status, this`wsConnected, this`statusLog
      ensures (View(), ok) == Cfg.Reconnect(old(View()), key)
    {
      ghost var s0 := View();
      Disconnect();
      StartAt(MT.ConnectTcp, false);
      assert View() == Lte4gState.Disconnect(s0).(step := MT.ConnectTcp, stepRetry := 0);
      ExecuteConfigStep(key);
      ok := connected;
    }

    /** Put the flow at a step with its retry count cleared, and the global
        count too when asked (`configure` clears it, `reconnect` keeps it). */
    method StartAt(st: MT.Step, clearGlobal: bool)
      modifies this`step, this`stepRetry, this`globalRetry
      ensures step == st && stepRetry == 0
      ensures globalRetry == if clearGlobal then 0 else old(globalRetry)
    {
      step, stepRetry := st, 0;
      if clearGlobal {
        globalRetry := 0;
      }
    }

    /** Set `_status` and hand it to the status callback. */
    method Report(st: Status)
      modifies this`status, this`statusLog
      ensures status == st && statusLog == old(statusLog) + [st]
    {
      status := st;
      statusLog := statusLog + [st];
    }
  }

  /** Unmasking one more byte extends the unmasked prefix by that byte. */
  lemma XorStep(data: Bytes, mask: Bytes, i: nat)
    requires |mask| == 4 && i < |data|
    ensures Xor(data[..i + 1], mask) == Xor(data[..i], mask) + [data[i] ^ mask[i % 4]]
  {
    var a, b := Xor(data[..i + 1], mask), Xor(data[..i], mask) + [data[i] ^ mask[i % 4]];
    assert forall k | 0 <= k < |a| :: a[k] == b[k];
  }

  /** The loop of `processWebSocketBuffer` (the source recurses on the rest
      of the buffer): handle one complete frame per turn (append a Text
      payload, note a Close, answer a Ping with a Pong) until the front of
      the buffer is incomplete or malformed; a malformed buffer is dropped.
      The result is what `Decode` finds in the buffer. */
  method HandleFrames(wsBuffer: Bytes, wsConnected: bool)
    returns (rest: Bytes, texts: seq<Bytes>, replies: Bytes, up: bool)
    ensures rest == Decode(wsBuffer).rest
    ensures texts == Texts(Decode(wsBuffer).frames)
    ensures replies == Replies(Decode(wsBuffer).frames)
    ensures up == (wsConnected && !HasClose(Decode(wsBuffer).frames))
  {
    ghost var whole := Decode(wsBuffer);
    ghost var done: seq<Frame> := [];
    rest, texts, replies, up := wsBuffer, [], [], wsConnected;
    var p := ParseFrame(rest);
    while p.Complete?
      invariant p == ParseFrame(rest)
      invariant whole == Then(done, Decode(rest))
      invariant texts == Texts(done) && replies == Replies(done)
      invariant up == (wsConnected && !HasClose(done))
      decreases |rest|
    {
      var f := p.frame;
      var payload := ExtractPayload(f);
      FrameHandled(done, f);
      if f.opcode == OpText {
        texts := texts + [payload];
      } else if f.opcode == OpClose {
        up := false;
      } else if f.opcode == OpPing {
        replies := replies + PongFrame;
      }
      DecodeOne(whole, done, rest, f, p.size);
      done := done + [f];
      if |rest| > p.size {
        rest := rest[p.size..];
      } else {
        rest := [];
      }
      p := ParseFrame(rest);
    }
    DecodeEnd(whole, done, rest);
    if p.Malformed? {
      rest := [];
    }
  }

  /** The fields `processWebSocketBuffer` leaves are those of `ProcessBuffer`. */
  lemma BufferView(s: State, buf: Bytes, delivered: seq<Bytes>, tx: Bytes, up: bool)
    requires buf == Decode(s.wsBuffer).rest
    requires delivered == s.delivered + Texts(Decode(s.wsBuffer).frames)
    requires tx == s.tx + Replies(Decode(s.wsBuffer).frames)
    requires up == (s.wsConnected && !HasClose(Decode(s.wsBuffer).frames))
    ensures s.(wsBuffer := buf, delivered := delivered, tx := tx, wsConnected := up) == Sock.ProcessBuffer(s)
  {
  }

  /** One more frame handled: the logs grow by that frame's share. */
  lemma FrameHandled(done: seq<Frame>, f: Frame)
    ensures f.opcode == OpText ==> Texts(done + [f]) == Texts(done) + [Payload(f)]
    ensures f.opcode != OpText ==> Texts(done + [f]) == Texts(done)
    ensures f.opcode == OpPing ==> Replies(done + [f]) == Replies(done) + PongFrame
    ensures f.opcode != OpPing ==> Replies(done + [f]) == Replies(done)
    ensures HasClose(done + [f]) == (HasClose(done) || f.opcode == OpClose)
  {
    TextsAppend(done, [f]);
    RepliesAppend(done, [f]);
    HasCloseAppend(done, [f]);
    assert Texts([f]) == (if f.opcode == OpText then [Payload(f)] else []) + Texts([]);
    assert Replies([f]) == (if f.opcode == OpPing then PongFrame else []) + Replies([]);
    assert HasClose([f]) <==> [f][0].opcode == OpClose;
  }

  /** Taking one complete frame off the front keeps the decoding of the
      original buffer the same. */
  lemma DecodeOne(whole: Decoded, done: seq<Frame>, buf: Bytes, f: Frame, n: nat)
    requires ParseFrame(buf) == Complete(f, n)
    requires whole == Then(done, Decode(buf))
    ensures whole == Then(done + [f], Decode(if |buf| > n then buf[n..] else []))
  {
    assert Decode([]) == Decoded([], [], false);
    assert done + ([f] + Decode(if |buf| > n then buf[n..] else []).frames)
      == done + [f] + Decode(if |buf| > n then buf[n..] else []).frames;
  }

  /** When the loop stops, the frames handled are all the frames, and what
      is left is the buffer, or nothing when it starts with a malformed
      frame. */
  lemma DecodeEnd(whole: Decoded, done: seq<Frame>, buf: Bytes)
    requires !ParseFrame(buf).Complete?
    requires whole == Then(done, Decode(buf))
    ensures whole.frames == done
    ensures whole.rest == if ParseFrame(buf).Malformed? then [] else buf
  {
    assert done + [] == done;
  }
}
