/** The state of one `LTE4G_Client`: its status, configuration step, flags,
    retry counters and buffers, plus the serial line as seen from the
    client (replies still to be read, bytes written so far) and the
    callbacks' observations (text payloads delivered, statuses reported). */
module Lte4gState {
  import opened Bytes
  import MT = ModemText

  /** `LTE4G_Status`. */
  datatype Status = Disconnected | Connecting | Connected | Error

  datatype State = State(
    status: Status,
    step: MT.Step,
    configured: bool,          // _isConfigured
    connected: bool,           // _isConnected
    wsMode: bool,              // _isWebSocketMode
    wsConnected: bool,         // _wsConnected
    hsComplete: bool,          // _wsHandshakeComplete
    stepRetry: nat,            // _stepRetryCount
    globalRetry: nat,          // _globalRetryCount
    modemResponse: Bytes,      // _modemResponse
    wsBuffer: Bytes,           // _wsBuffer
    wsKey: Bytes,              // _wsKey
    serverIP: Bytes,
    serverPort: Bytes,
    rx: seq<Bytes>,            // reply chunks the modem will deliver, in order
    tx: Bytes,                 // every byte written to the modem
    delivered: seq<Bytes>,     // payloads handed to the data callback
    statusLog: seq<Status>)    // statuses handed to the status callback

  /** The state the constructor leaves (WebSocket mode on, nothing sent). */
  function Initial(serverIP: Bytes, serverPort: Bytes, rx: seq<Bytes>): (s: State)
    ensures s.status == Disconnected && s.step == MT.AtTest && s.wsMode
    ensures !s.configured && !s.connected && !s.wsConnected && !s.hsComplete
    ensures s.stepRetry == 0 && s.globalRetry == 0 && s.tx == [] && s.wsBuffer == []
  {
    State(Disconnected, MT.AtTest, false, false, true, false, false, 0, 0,
          [], [], [], serverIP, serverPort, rx, [], [], [])
  }

  /** `isWebSocketConnected`. */
  predicate WsUp(s: State)
  {
    s.wsConnected && s.hsComplete
  }

  /** The HTTP Upgrade request of `startWebSocketHandshake` (section 4.1 of
      RFC 6455), with the key it was given. */
  function HandshakeRequest(serverIP: Bytes, serverPort: Bytes, key: Bytes): Bytes
  {
    Ascii("GET / HTTP/1.1\r\n")
      + Ascii("Host: ") + serverIP + Ascii(":") + serverPort + MT.Crlf
      + Ascii("Upgrade: websocket\r\n")
      + Ascii("Connection: Upgrade\r\n")
      + Ascii("Sec-WebSocket-Key: ") + key + MT.Crlf
      + Ascii("Sec-WebSocket-Version: 13\r\n")
      + MT.Crlf
  }

  /** `startWebSocketHandshake`: send the request with a fresh key, mark the
      handshake pending and empty the frame buffer. */
  function StartHandshake(s: State, key: Bytes): (r: State)
    ensures r.tx == s.tx + HandshakeRequest(s.serverIP, s.serverPort, key)
    ensures !r.hsComplete && r.wsBuffer == [] && r.wsKey == key
    ensures r.(tx := s.tx, hsComplete := s.hsComplete, wsBuffer := s.wsBuffer, wsKey := s.wsKey) == s
  {
    s.(wsKey := key, tx := s.tx + HandshakeRequest(s.serverIP, s.serverPort, key),
       hsComplete := false, wsBuffer := [])
  }

  /** "+++\r\n" then "AT+CIPCLOSE\r\n", written by `disconnect`. */
  function CloseCommands(): Bytes
  {
    Ascii("+++") + MT.Crlf + Ascii("AT+CIPCLOSE") + MT.Crlf
  }

  /** `disconnect`: leave transparent mode, close the link, clear the
      connection flags and report DISCONNECTED. Configuration is kept. */
  function Disconnect(s: State): (r: State)
    ensures !r.connected && !r.wsConnected && !r.hsComplete && !WsUp(r)
    ensures r.status == Disconnected && r.statusLog == s.statusLog + [Disconnected]
    ensures r.tx == s.tx + CloseCommands()
    ensures r.configured == s.configured && r.step == s.step && r.wsBuffer == s.wsBuffer
  {
    s.(tx := s.tx + CloseCommands(), connected := false, wsConnected := false,
       hsComplete := false, status := Disconnected, statusLog := s.statusLog + [Disconnected])
  }
}
