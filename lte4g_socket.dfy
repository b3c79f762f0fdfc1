/** The WebSocket side of `LTE4G_Client` once the TCP link is up: the frame
    buffer and what it hands to the data callback, the classifier that tells
    frame bytes from the modem's own link-lost messages, the check of the
    reply to the HTTP Upgrade request (section 4.1 of RFC 6455), and the
    frames the client sends. */
module Lte4gSocket {
  import opened Bytes
  import MT = ModemText
  import opened WsFrame
  import opened Lte4gState

  /** "CLOSED" */
  const Closed: Bytes := [0x43, 0x4C, 0x4F, 0x53, 0x45, 0x44]
  /** "DISCONNECT" */
  const LinkDown: Bytes := [0x44, 0x49, 0x53, 0x43, 0x4F, 0x4E, 0x4E, 0x45, 0x43, 0x54]
  /** "HTTP/1.1 101", the status line of a successful upgrade. */
  const Switching: Bytes := [0x48, 0x54, 0x54, 0x50, 0x2F, 0x31, 0x2E, 0x31, 0x20, 0x31, 0x30, 0x31]
  /** "\r\n\r\n", the end of the HTTP header. */
  const HeaderEnd: Bytes := [0x0D, 0x0A, 0x0D, 0x0A]
  /** "400" and "404" */
  const BadRequest: Bytes := [0x34, 0x30, 0x30]
  const NotFound: Bytes := [0x34, 0x30, 0x34]
  /** "ESP32S3 Connected", the text sent once the upgrade succeeds. */
  const Greeting: Bytes := [0x45, 0x53, 0x50, 0x33, 0x32, 0x53, 0x33, 0x20,
                            0x43, 0x6F, 0x6E, 0x6E, 0x65, 0x63, 0x74, 0x65, 0x64]
  /** The handshake buffer is discarded once it grows past this many bytes. */
  const MaxHandshake: nat := 1024

  /** `processWebSocketBuffer`: decode every complete frame at the front of
      the buffer; Text payloads go to the data callback in order, each Ping
      is answered with a Pong, a Close frame clears `_wsConnected`, and what
      is left is the start of a frame still to come (or nothing, when a
      malformed frame made the decoder drop the buffer). */
  function ProcessBuffer(s: State): (r: State)
    ensures r.wsBuffer == [] || ParseFrame(r.wsBuffer).Incomplete?
    ensures |r.wsBuffer| <= |s.wsBuffer| && r.wsBuffer == s.wsBuffer[|s.wsBuffer| - |r.wsBuffer|..]
    ensures |s.delivered| <= |r.delivered| && r.delivered[..|s.delivered|] == s.delivered
    ensures |s.tx| <= |r.tx| && r.tx[..|s.tx|] == s.tx
    ensures r.wsConnected ==> s.wsConnected
    ensures r.(wsBuffer := s.wsBuffer, delivered := s.delivered, tx := s.tx, wsConnected := s.wsConnected) == s
  {
    var d := Decode(s.wsBuffer);
    DecodeRest(s.wsBuffer);
    s.(wsBuffer := d.rest,
       delivered := s.delivered + Texts(d.frames),
       tx := s.tx + Replies(d.frames),
       wsConnected := s.wsConnected && !HasClose(d.frames))
  }

  /** The decoder leaves the buffer, and everything else, alone while it
      holds only the start of a frame: fewer than 2 bytes, a 126 length
      code with fewer than 4 bytes, or fewer bytes than header and payload. */
  lemma BufferWaits(s: State)
    requires ParseFrame(s.wsBuffer).Incomplete?
    ensures ProcessBuffer(s) == s
  {
    assert Decode(s.wsBuffer) == Decoded([], s.wsBuffer, false);
    assert s.delivered + [] == s.delivered && s.tx + [] == s.tx;
  }

  /** A buffer starting with a frame whose FIN bit is clear, or whose length
      code is 127, is emptied and nothing is delivered or sent. */
  lemma BufferDropped(s: State)
    requires ParseFrame(s.wsBuffer).Malformed?
    ensures ProcessBuffer(s) == s.(wsBuffer := [])
  {
    assert Decode(s.wsBuffer) == Decoded([], [], true);
    assert s.delivered + [] == s.delivered && s.tx + [] == s.tx;
  }

  /** How `processWebSocketData` routes a chunk, in its order of priority. */
  datatype Route =
    | Ignored      // empty chunk
    | FrameStart   // first byte 0x80..0x8F: frame data
    | EarlyLoss    // before the handshake: exactly a link-lost message
    | Payload      // handshake done and connected: always frame data
    | Loss         // a link-lost message inside the text
    | Other        // anything else: frame data

  /** "CLOSED", "NO CARRIER" or "DISCONNECT", exactly. */
  predicate IsLinkMessage(t: Bytes)
  {
    t == Closed || t == MT.NoCarrier || t == LinkDown
  }

  /** "ERROR" together with "CONNECT", or "NO CARRIER", or "DISCONNECT"
      anywhere in the chunk. */
  predicate MentionsLoss(data: Bytes)
  {
    (Contains(data, MT.Error) && Contains(data, MT.Connect))
    || Contains(data, MT.NoCarrier) || Contains(data, LinkDown)
  }

  /** A chunk that is neither empty nor starts a frame. */
  predicate Textual(data: Bytes)
  {
    data != [] && !(0x80 <= data[0] <= 0x8F)
  }

  /** A short chunk that is exactly a link-lost message, before the
      handshake has completed. */
  predicate EarlyLinkLoss(s: State, data: Bytes)
  {
    Textual(data) && !s.hsComplete && IsLinkMessage(Trim(data)) && |data| < 15
  }

  function Classify(s: State, data: Bytes): (r: Route)
    ensures r == Ignored <==> data == []
    ensures r == FrameStart <==> data != [] && 0x80 <= data[0] <= 0x8F
    ensures r == EarlyLoss <==> EarlyLinkLoss(s, data)
    ensures r == Payload <==> Textual(data) && !EarlyLinkLoss(s, data) && WsUp(s)
    ensures r == Loss <==>
      Textual(data) && !EarlyLinkLoss(s, data) && !WsUp(s) && MentionsLoss(data)
    ensures r == Other <==>
      Textual(data) && !EarlyLinkLoss(s, data) && !WsUp(s) && !MentionsLoss(data)
    ensures WsUp(s) && data != [] ==> r == FrameStart || r == Payload
  {
    if data == [] then Ignored
    else if 0x80 <= data[0] <= 0x8F then FrameStart
    else if !s.hsComplete && IsLinkMessage(Trim(data)) && |data| < 15 then EarlyLoss
    else if s.hsComplete && s.wsConnected then Payload
    else if MentionsLoss(data) then Loss
    else Other
  }

  /** `processWebSocketData`: a link-lost message clears both connection
      flags and leaves the buffer alone; any other non-empty chunk is
      appended to the buffer, which is then decoded. */
  function ProcessData(s: State, data: Bytes): (r: State)
    ensures Classify(s, data) in {EarlyLoss, Loss} ==>
      r == s.(wsConnected := false, connected := false)
    ensures Classify(s, data) in {FrameStart, Payload, Other} ==>
      r == ProcessBuffer(s.(wsBuffer := s.wsBuffer + data))
    ensures r.hsComplete == s.hsComplete && r.statusLog == s.statusLog
    ensures Textual(data) && !WsUp(s) && MentionsLoss(data) ==> !r.wsConnected && !r.connected
    ensures EarlyLinkLoss(s, data) ==> !r.wsConnected && !r.connected
  {
    match Classify(s, data)
    case Ignored => s
    case EarlyLoss => s.(wsConnected := false, connected := false)
    case Loss => s.(wsConnected := false, connected := false)
    case _ => ProcessBuffer(s.(wsBuffer := s.wsBuffer + data))
  }

  /** `processWebSocketFrames`: decode what is already buffered, then hand
      the newly read chunk (empty when nothing was available) to the
      classifier. */
  function ProcessFrames(s: State, newData: Bytes): (r: State)
    ensures r.hsComplete == s.hsComplete
  {
    var t := if |s.wsBuffer| > 0 then ProcessBuffer(s) else s;
    if newData == [] then t else ProcessData(t, newData)
  }

  /** `sendWebSocketTextFrame`: nothing is written unless `_wsConnected` and
      the payload is shorter than 126 bytes. */
  function SendText(s: State, p: Bytes): (r: State)
    ensures s.wsConnected && |p| < 126 ==> r.tx == s.tx + TextFrame(p)
    ensures !(s.wsConnected && |p| < 126) ==> r.tx == s.tx
    ensures r.(tx := s.tx) == s
  {
    if !s.wsConnected then s
    else if |p| >= 126 then s
    else s.(tx := s.tx + TextFrame(p))
  }

  /** `sendWebSocketPing`: the fixed Ping frame, only while `_wsConnected`. */
  function SendPing(s: State): (r: State)
    ensures r.tx == s.tx + (if s.wsConnected then PingFrame else [])
    ensures r.(tx := s.tx) == s
  {
    if !s.wsConnected then s else s.(tx := s.tx + PingFrame)
  }

  /** `sendWebSocketPongFrame`: the fixed Pong frame, unconditionally. */
  function SendPong(s: State): (r: State)
    ensures r.tx == s.tx + PongFrame
    ensures r.(tx := s.tx) == s
  {
    s.(tx := s.tx + PongFrame)
  }

  /** The first byte of a Text, Binary, Ping or Pong frame with FIN set. */
  predicate StartsFrame(buf: Bytes)
  {
    |buf| > 0 && buf[0] in {0x81, 0x82, 0x89, 0x8A}
  }

  /** A handshake reply that refuses the upgrade. */
  predicate Refused(buf: Bytes)
  {
    Contains(buf, Closed) || Contains(buf, MT.Error)
    || Contains(buf, BadRequest) || Contains(buf, NotFound)
  }

  /** Where the bytes after the HTTP header start, when there are any. */
  function Residue(buf: Bytes): (r: Option<nat>)
    ensures r.Some? ==> r.value < |buf| && OccursAt(buf, HeaderEnd, r.value - 4)
  {
    var h := IndexOf(buf, HeaderEnd, 0);
    IndexOfSpec(buf, HeaderEnd, 0);
    if h != -1 && h + 4 < |buf| then Some(h + 4) else None
  }

  /** `checkWebSocketHandshakeResponse` with the bytes just read (empty
      when nothing was available). The new bytes are appended and the
      first matching rule acts: an upgrade completes the handshake, keeps
      what follows the header and decodes it, or greets the server when
      nothing follows; a frame at the front means the upgrade was missed
      but happened; a refusal clears both WebSocket flags; an overlong
      buffer is emptied. */
  function CheckHandshake(s: State, response: Bytes): (r: State)
    ensures response == [] ==> r == s
    ensures var buf := s.wsBuffer + response;
      response != [] && Contains(buf, Switching) ==>
      r.hsComplete && |s.tx| <= |r.tx| && r.tx[..|s.tx|] == s.tx
    ensures var buf := s.wsBuffer + response;
      var up := s.(hsComplete := true, wsConnected := true);
      response != [] && Contains(buf, Switching) ==>
      r == match Residue(buf)
           case Some(k) => ProcessBuffer(up.(wsBuffer := buf[k..]))
           case None => SendText(up.(wsBuffer := []), Greeting)
    ensures var buf := s.wsBuffer + response;
      (response != [] && !Contains(buf, Switching) && StartsFrame(buf)) ==>
      WsUp(r) && r.wsBuffer == buf
    ensures var buf := s.wsBuffer + response;
      (response != [] && !Contains(buf, Switching) && !StartsFrame(buf) && Refused(buf)) ==>
      !r.wsConnected && !r.hsComplete && r.wsBuffer == buf
    ensures var buf := s.wsBuffer + response;
      (response != [] && !Contains(buf, Switching) && !StartsFrame(buf) && !Refused(buf)) ==>
      r == s.(wsBuffer := if |buf| > MaxHandshake then [] else buf)
    ensures r.connected == s.connected && r.statusLog == s.statusLog
  {
    if response == [] then s
    else
      var buf := s.wsBuffer + response;
      if Contains(buf, Switching) then
        var up := s.(hsComplete := true, wsConnected := true);
        match Residue(buf)
        case Some(k) => ProcessBuffer(up.(wsBuffer := buf[k..]))
        case None => SendText(up.(wsBuffer := []), Greeting)
      else if StartsFrame(buf) then s.(wsBuffer := buf, hsComplete := true, wsConnected := true)
      else if Refused(buf) then s.(wsBuffer := buf, wsConnected := false, hsComplete := false)
      else if |buf| > MaxHandshake then s.(wsBuffer := [])
      else s.(wsBuffer := buf)
  }

  /** Chunks read one after another while the handshake is complete, each
      handed to `processWebSocketData`. */
  function FeedData(s: State, chunks: seq<Bytes>): (r: State)
    ensures r.hsComplete == s.hsComplete
    decreases |chunks|
  {
    if chunks == [] then s else FeedData(ProcessData(s, chunks[0]), chunks[1..])
  }

  /** Nothing the modem sends sets `_wsConnected` again once it is clear. */
  lemma {:induction false} ClosedStaysClosed(s: State, chunks: seq<Bytes>)
    requires !s.wsConnected
    ensures !FeedData(s, chunks).wsConnected
    decreases |chunks|
  {
    if chunks != [] {
      ClosedStaysClosed(ProcessData(s, chunks[0]), chunks[1..]);
    }
  }

  /** Decoding never drops the front part of a stream it does not drop. */
  lemma KeptPrefix(a: Bytes, b: Bytes)
    requires !Decode(a + b).dropped
    ensures !Decode(a).dropped
  {
    if Decode(a).dropped {
      DroppedStable(a, b);
    }
  }

  /** While the WebSocket is up, a non-empty chunk is always appended to
      the buffer and decoded. */
  lemma UpAppends(s: State, c: Bytes)
    requires WsUp(s) && c != []
    ensures ProcessData(s, c) == ProcessBuffer(s.(wsBuffer := s.wsBuffer + c))
  {
  }

  /** One chunk of a stream that is neither malformed nor closed: its
      frames are handled, the link stays up, and decoding the rest of the
      stream behind the new buffer finds the frames that remain. */
  lemma StreamStep(s: State, c: Bytes, b: Bytes)
    requires WsUp(s) && c != []
    requires !Decode(s.wsBuffer + c + b).dropped && !HasClose(Decode(s.wsBuffer + c + b).frames)
    ensures var t := ProcessData(s, c); var d1 := Decode(s.wsBuffer + c);
      var d2 := Decode(t.wsBuffer + b);
      && WsUp(t) && t.connected == s.connected && ParseFrame(t.wsBuffer).Incomplete?
      && t.delivered == s.delivered + Texts(d1.frames)
      && t.tx == s.tx + Replies(d1.frames)
      && Decode(s.wsBuffer + c + b) == Then(d1.frames, d2)
      && !d2.dropped && !HasClose(d2.frames)
  {
    var a := s.wsBuffer + c;
    KeptPrefix(a, b);
    DecodeAppend(a, b);
    DecodeRest(a);
    HasCloseAppend(Decode(a).frames, Decode(Decode(a).rest + b).frames);
    UpAppends(s, c);
  }

  /** No message is lost or invented by the way the modem cuts the stream:
      while the WebSocket is up and the stream holds no Close frame and no
      malformed frame, feeding the chunks one by one delivers exactly the
      Text payloads of the whole stream, in order, answers exactly its
      Pings, leaves exactly its incomplete tail buffered, and never takes
      any of it for a link-lost message. */
  lemma {:induction false} StreamDelivered(s: State, chunks: seq<Bytes>)
    requires WsUp(s) && ParseFrame(s.wsBuffer).Incomplete?
    requires !Decode(s.wsBuffer + Concat(chunks)).dropped
    requires !HasClose(Decode(s.wsBuffer + Concat(chunks)).frames)
    ensures var r := FeedData(s, chunks); var d := Decode(s.wsBuffer + Concat(chunks));
      && r.delivered == s.delivered + Texts(d.frames)
      && r.tx == s.tx + Replies(d.frames)
      && r.wsBuffer == d.rest && WsUp(r) && r.connected == s.connected
    decreases |chunks|
  {
    if chunks == [] {
      assert s.wsBuffer + Concat(chunks) == s.wsBuffer;
      assert Decode(s.wsBuffer) == Decoded([], s.wsBuffer, false);
      assert s.delivered + [] == s.delivered && s.tx + [] == s.tx;
    } else if chunks[0] == [] {
      assert s.wsBuffer + Concat(chunks) == s.wsBuffer + Concat(chunks[1..]);
      StreamDelivered(s, chunks[1..]);
    } else {
      var b := Concat(chunks[1..]);
      assert s.wsBuffer + Concat(chunks) == s.wsBuffer + chunks[0] + b;
      StreamStep(s, chunks[0], b);
      var t := ProcessData(s, chunks[0]);
      StreamDelivered(t, chunks[1..]);
      StreamJoin(s.delivered, s.tx, Decode(s.wsBuffer + chunks[0]).frames, Decode(t.wsBuffer + b).frames);
    }
  }

  /** The logs after two stretches of frames, as the logs after both. */
  lemma StreamJoin(delivered: seq<Bytes>, tx: Bytes, f1: seq<Frame>, f2: seq<Frame>)
    ensures delivered + Texts(f1) + Texts(f2) == delivered + Texts(f1 + f2)
    ensures tx + Replies(f1) + Replies(f2) == tx + Replies(f1 + f2)
  {
    TextsAppend(f1, f2);
    RepliesAppend(f1, f2);
  }

  /** Round trip over the link: client Text frames, however they are cut
      into chunks, arrive as exactly their payloads, in order, with nothing
      sent back and nothing left in the buffer. */
  lemma TextStreamDelivered(s: State, chunks: seq<Bytes>, ps: seq<Bytes>)
    requires WsUp(s) && s.wsBuffer == []
    requires forall i :: 0 <= i < |ps| ==> |ps[i]| < 126
    requires Concat(chunks) == TextFrames(ps)
    ensures var r := FeedData(s, chunks);
      r.delivered == s.delivered + ps && r.tx == s.tx && r.wsBuffer == [] && WsUp(r)
  {
    assert s.wsBuffer + Concat(chunks) == TextFrames(ps);
    TextFramesDecode(ps);
    TextFrameListQuiet(ps);
    StreamDelivered(s, chunks);
  }

  /** What `sendWebSocketTextFrame` writes is read back by the decoder as
      one Text frame carrying the payload. */
  lemma SendTextRoundTrip(s: State, p: Bytes)
    requires s.wsConnected && |p| < 126
    ensures var r := SendText(s, p);
      && r.tx == s.tx + TextFrame(p)
      && Decode(TextFrame(p)) == Decoded([SentText(p)], [], false)
      && Texts(Decode(TextFrame(p)).frames) == [p]
  {
    TextFramesDecode([p]);
    assert TextFrames([p]) == TextFrame(p) + [];
    assert TextFrame(p) + [] == TextFrame(p);
  }

  /** An upgrade reply that ends its header with nothing after it completes
      the handshake, empties the buffer and greets the server with one Text
      frame, which reads back as the greeting. */
  lemma UpgradeGreets(s: State, response: Bytes)
    requires response != []
    requires Contains(s.wsBuffer + response, Switching)
    requires Residue(s.wsBuffer + response).None?
    ensures var r := CheckHandshake(s, response);
      && WsUp(r) && r.wsBuffer == []
      && r.tx == s.tx + TextFrame(Greeting)
      && Texts(Decode(TextFrame(Greeting)).frames) == [Greeting]
  {
    SendTextRoundTrip(s.(hsComplete := true, wsConnected := true, wsBuffer := []), Greeting);
  }

  /** An upgrade reply followed, in the same read, by client-style Text
      frames completes the handshake and delivers those frames' payloads at
      once, leaving the buffer empty. */
  lemma UpgradeThenTexts(s: State, header: Bytes, ps: seq<Bytes>)
    requires Contains(s.wsBuffer + header, Switching)
    requires IndexOf(s.wsBuffer + header, HeaderEnd, 0) == |s.wsBuffer + header| - 4 >= 0
    requires ps != [] && forall i :: 0 <= i < |ps| ==> |ps[i]| < 126
    ensures var r := CheckHandshake(s, header + TextFrames(ps));
      && WsUp(r) && r.wsBuffer == [] && r.delivered == s.delivered + ps && r.tx == s.tx
  {
    var head := s.wsBuffer + header;
    var frames := TextFrames(ps);
    assert s.wsBuffer + (header + frames) == head + frames;
    TextFramesDecode(ps);
    TextFrameListQuiet(ps);
    assert |frames| > 0 by {
      assert frames == TextFrame(ps[0]) + TextFrames(ps[1..]);
    }
    UpgradeResidue(head, frames);
  }

  /** The header found in front of the frames still ends where it did, and
      what follows it is exactly the frames. */
  lemma UpgradeResidue(head: Bytes, frames: Bytes)
    requires Contains(head, Switching)
    requires IndexOf(head, HeaderEnd, 0) == |head| - 4 >= 0
    requires |frames| > 0
    ensures Contains(head + frames, Switching)
    ensures Residue(head + frames) == Some(|head|) && (head + frames)[|head|..] == frames
  {
    IndexOfPrefix(head, frames, Switching, 0);
    HeaderKept(head, frames);
    AfterHead(head, frames);
  }

  /** Bytes appended after a header leave its end where it was and become
      the residue. */
  lemma HeaderKept(head: Bytes, frames: Bytes)
    requires IndexOf(head, HeaderEnd, 0) == |head| - 4 >= 0
    requires |frames| > 0
    ensures Residue(head + frames) == Some(|head|)
  {
    IndexOfPrefix(head, frames, HeaderEnd, 0);
    ResidueAt(head + frames, |head| - 4);
  }

  /** A header end found at `h`, with bytes after it, puts the residue at `h + 4`. */
  lemma ResidueAt(buf: Bytes, h: int)
    requires IndexOf(buf, HeaderEnd, 0) == h && 0 <= h && h + 4 < |buf|
    ensures Residue(buf) == Some(h + 4)
  {
  }

  /** What follows a head is what was appended to it. */
  lemma AfterHead(head: Bytes, rest: Bytes)
    ensures (head + rest)[|head|..] == rest
  {
  }
}
