/** The WebSocket frame codec of the LTE modem client (base framing of
    RFC 6455 section 5.2, masking of section 5.3), as the client implements
    it: one frame is parsed from the front of a receive buffer, a frame that
    is not complete yet is left for later, and outgoing frames always carry
    the fixed mask 81 81 81 81. */
module WsFrame {
  import opened Bytes

  /** A frame as it was read: its opcode, the masking key (empty when the
      MASK bit is clear) and the payload bytes as they were sent. */
  datatype Frame = Frame(opcode: byte, key: Bytes, data: Bytes)

  /** The application data of a frame: unmasked with its key, if it has one. */
  function Payload(f: Frame): (r: Bytes)
    ensures |r| == |f.data|
  {
    if |f.key| == 4 then Xor(f.data, f.key) else f.data
  }

  /** What the decoder makes of the front of its buffer: wait for more bytes,
      give up on the whole buffer, or a frame occupying `size` bytes. */
  datatype Parse = Incomplete | Malformed | Complete(frame: Frame, size: nat)

  const OpText: byte := 0x1
  const OpBinary: byte := 0x2
  const OpClose: byte := 0x8
  const OpPing: byte := 0x9
  const OpPong: byte := 0xA

  /** The mask the client puts on every frame it sends. */
  const FixedMask: Bytes := [0x81, 0x81, 0x81, 0x81]
  /** The prebuilt keepalive frames: empty, masked Ping and Pong. */
  const PingFrame: Bytes := [0x89, 0x80, 0x81, 0x81, 0x81, 0x81]
  const PongFrame: Bytes := [0x8A, 0x80, 0x81, 0x81, 0x81, 0x81]

  /** Byte i of the data XORed with byte i mod 4 of the mask. */
  function Xor(data: Bytes, mask: Bytes): (r: Bytes)
    requires |mask| == 4
    ensures |r| == |data|
  {
    seq(|data|, i requires 0 <= i < |data| => data[i] ^ mask[i % 4])
  }

  /** Masking twice with the same key gives the data back. */
  lemma XorInvolutive(data: Bytes, mask: Bytes)
    requires |mask| == 4
    ensures Xor(Xor(data, mask), mask) == data
  {
    var once := Xor(data, mask);
    forall i | 0 <= i < |data| ensures Xor(once, mask)[i] == data[i] {
      assert once[i] == data[i] ^ mask[i % 4];
    }
  }

  /** Parse the frame at the front of `buf`: the FIN bit must be set, a
      7-bit length of 126 announces a 16-bit length of which only the low
      byte (`buf[3]`) is kept, because the source stores it in an 8-bit
      variable, and 127 (a 64-bit length) is refused. */
  function ParseFrame(buf: Bytes): (p: Parse)
    ensures p.Complete? ==> 2 <= p.size <= |buf|
    ensures p.Malformed? <==> |buf| >= 2 && (buf[0] & 0x80 == 0 || buf[1] & 0x7F == 127)
  {
    if |buf| < 2 then Incomplete
    else if buf[0] & 0x80 == 0 then Malformed
    else
      var len7 := buf[1] & 0x7F;
      if len7 == 126 then
        if |buf| < 4 then Incomplete else Extract(buf, 4, buf[3] as nat, buf[1] & 0x80 != 0)
      else if len7 == 127 then Malformed
      else Extract(buf, 2, len7 as nat, buf[1] & 0x80 != 0)
  }

  /** The rest of the parse once the length field (ending at `base`) is read:
      the mask key, present when the MASK bit is set, then the payload. */
  function Extract(buf: Bytes, base: nat, payloadLen: nat, masked: bool): (p: Parse)
    requires 2 <= base <= |buf|
    ensures p.Complete? ==> 2 <= p.size <= |buf|
    ensures !p.Malformed?
  {
    var hdr := if masked then base + 4 else base;
    if |buf| < hdr + payloadLen then Incomplete
    else
      Complete(Frame(buf[0] & 0x0F, buf[base..hdr], buf[hdr..hdr + payloadLen]), hdr + payloadLen)
  }

  /** The layout of a complete frame: header of 2 bytes, or 4 after the
      126 length code, then the 4-byte mask key when the MASK bit is set,
      then the payload, whose length is the 7-bit code or, after 126, only
      the low byte `buf[3]` of the 16-bit length. */
  lemma FrameLayout(buf: Bytes)
    requires ParseFrame(buf).Complete?
    ensures var p := ParseFrame(buf); var ext := buf[1] & 0x7F == 126;
      var hdr := (if ext then 4 else 2) + (if buf[1] & 0x80 != 0 then 4 else 0);
      && buf[0] & 0x80 != 0 && hdr <= p.size
      && p.size == hdr + (if ext then buf[3] as nat else (buf[1] & 0x7F) as nat)
      && p.frame.opcode == buf[0] & 0x0F
      && p.frame.key == buf[(if ext then 4 else 2)..hdr]
      && p.frame.data == buf[hdr..p.size]
  {
  }

  /** Byte i of a masked frame's payload is byte i of the data XORed with
      byte i mod 4 of the key; an unmasked payload is the data itself. */
  lemma PayloadBytes(buf: Bytes, i: nat)
    requires ParseFrame(buf).Complete?
    requires i < |ParseFrame(buf).frame.data|
    ensures var f := ParseFrame(buf).frame; var n := ParseFrame(buf).size;
      && (buf[1] & 0x80 != 0 ==> Payload(f)[i] == buf[n - |f.data| + i] ^ f.key[i % 4])
      && (buf[1] & 0x80 == 0 ==> Payload(f)[i] == buf[n - |f.data| + i])
  {
    FrameLayout(buf);
  }

  /** Everything decoded from a buffer: the frames in order, what is left in
      the buffer, and whether a malformed frame made the decoder drop it. */
  datatype Decoded = Decoded(frames: seq<Frame>, rest: Bytes, dropped: bool)

  /** Decode frames from the front of the buffer until it is empty, holds
      only the start of a frame, or starts with a malformed frame. */
  function Decode(buf: Bytes): Decoded
    decreases |buf|
  {
    match ParseFrame(buf)
    case Incomplete => Decoded([], buf, false)
    case Malformed => Decoded([], [], true)
    case Complete(f, n) =>
      if |buf| > n then
        var d := Decode(buf[n..]);
        Decoded([f] + d.frames, d.rest, d.dropped)
      else
        Decoded([f], [], false)
  }

  /** After decoding, the buffer is empty when it was dropped and otherwise
      holds an incomplete frame; in both cases what is left is a suffix of
      the input. */
  lemma {:induction false} DecodeRest(buf: Bytes)
    ensures var d := Decode(buf);
      && (d.dropped ==> d.rest == [])
      && (!d.dropped ==> ParseFrame(d.rest).Incomplete?)
      && |d.rest| <= |buf| && d.rest == buf[|buf| - |d.rest|..]
    decreases |buf|
  {
    var p := ParseFrame(buf);
    if p.Complete? && |buf| > p.size {
      DecodeRest(buf[p.size..]);
    }
    if p.Complete? && |buf| == p.size {
      assert ParseFrame([]).Incomplete?;
    }
  }

  /** The payloads of the Text frames, in arrival order. */
  function Texts(fs: seq<Frame>): seq<Bytes>
  {
    if fs == [] then []
    else (if fs[0].opcode == OpText then [Payload(fs[0])] else []) + Texts(fs[1..])
  }

  /** The bytes sent in reply: one Pong for every Ping. */
  function Replies(fs: seq<Frame>): Bytes
  {
    if fs == [] then []
    else (if fs[0].opcode == OpPing then PongFrame else []) + Replies(fs[1..])
  }

  /** Some frame is a Close frame. */
  predicate HasClose(fs: seq<Frame>)
  {
    exists i :: 0 <= i < |fs| && fs[i].opcode == OpClose
  }

  /** The Text payloads of two runs of frames, one after the other. */
  lemma {:induction false} TextsAppend(a: seq<Frame>, b: seq<Frame>)
    ensures Texts(a + b) == Texts(a) + Texts(b)
    decreases |a|
  {
    if a != [] {
      assert (a + b)[1..] == a[1..] + b;
      TextsAppend(a[1..], b);
    } else {
      assert a + b == b;
    }
  }

  /** The replies to two runs of frames, one after the other. */
  lemma {:induction false} RepliesAppend(a: seq<Frame>, b: seq<Frame>)
    ensures Replies(a + b) == Replies(a) + Replies(b)
    decreases |a|
  {
    if a != [] {
      assert (a + b)[1..] == a[1..] + b;
      RepliesAppend(a[1..], b);
    } else {
      assert a + b == b;
    }
  }

  /** A Close frame is among two runs of frames iff it is among one of them. */
  lemma HasCloseAppend(a: seq<Frame>, b: seq<Frame>)
    ensures HasClose(a + b) <==> HasClose(a) || HasClose(b)
  {
    if HasClose(a) {
      var i :| 0 <= i < |a| && a[i].opcode == OpClose;
      assert (a + b)[i] == a[i];
    }
    if HasClose(b) {
      var i :| 0 <= i < |b| && b[i].opcode == OpClose;
      assert (a + b)[|a| + i] == b[i];
    }
    if HasClose(a + b) {
      var i :| 0 <= i < |a + b| && (a + b)[i].opcode == OpClose;
      if i < |a| {
        assert a[i] == (a + b)[i];
      } else {
        assert b[i - |a|] == (a + b)[i];
      }
    }
  }

  /** A client Text frame: FIN and opcode 1, the mask bit and the length,
      the fixed mask, then the masked payload. Only payloads shorter than
      126 bytes can be sent. */
  function TextFrame(p: Bytes): (f: Bytes)
    requires |p| < 126
    ensures |f| == |p| + 6
  {
    [0x81, 0x80 | (|p| as byte)] + FixedMask + Xor(p, FixedMask)
  }

  /** The length byte of a client Text frame reads back as the length. */
  lemma LengthByte(n: nat)
    requires n < 126
    ensures (0x80 | (n as byte)) & 0x80 != 0
    ensures ((0x80 | (n as byte)) & 0x7F) as nat == n
  {
    var x := n as byte;
    assert x as nat == n;
    assert x < 126;
    LengthBits(x);
  }

  lemma LengthBits(x: byte)
    requires x < 126
    ensures (0x80 | x) & 0x80 != 0 && (0x80 | x) & 0x7F == x
  {
  }

  /** The frame the decoder reads back from `TextFrame(p)`. */
  function SentText(p: Bytes): Frame
  {
    Frame(OpText, FixedMask, Xor(p, FixedMask))
  }

  /** Round trip: the decoder reads a client Text frame back as a complete
      masked frame with opcode 1 whose payload is the original one, whatever
      bytes follow it. */
  lemma TextFrameRoundTrip(p: Bytes, tail: Bytes)
    requires |p| < 126
    ensures ParseFrame(TextFrame(p) + tail) == Complete(SentText(p), |p| + 6)
    ensures Payload(SentText(p)) == p
  {
    var buf := TextFrame(p) + tail;
    LengthByte(|p|);
    assert buf[0] == 0x81 && buf[1] == 0x80 | (|p| as byte);
    assert buf[6..6 + |p|] == Xor(p, FixedMask);
    assert buf[2..6] == FixedMask;
    XorInvolutive(p, FixedMask);
  }

  /** The fixed Ping and Pong frames decode as empty masked control frames. */
  lemma KeepaliveFramesParse()
    ensures ParseFrame(PingFrame) == Complete(Frame(OpPing, FixedMask, []), 6)
    ensures ParseFrame(PongFrame) == Complete(Frame(OpPong, FixedMask, []), 6)
  {
    assert PingFrame[2..6] == FixedMask && PongFrame[2..6] == FixedMask;
  }

  /** The concatenation of byte strings. */
  function Concat(chunks: seq<Bytes>): Bytes
  {
    if chunks == [] then [] else chunks[0] + Concat(chunks[1..])
  }

  /** The client Text frames of a list of payloads, back to back. */
  function TextFrames(ps: seq<Bytes>): Bytes
    requires forall i :: 0 <= i < |ps| ==> |ps[i]| < 126
  {
    if ps == [] then [] else TextFrame(ps[0]) + TextFrames(ps[1..])
  }

  function TextFrameList(ps: seq<Bytes>): (fs: seq<Frame>)
    ensures |fs| == |ps|
  {
    if ps == [] then [] else [SentText(ps[0])] + TextFrameList(ps[1..])
  }

  /** A stream of client Text frames decodes to exactly those frames, in
      order, and leaves the buffer empty. */
  lemma {:induction false} TextFramesDecode(ps: seq<Bytes>)
    requires forall i :: 0 <= i < |ps| ==> |ps[i]| < 126
    ensures Decode(TextFrames(ps)) == Decoded(TextFrameList(ps), [], false)
    ensures Texts(Decode(TextFrames(ps)).frames) == ps
  {
    if ps != [] {
      var rest := TextFrames(ps[1..]);
      var buf := TextFrame(ps[0]) + rest;
      TextFrameRoundTrip(ps[0], rest);
      TextFramesDecode(ps[1..]);
      assert buf[|ps[0]| + 6..] == rest;
      if rest == [] {
        assert ps[1..] == [];
      }
    }
  }

  /** Client Text frames call for no reply and none of them closes. */
  lemma {:induction false} TextFrameListQuiet(ps: seq<Bytes>)
    ensures Replies(TextFrameList(ps)) == [] && !HasClose(TextFrameList(ps))
    decreases |ps|
  {
    if ps != [] {
      var fs := TextFrameList(ps);
      TextFrameListQuiet(ps[1..]);
      assert fs[1..] == TextFrameList(ps[1..]);
      HasCloseAppend([SentText(ps[0])], TextFrameList(ps[1..]));
    }
  }

  /** A complete frame stays the same frame whatever arrives after it. */
  lemma ParsePrefixStable(buf: Bytes, tail: Bytes)
    requires ParseFrame(buf).Complete?
    ensures ParseFrame(buf + tail) == ParseFrame(buf)
  {
    var all := buf + tail;
    assert all[0] == buf[0] && all[1] == buf[1];
    if buf[1] & 0x7F == 126 {
      assert all[3] == buf[3];
      ExtractPrefixStable(buf, tail, 4, buf[3] as nat, buf[1] & 0x80 != 0);
    } else {
      ExtractPrefixStable(buf, tail, 2, (buf[1] & 0x7F) as nat, buf[1] & 0x80 != 0);
    }
  }

  lemma ExtractPrefixStable(buf: Bytes, tail: Bytes, base: nat, payloadLen: nat, masked: bool)
    requires 2 <= base <= |buf|
    requires Extract(buf, base, payloadLen, masked).Complete?
    ensures Extract(buf + tail, base, payloadLen, masked) == Extract(buf, base, payloadLen, masked)
  {
    var all := buf + tail;
    assert all[0] == buf[0];
    var hdr := if masked then base + 4 else base;
    assert all[hdr..hdr + payloadLen] == buf[hdr..hdr + payloadLen];
    if masked {
      assert all[base..hdr] == buf[base..hdr];
    }
  }

  /** A buffer refused as malformed stays refused whatever arrives after it:
      the verdict depends only on its first two bytes. */
  lemma MalformedStable(buf: Bytes, tail: Bytes)
    requires ParseFrame(buf).Malformed?
    ensures ParseFrame(buf + tail).Malformed?
  {
    assert (buf + tail)[0] == buf[0] && (buf + tail)[1] == buf[1];
  }

  /** Every proper prefix of a complete frame is reported incomplete, so the
      decoder never acts on part of a frame. */
  lemma ProperPrefixIncomplete(buf: Bytes, k: nat)
    requires ParseFrame(buf).Complete? && k < ParseFrame(buf).size
    ensures ParseFrame(buf[..k]).Incomplete?
  {
    var pre := buf[..k];
    if k >= 2 {
      assert pre[0] == buf[0] && pre[1] == buf[1];
      if k >= 4 {
        assert pre[3] == buf[3];
      }
    }
  }

  /** Once the decoder has dropped a buffer, more bytes behind it would have
      been dropped too. */
  lemma {:induction false} DroppedStable(a: Bytes, b: Bytes)
    requires Decode(a).dropped
    ensures Decode(a + b).dropped
    decreases |a|
  {
    match ParseFrame(a)
    case Malformed =>
      MalformedStable(a, b);
    case Complete(f, n) =>
      ParsePrefixStable(a, b);
      assert |a| > n;
      assert (a + b)[n..] == a[n..] + b;
      DroppedStable(a[n..], b);
  }

  /** Decoding in two instalments gives what decoding everything at once
      gives, as long as the first instalment was not dropped: the frames of
      the first pass followed by those found when the rest is completed. */
  lemma {:induction false} DecodeAppend(a: Bytes, b: Bytes)
    requires !Decode(a).dropped
    ensures Decode(a + b) == Then(Decode(a).frames, Decode(Decode(a).rest + b))
    decreases |a|
  {
    var p := ParseFrame(a);
    if p.Incomplete? {
      assert Decode(a) == Decoded([], a, false);
      assert Then([], Decode(a + b)) == Decode(a + b);
    } else {
      var n := p.size;
      ParsePrefixStable(a, b);
      if |a| > n {
        DecodeAppendStep(a, b, p.frame, n);
      } else {
        DecodeAppendLast(a, b, p.frame, n);
      }
    }
  }

  /** Frames `fs` followed by the outcome `d`. */
  function Then(fs: seq<Frame>, d: Decoded): Decoded
  {
    Decoded(fs + d.frames, d.rest, d.dropped)
  }

  lemma {:induction false} DecodeAppendStep(a: Bytes, b: Bytes, f: Frame, n: nat)
    requires !Decode(a).dropped
    requires ParseFrame(a) == Complete(f, n) && ParseFrame(a + b) == Complete(f, n) && |a| > n
    ensures Decode(a + b) == Then(Decode(a).frames, Decode(Decode(a).rest + b))
    decreases |a|, 0
  {
    var tl := a[n..];
    DecodeFirst(a, f, n);
    DecodeFirstAppended(a, b, f, n);
    DecodeAppend(tl, b);
    ThenAssociative([f], Decode(tl), Decode(Decode(tl).rest + b), Decode(tl + b), Decode(a), Decode(a + b));
  }

  lemma ThenAssociative(fs: seq<Frame>, d1: Decoded, d2: Decoded, both: Decoded, first: Decoded, all: Decoded)
    requires first == Then(fs, d1) && all == Then(fs, both) && both == Then(d1.frames, d2)
    ensures all == Then(first.frames, d2) && first.rest == d1.rest
  {
    assert fs + (d1.frames + d2.frames) == (fs + d1.frames) + d2.frames;
  }

  /** One decoding step: a complete frame in front of more bytes. */
  lemma DecodeFirst(a: Bytes, f: Frame, n: nat)
    requires ParseFrame(a) == Complete(f, n) && |a| > n
    ensures Decode(a) == Then([f], Decode(a[n..]))
  {
  }

  lemma DecodeFirstAppended(a: Bytes, b: Bytes, f: Frame, n: nat)
    requires ParseFrame(a + b) == Complete(f, n) && |a| > n
    ensures Decode(a + b) == Then([f], Decode(a[n..] + b))
  {
    assert (a + b)[n..] == a[n..] + b;
  }

  lemma DecodeAppendLast(a: Bytes, b: Bytes, f: Frame, n: nat)
    requires ParseFrame(a) == Complete(f, n) && ParseFrame(a + b) == Complete(f, n) && |a| == n
    ensures Decode(a + b) == Then(Decode(a).frames, Decode(Decode(a).rest + b))
  {
    assert Decode(a) == Decoded([f], [], false);
    assert [] + b == b;
    if |b| > 0 {
      assert (a + b)[n..] == b;
      assert Decode(a + b) == Then([f], Decode(b));
    } else {
      assert a + b == a;
      assert Decode(b) == Decoded([], [], false);
    }
  }

  /** Bytes arriving in chunks, each appended to the buffer and decoded, as
      the client does once the handshake is complete. */
  function Feed(buf: Bytes, chunks: seq<Bytes>): Decoded
    decreases |chunks|
  {
    if chunks == [] then Decoded([], buf, false)
    else
      var d := Decode(buf + chunks[0]);
      var e := Feed(d.rest, chunks[1..]);
      Decoded(d.frames + e.frames, e.rest, d.dropped || e.dropped)
  }

  /** Partial-frame buffering is exact: however a byte stream is cut into
      chunks, feeding the chunks one by one yields the same frames and the
      same leftover as decoding the whole stream at once, provided the
      stream contains no malformed frame. */
  lemma {:induction false} ChunkingInvariant(buf: Bytes, chunks: seq<Bytes>)
    requires ParseFrame(buf).Incomplete?
    requires !Decode(buf + Concat(chunks)).dropped
    ensures Feed(buf, chunks).frames == Decode(buf + Concat(chunks)).frames
    ensures Feed(buf, chunks).rest == Decode(buf + Concat(chunks)).rest
    ensures !Feed(buf, chunks).dropped
    decreases |chunks|
  {
    if chunks == [] {
      assert buf + Concat(chunks) == buf;
    } else {
      var d := ChunkDecode(buf, chunks);
      ChunkingInvariant(d.rest, chunks[1..]);
    }
  }

  /** Decoding the buffer with the first chunk appended is the first pass of
      decoding everything at once: it is not dropped, leaves an incomplete
      frame, and the rest of the stream continues from its leftover. */
  lemma ChunkDecode(buf: Bytes, chunks: seq<Bytes>) returns (d: Decoded)
    requires chunks != [] && !Decode(buf + Concat(chunks)).dropped
    ensures d == Decode(buf + chunks[0]) && !d.dropped && ParseFrame(d.rest).Incomplete?
    ensures Decode(buf + Concat(chunks)) == Then(d.frames, Decode(d.rest + Concat(chunks[1..])))
  {
    var a := buf + chunks[0];
    var b := Concat(chunks[1..]);
    assert buf + Concat(chunks) == a + b;
    if Decode(a).dropped {
      DroppedStable(a, b);
    }
    DecodeAppend(a, b);
    DecodeRest(a);
    d := Decode(a);
  }
}
