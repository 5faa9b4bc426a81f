/** nodesock.js: the frame parser that reads 7-bit lengths only, the
    dispatch of a received frame, and the ping and pong builders. The frame
    writer, the masking and the close message are the ones in Framing and
    Masking: nodesock.js holds the same code as nocket.js for them. */
module Nodesock {
  import opened Wire
  import opened Masking
  import opened Framing

  /** The message object `parseFrame` returns. */
  datatype Frame = Frame(fin: bool, rsv1: bool, rsv2: bool, rsv3: bool, opcode: Opcode, payload: seq<Byte>)

  /** `parseFrame(bytes)`: the header fields of octets 0 and 1, the key
      after the fixed octets (after the extended length when there is one),
      and the payload of the 7-bit length, unmasked. A 126 or 127 length
      field throws, as extended lengths are not implemented. The payload is
      cut short when the buffer is. */
  function ParseFrame(bytes: seq<Byte>): (r: Result<Frame>)
    ensures r.Err? <==> LengthField(bytes) >= 126
    ensures r.Err? ==> r.error == ExtendedLengthNotImplemented
    ensures r.Ok? ==>
      && r.value.fin == (At(bytes, 0) >= 128)
      && r.value.opcode == At(bytes, 0) % 16
      && HeaderLength(bytes) == (if Masked(bytes) then 6 else 2)
      && |r.value.payload| == (if HeaderLength(bytes) + LengthField(bytes) <= |bytes| then LengthField(bytes)
                               else if HeaderLength(bytes) <= |bytes| then |bytes| - HeaderLength(bytes)
                               else 0)
  {
    if LengthField(bytes) >= 126 then Err(ExtendedLengthNotImplemented)
    else
      var b0 := At(bytes, 0);
      Ok(Frame(b0 >= 128, (b0 / 64) % 2 == 1, (b0 / 32) % 2 == 1, (b0 / 16) % 2 == 1, b0 % 16,
               PayloadOf(bytes, LengthField(bytes))))
  }

  /** Round trip: a frame `constructFrame` writes with fewer than 126
      payload octets parses back to fin = 1, rsv = 0, its opcode and its
      payload, whatever follows it in the buffer. */
  lemma {:induction false} ParseConstructed(opcode: Opcode, payload: seq<Byte>, mask: bool, key: MaskKey, rest: seq<Byte>)
    requires |payload| < 126
    ensures EncodeFrame(opcode, payload, mask, key).Ok?
    ensures ParseFrame(EncodeFrame(opcode, payload, mask, key).value + rest) == Ok(Frame(true, false, false, false, opcode, payload))
  {
    EncodedHeader(opcode, payload, mask, key, rest);
    var w := EncodeFrame(opcode, payload, mask, key).value + rest;
    var h := HeaderLength(w);
    assert Slice(w, h, h + |payload|) == w[h..h + |payload|];
    if mask {
      MaskTwice(payload, key);
    }
    assert PayloadOf(w, |payload|) == payload;
    var b0 := 0x80 + opcode;
    assert b0 / 64 == 2 && b0 / 32 == 4 && b0 / 16 == 8 && b0 % 16 == opcode;
  }

  /** The round trip for a whole masked frame alone in the buffer. */
  lemma ShortRoundTrip(opcode: Opcode, data: seq<Byte>, key: MaskKey)
    ensures |data| < 126 ==>
      && EncodeFrame(opcode, data, true, key).Ok?
      && ParseFrame(EncodeFrame(opcode, data, true, key).value) == Ok(Frame(true, false, false, false, opcode, data))
  {
    if |data| < 126 {
      ParseConstructed(opcode, data, true, key, []);
      assert EncodeFrame(opcode, data, true, key).value + [] == EncodeFrame(opcode, data, true, key).value;
    }
  }

  /** nodesock cannot read the frames of 126 octets or more that it writes. */
  lemma LongFrameUnreadable(opcode: Opcode, payload: seq<Byte>, mask: bool, key: MaskKey)
    requires 126 <= |payload| <= MaxShortPayload
    ensures EncodeFrame(opcode, payload, mask, key).Ok?
    ensures ParseFrame(EncodeFrame(opcode, payload, mask, key).value) == Err(ExtendedLengthNotImplemented)
  {
    EncodedHeader(opcode, payload, mask, key, []);
    assert EncodeFrame(opcode, payload, mask, key).value + [] == EncodeFrame(opcode, payload, mask, key).value;
  }

  /** `constructPingMessage(applicationData)`: a masked ping frame. */
  function ConstructPingMessage(data: seq<Byte>, key: MaskKey): (r: Result<seq<Byte>>)
    ensures r.Ok? <==> |data| <= MaxShortPayload
    ensures |data| < 126 ==> r.Ok? && ParseFrame(r.value) == Ok(Frame(true, false, false, false, Ping, data))
  {
    EncodeFrameLayout(Ping, data, true, key);
    ShortRoundTrip(Ping, data, key);
    EncodeFrame(Ping, data, true, key)
  }

  /** `constructPongMessage(applicationData)`: a masked pong frame. */
  function ConstructPongMessage(data: seq<Byte>, key: MaskKey): (r: Result<seq<Byte>>)
    ensures r.Ok? <==> |data| <= MaxShortPayload
    ensures |data| < 126 ==> r.Ok? && ParseFrame(r.value) == Ok(Frame(true, false, false, false, Pong, data))
  {
    EncodeFrameLayout(Pong, data, true, key);
    ShortRoundTrip(Pong, data, key);
    EncodeFrame(Pong, data, true, key)
  }

  /** `handleFrame(client, msg)`: continuation and pong frames are ignored,
      text and binary payloads are delivered, a close frame is reported and
      the socket ended with the close echo, a ping is answered with a pong
      carrying the same payload; any other opcode throws. `key` is the
      masking key drawn for a reply. */
  function HandleFrame(msg: Frame, key: MaskKey): (r: Result<seq<Effect>>)
    ensures msg.opcode == Continuation || msg.opcode == Pong ==> r == Ok([])
    ensures msg.opcode == Text || msg.opcode == Binary ==> r == Ok([Fire(Data(msg.payload))])
    ensures msg.opcode == Close ==> r == ReceiveClose(msg.payload, key)
    ensures msg.opcode == Ping && |msg.payload| < 126 ==>
      (r.Ok? && |r.value| == 1 && r.value[0].Write?
       && ParseFrame(r.value[0].frame) == Ok(Frame(true, false, false, false, Pong, msg.payload)))
    ensures msg.opcode !in {Continuation, Text, Binary, Close, Ping, Pong} ==> r == Err(UnhandledOpcode(msg.opcode))
  {
    if msg.opcode == Continuation then Ok([])
    else if msg.opcode == Text || msg.opcode == Binary then Ok([Fire(Data(msg.payload))])
    else if msg.opcode == Close then ReceiveClose(msg.payload, key)
    else if msg.opcode == Ping then
      match ConstructPongMessage(msg.payload, key)
      case Err(e) => Err(e)
      case Ok(frame) => Ok([Write(frame)])
    else if msg.opcode == Pong then Ok([])
    else Err(UnhandledOpcode(msg.opcode))
  }

  /** `receiveFrames(client, bytes)`: the chunk is parsed as one frame,
      which is then handled. */
  function ReceiveFrames(bytes: seq<Byte>, key: MaskKey): (r: Result<seq<Effect>>)
    ensures LengthField(bytes) >= 126 ==> r == Err(ExtendedLengthNotImplemented)
    ensures LengthField(bytes) < 126 ==> r == HandleFrame(ParseFrame(bytes).value, key)
  {
    match ParseFrame(bytes)
    case Err(e) => Err(e)
    case Ok(msg) => HandleFrame(msg, key)
  }

  /** A ping of fewer than 126 octets written by a peer causes exactly one
      write: a pong carrying the ping's payload. */
  lemma PingAnswered(payload: seq<Byte>, peerKey: MaskKey, key: MaskKey)
    requires |payload| < 126
    ensures
      var r := ReceiveFrames(ConstructPingMessage(payload, peerKey).value, key);
      && r.Ok? && |r.value| == 1 && r.value[0].Write?
      && ParseFrame(r.value[0].frame) == Ok(Frame(true, false, false, false, Pong, payload))
  {
    var ping := ConstructPingMessage(payload, peerKey).value;
    assert ParseFrame(ping).Ok?;
  }

  /** A close frame written by `constructCloseMessage` is reported with its
      status code and reason, and answered with the close echo, whose payload
      is status 0 followed by "received close message". */
  lemma CloseAnswered(status: int, reason: seq<Byte>, peerKey: MaskKey, key: MaskKey)
    requires 0 <= status < 32768 && |reason| < 124
    ensures ConstructCloseMessage(Some(status), Some(reason), peerKey).Ok?
    ensures
      var r := ReceiveFrames(ConstructCloseMessage(Some(status), Some(reason), peerKey).value, key);
      && r.Ok? && |r.value| == 2
      && r.value[0] == Fire(End(status, if reason == [] then NoReasonGiven else reason))
      && r.value[1] == EndSocket(EncodeFrame(Close, ClosePayload(0, ReceivedClose), true, key).value)
  {
    var payload := ClosePayload(status, reason);
    ClosePayloadRoundTrip(status, reason);
    ParseConstructed(Close, payload, true, peerKey, []);
    var w := ConstructCloseMessage(Some(status), Some(reason), peerKey).value;
    assert w == EncodeFrame(Close, payload, true, peerKey).value;
    assert w + [] == w;
  }
}
