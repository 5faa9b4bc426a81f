/** nocket.js: the frame parser, the handling of one received message, and
    the per-client state that accumulates a frame whose payload arrives in
    several socket chunks. */
module Nocket {
  import opened Wire
  import opened Masking
  import opened Framing

  /** The message object `parseFrame` returns. `payloadLen` is the real
      payload length (after the extended length is read); `remainingToRead`
      counts the payload octets still to come and is null (None) when the
      whole frame was in the buffer. The masking key is kept so that the rest
      of the payload can be unmasked when it arrives (see `AppendChunk`). */
  datatype Frame = Frame(
    fin: bool, rsv1: bool, rsv2: bool, rsv3: bool, opcode: Opcode,
    payload: seq<Byte>, payloadLen: nat, remainingToRead: Option<int>,
    maskingKey: Option<MaskKey>)

  /** The real payload length: the 7-bit field, or the big-endian value of
      the 2 or 8 octets after it when the field is 126 or 127. */
  function PayloadLength(bytes: seq<Byte>): (r: nat)
    requires !ShortExtendedLength(bytes)
    ensures LengthField(bytes) < 126 ==> r == LengthField(bytes)
    ensures LengthField(bytes) == 126 ==> r == bytes[2] as int * 256 + bytes[3] && r <= 65535
    ensures LengthField(bytes) == 127 ==> r == BigEndian(bytes[2..10])
  {
    Extended16(bytes);
    var len7 := LengthField(bytes);
    if len7 == 126 then BigEndian(bytes[2..4])
    else if len7 == 127 then BigEndian(bytes[2..10])
    else len7
  }

  /** `readUInt16BE(2)` or `readBigUInt64BE(2)` would read past the buffer. */
  predicate ShortExtendedLength(bytes: seq<Byte>) {
    (LengthField(bytes) == 126 && |bytes| < 4) || (LengthField(bytes) == 127 && |bytes| < 10)
  }

  /** `parseFrame(bytes)` with the evident intent of lines 388-405: the
      header fields, the real payload length (`readUInt16BE` or
      `readBigUInt64BE` at offset 2, which throw when the buffer is too
      short), and the available part of the payload, unmasked. Octets past
      the end of the frame are ignored. */
  function ParseFrame(bytes: seq<Byte>): (r: Result<Frame>)
    ensures r.Err? <==> ShortExtendedLength(bytes)
    ensures r.Ok? ==> r.value.maskingKey == KeyOf(bytes)
    ensures r.Ok? ==> r.value.payloadLen == PayloadLength(bytes)
    ensures r.Ok? ==>
      var end := HeaderLength(bytes) + r.value.payloadLen;
      && (r.value.remainingToRead.Some? <==> end > |bytes|)
      && (r.value.remainingToRead.Some? ==> r.value.remainingToRead.value == end - |bytes| > 0)
  {
    if ShortExtendedLength(bytes) then Err(RangeError)
    else
      var b0 := At(bytes, 0);
      var payloadLen := PayloadLength(bytes);
      var payloadEnd := HeaderLength(bytes) + payloadLen;
      var remainingToRead := if payloadEnd > |bytes| then Some(payloadEnd - |bytes|) else None;
      Ok(Frame(b0 >= 128, (b0 / 64) % 2 == 1, (b0 / 32) % 2 == 1, (b0 / 16) % 2 == 1, b0 % 16,
               PayloadOf(bytes, payloadLen), payloadLen, remainingToRead, KeyOf(bytes)))
  }

  /** Once the header is in the buffer, the payload octets read so far and
      the octets still to read make up the whole payload length. */
  lemma PayloadAccounting(bytes: seq<Byte>)
    requires !ShortExtendedLength(bytes) && HeaderLength(bytes) <= |bytes|
    ensures
      var f := ParseFrame(bytes).value;
      |f.payload| + f.remainingToRead.GetOr(0) == f.payloadLen
  {
  }

  /** The 16-bit extended length is `readUInt16BE(2)`. */
  lemma Extended16(bytes: seq<Byte>)
    ensures |bytes| >= 4 ==> BigEndian(bytes[2..4]) == bytes[2] as int * 256 + bytes[3]
  {
    if |bytes| >= 4 {
      assert bytes[2..4] == [bytes[2], bytes[3]];
      BigEndianPair(bytes[2], bytes[3]);
    }
  }

  /** `parseFrame` as written: for a masked frame, `bytesRead += 4n` mixes a
      BigInt into a Number and throws a TypeError (line 390; the assignment
      to the const `payload` at line 404 would throw next). */
  function ParseFrameAsWritten(bytes: seq<Byte>): (r: Result<Frame>)
    ensures r.Err? <==> ShortExtendedLength(bytes) || Masked(bytes)
    ensures r.Ok? ==> r == ParseFrame(bytes)
  {
    match ParseFrame(bytes)
    case Err(e) => Err(e)
    case Ok(f) => if f.maskingKey.Some? then Err(TypeError) else Ok(f)
  }

  /** The frame a whole encoded frame parses to. */
  function Decoded(opcode: Opcode, payload: seq<Byte>, mask: bool, key: MaskKey): Frame {
    Frame(true, false, false, false, opcode, payload, |payload|, None, if mask then Some(key) else None)
  }

  /** Round trip: parsing what `constructFrame` writes, whatever follows it
      in the buffer, gives back fin = 1, rsv = 0, the opcode and the
      payload, with nothing left to read. */
  lemma {:induction false} ParseConstructed(opcode: Opcode, payload: seq<Byte>, mask: bool, key: MaskKey, rest: seq<Byte>)
    requires |payload| <= MaxShortPayload
    ensures EncodeFrame(opcode, payload, mask, key).Ok?
    ensures ParseFrame(EncodeFrame(opcode, payload, mask, key).value + rest) == Ok(Decoded(opcode, payload, mask, key))
  {
    EncodedHeader(opcode, payload, mask, key, rest);
    var w := EncodeFrame(opcode, payload, mask, key).value + rest;
    var h := HeaderLength(w);
    assert !ShortExtendedLength(w) && PayloadLength(w) == |payload|;
    assert Slice(w, h, h + |payload|) == w[h..h + |payload|];
    if mask {
      MaskTwice(payload, key);
    }
    assert PayloadOf(w, |payload|) == payload;
    var b0 := 0x80 + opcode;
    assert b0 / 64 == 2 && b0 / 32 == 4 && b0 / 16 == 8 && b0 % 16 == opcode;
  }

  /** nocket cannot read the frames it writes: every masked frame, which is
      what `constructFrame` produces by default, fails as written. */
  lemma MaskedFrameFailsAsWritten(opcode: Opcode, payload: seq<Byte>, key: MaskKey)
    requires |payload| <= MaxShortPayload
    ensures EncodeFrame(opcode, payload, true, key).Ok?
    ensures ParseFrameAsWritten(EncodeFrame(opcode, payload, true, key).value) == Err(TypeError)
  {
    ParseConstructed(opcode, payload, true, key, []);
    assert EncodeFrame(opcode, payload, true, key).value + [] == EncodeFrame(opcode, payload, true, key).value;
  }

  /** `handleMessage(client, opcode, payload)`: text and binary payloads are
      delivered, a close frame is reported and echoed, a ping is answered
      with a pong carrying the same payload (masked with `key`), a pong is
      reported; any other opcode is only logged. */
  function HandleMessage(opcode: Opcode, payload: seq<Byte>, key: MaskKey): (r: Result<seq<Effect>>)
    ensures opcode == Text || opcode == Binary ==> r == Ok([Fire(Data(payload))])
    ensures opcode == Close ==>
      && (r.Err? <==> |payload| == 1)
      && (r.Ok? ==> (|r.value| == 2
        && r.value[0] == Fire(End(DecodeClose(payload).value.statusCode, DecodeClose(payload).value.reason))
        && r.value[1].EndSocket?
        && ParseFrame(r.value[1].frame) == Ok(Decoded(Close, ClosePayload(0, ReceivedClose), true, key))))
    ensures opcode == Ping ==>
      && (r.Ok? <==> |payload| <= MaxShortPayload)
      && (r.Ok? ==> (|r.value| == 1 && r.value[0].Write?
        && ParseFrame(r.value[0].frame) == Ok(Decoded(Pong, payload, true, key))))
    ensures opcode == Pong ==> r == Ok([Fire(PongReceived(payload))])
    ensures opcode != Close && opcode != Ping ==> r.Ok? && forall e :: e in r.value ==> e.Fire?
    ensures opcode != Text && opcode != Binary && opcode != Close && opcode != Ping && opcode != Pong ==> r == Ok([])
  {
    if opcode == Text || opcode == Binary then Ok([Fire(Data(payload))])
    else if opcode == Close then
      var r := ReceiveClose(payload, key);
      if r.Ok? then
        ParseConstructed(Close, ClosePayload(0, ReceivedClose), true, key, []);
        assert r.value[1].frame + [] == r.value[1].frame;
        r
      else r
    else if opcode == Ping then
      match EncodeFrame(Pong, payload, true, key)
      case Err(e) =>
        EncodeFrameLayout(Pong, payload, true, key);
        Err(e)
      case Ok(frame) =>
        ParseConstructed(Pong, payload, true, key, []);
        assert frame + [] == frame;
        Ok([Write(frame)])
    else if opcode == Pong then Ok([Fire(PongReceived(payload))])
    else Ok([])
  }

  /** The frame in progress after the next chunk of its payload arrives:
      the chunk continues the payload (unmasked from where the payload had
      got to) and the count of octets still to read goes down by its
      length. */
  function AppendChunk(f: Frame, chunk: seq<Byte>): (r: Frame)
    requires f.remainingToRead.Some?
    ensures |r.payload| == |f.payload| + |chunk| && r.payload[..|f.payload|] == f.payload
    ensures r.remainingToRead == Some(f.remainingToRead.value - |chunk|)
    ensures f.maskingKey.None? ==> r.payload[|f.payload|..] == chunk
    ensures f.maskingKey.Some? ==> MaskFrom(r.payload[|f.payload|..], f.maskingKey.value, |f.payload|) == chunk
    ensures r.(payload := f.payload, remainingToRead := f.remainingToRead) == f
  {
    var next := f.(payload := f.payload + Unmasked(chunk, f.maskingKey, |f.payload|), remainingToRead := Some(f.remainingToRead.value - |chunk|));
    if f.maskingKey.Some? then
      MaskFromTwice(chunk, f.maskingKey.value, |f.payload|);
      assert next.payload[|f.payload|..] == MaskFrom(chunk, f.maskingKey.value, |f.payload|);
      next
    else next
  }

  /** `receiveFrame` as written (lines 210-211): the chunk is appended to the
      payload as it came, still masked. */
  function AppendChunkAsWritten(f: Frame, chunk: seq<Byte>): (r: Frame)
    requires f.remainingToRead.Some?
    ensures |r.payload| == |f.payload| + |chunk|
    ensures r.payload[..|f.payload|] == f.payload && r.payload[|f.payload|..] == chunk
    ensures r.remainingToRead == Some(f.remainingToRead.value - |chunk|)
    ensures f.maskingKey.None? ==> r == AppendChunk(f, chunk)
  {
    f.(payload := f.payload + chunk, remainingToRead := Some(f.remainingToRead.value - |chunk|))
  }

  /** A buffer cut after the header parses to the same header fields. */
  lemma {:induction false} PrefixKeepsHeader(w: seq<Byte>, k: nat)
    requires !ShortExtendedLength(w)
    requires HeaderLength(w) <= k <= |w|
    ensures At(w[..k], 0) == At(w, 0)
    ensures LengthField(w[..k]) == LengthField(w) && Masked(w[..k]) == Masked(w)
    ensures HeaderLength(w[..k]) == HeaderLength(w)
    ensures !ShortExtendedLength(w[..k])
    ensures PayloadLength(w[..k]) == PayloadLength(w)
    ensures KeyOf(w[..k]) == KeyOf(w)
  {
    var first := w[..k];
    assert At(first, 0) == At(w, 0) && At(first, 1) == At(w, 1);
    if LengthField(w) == 126 {
      assert first[2..4] == w[2..4];
    } else if LengthField(w) == 127 {
      assert first[2..10] == w[2..10];
    }
    if Masked(w) {
      var s := HeaderLength(w) - 4;
      assert KeyAt(first, s) == KeyAt(w, s);
    }
  }

  /** A whole frame cut inside its payload parses to the same frame, with
      the payload octets of the first part and the rest still to read. */
  lemma PrefixParse(w: seq<Byte>, k: nat)
    requires !ShortExtendedLength(w)
    requires HeaderLength(w) <= k < |w| == HeaderLength(w) + PayloadLength(w)
    ensures ParseFrame(w[..k]).Ok?
    ensures ParseFrame(w[..k]).value
         == ParseFrame(w).value.(payload := PayloadOf(w[..k], PayloadLength(w)), remainingToRead := Some(|w| - k))
  {
    PrefixKeepsHeader(w, k);
  }

  /** A whole frame split into two chunks, the first holding the whole
      header, yields the same frame as when it arrives in one piece: the
      second chunk is unmasked from the offset where it falls in the
      payload, and the count of octets to read reaches exactly 0. */
  lemma SplitFrameReassembles(w: seq<Byte>, k: nat)
    requires !ShortExtendedLength(w)
    requires HeaderLength(w) <= k < |w| == HeaderLength(w) + PayloadLength(w)
    ensures ParseFrame(w[..k]).Ok? && ParseFrame(w[..k]).value.remainingToRead == Some(|w| - k)
    ensures AppendChunk(ParseFrame(w[..k]).value, w[k..]) == ParseFrame(w).value.(remainingToRead := Some(0))
  {
    PrefixParse(w, k);
    PrefixPayload(w, k);
  }

  /** The payload octets of the first part, followed by the rest unmasked
      from where it falls in the payload, are the whole payload. */
  lemma PrefixPayload(w: seq<Byte>, k: nat)
    requires !ShortExtendedLength(w)
    requires HeaderLength(w) <= k < |w| == HeaderLength(w) + PayloadLength(w)
    ensures |PayloadOf(w[..k], PayloadLength(w))| == k - HeaderLength(w)
    ensures PayloadOf(w[..k], PayloadLength(w)) + Unmasked(w[k..], KeyOf(w), k - HeaderLength(w)) == PayloadOf(w, PayloadLength(w))
  {
    PrefixKeepsHeader(w, k);
    var h, n, key := HeaderLength(w), PayloadLength(w), KeyOf(w);
    assert PayloadOf(w[..k], n) == Unmasked(w[h..k], key, 0) by {
      assert Slice(w[..k], h, h + n) == w[h..k];
    }
    assert PayloadOf(w, n) == Unmasked(w[h..h + n], key, 0) by {
      assert Slice(w, h, h + n) == w[h..h + n];
    }
    assert h + n == |w|;
    assert w[h..h + n] == w[h..];
    assert w[h..] == w[h..k] + w[k..];
    UnmaskedSplit(w[h..k], w[k..], key);
  }

  /** Unmasking in two pieces, the second from where the first ends. */
  lemma UnmaskedSplit(a: seq<Byte>, b: seq<Byte>, key: Option<MaskKey>)
    ensures |Unmasked(a, key, 0)| == |a|
    ensures Unmasked(a + b, key, 0) == Unmasked(a, key, 0) + Unmasked(b, key, |a|)
  {
    if key.Some? {
      MaskFromSplit(a, b, key.value, 0);
    }
  }

  /** In particular for a frame `constructFrame` wrote. */
  lemma SplitEncodedFrame(opcode: Opcode, payload: seq<Byte>, mask: bool, key: MaskKey, k: nat)
    requires |payload| <= MaxShortPayload
    requires HeaderSize(|payload|) + (if mask then 4 else 0) <= k < HeaderSize(|payload|) + (if mask then 4 else 0) + |payload|
    ensures EncodeFrame(opcode, payload, mask, key).Ok?
    ensures
      var w := EncodeFrame(opcode, payload, mask, key).value;
      && ParseFrame(w[..k]).Ok? && ParseFrame(w[..k]).value.remainingToRead == Some(|w| - k)
      && AppendChunk(ParseFrame(w[..k]).value, w[k..]) == Decoded(opcode, payload, mask, key).(remainingToRead := Some(0))
  {
    ParseConstructed(opcode, payload, mask, key, []);
    EncodedHeader(opcode, payload, mask, key, []);
    EncodeFrameLayout(opcode, payload, mask, key);
    var w := EncodeFrame(opcode, payload, mask, key).value;
    assert w + [] == w;
    SplitFrameReassembles(w, k);
  }

  /** The text "ab" masked with key 1 2 3 4 is sent as 0x60 0x60. */
  lemma EncodedAb()
    ensures EncodeFrame(Text, [0x61, 0x62], true, [1, 2, 3, 4]) == Ok([0x81, 0x82, 1, 2, 3, 4, 0x60, 0x60])
  {
    var key: MaskKey := [1, 2, 3, 4];
    MaskedAb();
    assert LengthHeader(true, 2) == Ok([0x82]);
    assert [0x80 + Text] + [0x82] + (key + [0x60, 0x60]) == [0x81, 0x82, 1, 2, 3, 4, 0x60, 0x60];
  }

  lemma MaskedAb()
    ensures Mask([0x61, 0x62], [1, 2, 3, 4]) == [0x60, 0x60]
  {
    var masked := Mask([0x61, 0x62], [1, 2, 3, 4]);
    assert Xor(0x61, 1) == 0x60 && Xor(0x62, 2) == 0x60;
    assert masked[0] == 0x60 && masked[1] == 0x60;
  }

  /** As written, the second chunk of a masked frame stays masked: the
      text "ab" sent with key 1 2 3 4 and cut after its first payload octet
      is received as "a`". The defect is latent: as written the first chunk
      of a masked frame already throws (`ParseFrameAsWritten`), so it shows
      only once the parser keeps the key and reads masked frames. */
  lemma SplitMaskedFrameCorruptedAsWritten()
    ensures
      var w: seq<Byte> := [0x81, 0x82, 1, 2, 3, 4, 0x60, 0x60];
      && EncodeFrame(Text, [0x61, 0x62], true, [1, 2, 3, 4]) == Ok(w)
      && ParseFrameAsWritten(w[..7]) == Err(TypeError)
      && ParseFrame(w[..7]).Ok? && ParseFrame(w[..7]).value.remainingToRead == Some(1)
      && AppendChunk(ParseFrame(w[..7]).value, w[7..]).payload == [0x61, 0x62]
      && AppendChunkAsWritten(ParseFrame(w[..7]).value, w[7..]).payload == [0x61, 0x60]
  {
    var key: MaskKey := [1, 2, 3, 4];
    EncodedAb();
    SplitEncodedFrame(Text, [0x61, 0x62], true, key, 7);
    var w: seq<Byte> := [0x81, 0x82, 1, 2, 3, 4, 0x60, 0x60];
    var p := ParseFrame(w[..7]).value;
    var whole := AppendChunk(p, w[7..]).payload;
    assert whole == [0x61, 0x62];
    assert |whole| == |p.payload| + 1 && whole[0] == p.payload[0];
    assert p.payload == [0x61];
    assert w[7..] == [0x60];
  }

  /** What `constructCloseMessage` writes parses back to a close frame,
      complete in the buffer, whose payload decodes to the status code (as
      the unsigned value of its two octets) and the reason; with no status
      code the payload is empty and reads as code 0. */
  lemma {:induction false} CloseMessageParses(statusCode: Option<int>, reason: Option<seq<Byte>>, key: MaskKey)
    requires ConstructCloseMessage(statusCode, reason, key).Ok?
    ensures
      var f := ParseFrame(ConstructCloseMessage(statusCode, reason, key).value);
      && f.Ok? && f.value.opcode == Close && f.value.fin && f.value.remainingToRead.None?
      && DecodeClose(f.value.payload) == Ok(
           if statusCode.None? then CloseInfo(0, NoReasonGiven)
           else CloseInfo(if statusCode.value < 0 then statusCode.value + 65536 else statusCode.value,
                          if reason.GetOr([]) == [] then NoReasonGiven else reason.GetOr([])))
  {
    var payload := if statusCode.None? then [] else ClosePayload(statusCode.value, reason.GetOr([]));
    var w := ConstructCloseMessage(statusCode, reason, key).value;
    ParseConstructed(Close, payload, true, key, []);
    assert w + [] == w;
    if statusCode.Some? {
      ClosePayloadRoundTrip(statusCode.value, reason.GetOr([]));
    }
  }

  /** A connected peer as `receiveFrame` sees it: `currentFrame` is the
      frame whose payload is still arriving, absent when none is. */
  class Client {
    var currentFrame: Option<Frame>

    ghost predicate Valid()
      reads this
    {
      currentFrame.Some? ==> currentFrame.value.remainingToRead.Some?
    }

    constructor ()
      ensures Valid() && currentFrame.None?
    {
      currentFrame := None;
    }

    /** `receiveFrame(client, bytes)` for one socket chunk, with `key` the
        masking key drawn for any reply. A chunk that continues a frame is
        appended to it; when the count of octets to read reaches 0 the frame
        is handled and dropped, and when it goes below 0 an error is thrown
        (the frame keeps the appended chunk). Otherwise the chunk starts a new
        frame: an incomplete one is kept, a complete one is handled. A frame
        whose handling throws is not dropped. */
    method ReceiveFrame(bytes: seq<Byte>, key: MaskKey) returns (r: Result<seq<Effect>>)
      requires Valid()
      modifies this
      ensures Valid()
      ensures old(currentFrame).Some? ==>
        var g := AppendChunk(old(currentFrame).value, bytes);
        var left := g.remainingToRead.value;
        && (left < 0 ==> r == Err(ReadPastFrameEnd) && currentFrame == Some(g))
        && (left == 0 ==> r == HandleMessage(g.opcode, g.payload, key)
                          && currentFrame == (if r.Ok? then None else Some(g)))
        && (left > 0 ==> r == Ok([]) && currentFrame == Some(g))
      ensures old(currentFrame).None? ==>
        match ParseFrame(bytes)
        case Err(e) => r == Err(e) && currentFrame.None?
        case Ok(f) =>
          if f.remainingToRead.Some? then r == Ok([]) && currentFrame == Some(f)
          else r == HandleMessage(f.opcode, f.payload, key) && currentFrame.None?
    {
      if currentFrame.Some? {
        var frame := AppendChunk(currentFrame.value, bytes);
        currentFrame := Some(frame);
        if frame.remainingToRead.value < 0 {
          r := Err(ReadPastFrameEnd);
        } else if frame.remainingToRead.value == 0 {
          r := HandleMessage(frame.opcode, frame.payload, key);
          if r.Ok? {
            currentFrame := None;
          }
        } else {
          r := Ok([]);
        }
      } else {
        var msg := ParseFrame(bytes);
        if msg.Err? {
          r := Err(msg.error);
        } else if msg.value.remainingToRead.Some? {
          currentFrame := Some(msg.value);
          r := Ok([]);
        } else {
          r := HandleMessage(msg.value.opcode, msg.value.payload, key);
        }
      }
    }
  }
}
