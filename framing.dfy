/** The frame writer and the close-frame payload shared by nocket.js and
    nodesock.js. The two files hold the same `constructFrame`,
    `constructCloseMessage` and close-payload decoding; this module models
    that code once (nocket.js lines are cited, nodesock.js lines are given
    beside them). */
module Framing {
  import opened Wire
  import opened Masking

  /** The 4-bit opcode of a frame (section 5.2 of RFC 6455). */
  type Opcode = x: nat | x < 16

  const Continuation: Opcode := 0x0
  const Text: Opcode := 0x1
  const Binary: Opcode := 0x2
  const Close: Opcode := 0x8
  const Ping: Opcode := 0x9
  const Pong: Opcode := 0xA

  /** The largest payload a frame with a 16-bit extended length can carry. */
  const MaxShortPayload := 65535

  /** Octet 1 (mask bit and 7-bit length) followed by the extended payload
      length, for a payload of `n` octets. Lengths up to 125 are written in
      the 7-bit field; up to 65535 the field holds 126 and two big-endian
      octets follow; longer payloads are refused (frames of more than 65535
      octets, with the 64-bit length, are not implemented). */
  function LengthHeader(mask: bool, n: nat): (r: Result<seq<Byte>>)
    ensures r.Ok? <==> n <= MaxShortPayload
    ensures r.Ok? ==>
      && |r.value| == (if n < 126 then 1 else 3)
      && (r.value[0] >= 128 <==> mask)
      && r.value[0] % 128 == (if n < 126 then n else 126)
      && (n >= 126 ==> BigEndian(r.value[1..]) == n)
  {
    var maskBit := if mask then 128 else 0;
    if n < 126 then Ok([maskBit + n])
    else if n <= MaxShortPayload then
      BigEndianPair(n / 256, n % 256);
      assert [maskBit + 126, n / 256, n % 256][1..] == [n / 256, n % 256];
      Ok([maskBit + 126, n / 256, n % 256])
    else Err(PayloadTooLong)
  }

  /** `LengthHeader` with the bound the code writes, `payload.length < 65535`
      (nocket.js:321, nodesock.js:281): a payload of exactly 65535 octets is
      refused although its length fits the 16-bit field. */
  function LengthHeaderAsWritten(mask: bool, n: nat): (r: Result<seq<Byte>>)
    ensures r.Ok? <==> n < 65535
  {
    var maskBit := if mask then 128 else 0;
    if n < 126 then Ok([maskBit + n])
    else if n < 65535 then Ok([maskBit + 126, n / 256, n % 256])
    else Err(PayloadTooLong)
  }

  lemma Rejects65535AsWritten(mask: bool)
    ensures LengthHeaderAsWritten(mask, 65535) == Err(PayloadTooLong)
    ensures LengthHeader(mask, 65535).Ok?
    ensures BigEndian(LengthHeader(mask, 65535).value[1..]) == 65535
  {
    BigEndianPair(255, 255);
    assert LengthHeader(mask, 65535).value[1..] == [255, 255];
  }

  /** The frame `constructFrame(opcode, payload, mask)` builds when the
      random masking key comes out as `key`: fin set, rsv1-3 clear, the
      opcode, the length header, then (when masked) the key and the masked
      payload (sections 5.2 and 5.3 of RFC 6455). */
  function EncodeFrame(opcode: Opcode, payload: seq<Byte>, mask: bool, key: MaskKey): (r: Result<seq<Byte>>)
    ensures r.Ok? <==> |payload| <= MaxShortPayload
    ensures r.Ok? ==> |r.value| == HeaderSize(|payload|) + (if mask then 4 else 0) + |payload|
  {
    match LengthHeader(mask, |payload|)
    case Err(e) => Err(e)
    case Ok(len) => Ok([0x80 + opcode] + len + (if mask then key + Mask(payload, key) else payload))
  }

  /** The octets of a frame header before the masking key. */
  function HeaderSize(n: nat): nat {
    if n < 126 then 2 else 4
  }

  /** `constructFrame` writes the frame octet by octet into an array with a
      running `bytesWritten` counter: the two fixed octets, the extended
      length, the key, then the (masked) payload. */
  method ConstructFrame(opcode: Opcode, payload: seq<Byte>, mask: bool, key: MaskKey) returns (r: Result<seq<Byte>>)
    ensures r == EncodeFrame(opcode, payload, mask, key)
  {
    var n := |payload|;
    if n > MaxShortPayload {
      assert LengthHeader(mask, n) == Err(PayloadTooLong);
      return Err(PayloadTooLong);
    }
    var frame := new Byte[HeaderSize(n) + (if mask then 4 else 0) + n];
    var bytesWritten := WriteHeader(frame, opcode, mask, n);
    WriteBody(frame, bytesWritten, payload, mask, key);
    assert frame[..] == frame[..bytesWritten] + frame[bytesWritten..];
    r := Ok(frame[..]);
  }

  /** The part of `constructFrame` that writes the two fixed octets and the
      extended length, returning the `bytesWritten` count after them. */
  method WriteHeader(frame: array<Byte>, opcode: Opcode, mask: bool, n: nat) returns (bytesWritten: nat)
    requires n <= MaxShortPayload && HeaderSize(n) <= frame.Length
    modifies frame
    ensures bytesWritten == HeaderSize(n)
    ensures frame[..bytesWritten] == [0x80 + opcode] + LengthHeader(mask, n).value
    ensures frame[bytesWritten..] == old(frame[HeaderSize(n)..])
  {
    bytesWritten := 0;
    // fin = 1, rsv1 = rsv2 = rsv3 = 0; `|=` on disjoint bits is addition
    frame[0] := 0x80 + opcode;
    frame[1] := if mask then 128 else 0;
    if n < 126 {
      frame[1] := frame[1] + n;
    } else {
      frame[1] := frame[1] + 126;
      bytesWritten := bytesWritten + 2;
      frame[2] := n / 256;
      frame[3] := n % 256;
    }
    bytesWritten := bytesWritten + 2;
  }

  /** The part of `constructFrame` after the header: the key, when masked,
      then the (masked) payload, from offset `at` to the end of the frame. */
  method WriteBody(frame: array<Byte>, at: nat, payload: seq<Byte>, mask: bool, key: MaskKey)
    requires at + (if mask then 4 else 0) + |payload| == frame.Length
    modifies frame
    ensures frame[..at] == old(frame[..at])
    ensures frame[at..] == if mask then key + Mask(payload, key) else payload
  {
    var bytesWritten := at;
    var payloadBytes := payload;
    if mask {
      CopyInto(frame, bytesWritten, key);
      bytesWritten := bytesWritten + 4;
      payloadBytes := ApplyMask(payloadBytes, key);
    }
    CopyInto(frame, bytesWritten, payloadBytes);
    if mask {
      assert frame[at..] == frame[at..at + 4] + frame[at + 4..];
    }
  }

  /** The loops of `constructFrame` that copy the key and the payload into
      the frame from offset `at` on. */
  method CopyInto(frame: array<Byte>, at: nat, data: seq<Byte>)
    requires at + |data| <= frame.Length
    modifies frame
    ensures frame[..at] == old(frame[..at])
    ensures frame[at..at + |data|] == data
    ensures frame[at + |data|..] == old(frame[at + |data|..])
  {
    for i := 0 to |data|
      invariant frame[..at] == old(frame[..at])
      invariant frame[at + |data|..] == old(frame[at + |data|..])
      invariant frame[at..at + i] == data[..i]
    {
      frame[at + i] := data[i];
    }
  }

  /** The first m octets are the first k and the ones from k to m. */
  lemma Split(a: seq<Byte>, k: nat, m: nat)
    requires k <= m <= |a|
    ensures a[..m] == a[..k] + a[k..m]
  {
  }

  /** The layout of every frame the writer produces (section 5.2 of RFC 6455). */
  lemma EncodeFrameLayout(opcode: Opcode, payload: seq<Byte>, mask: bool, key: MaskKey)
    ensures EncodeFrame(opcode, payload, mask, key).Ok? <==> |payload| <= MaxShortPayload
    ensures EncodeFrame(opcode, payload, mask, key).Ok? ==>
      var f, n, h := EncodeFrame(opcode, payload, mask, key).value, |payload|, HeaderSize(|payload|);
      && |f| == h + (if mask then 4 else 0) + n
      && f[0] == 0x80 + opcode
      && (f[1] >= 128 <==> mask)
      && f[1] % 128 == (if n < 126 then n else 126)
      && (n >= 126 ==> BigEndian(f[2..4]) == n)
      && (mask ==> f[h..h + 4] == key && f[h + 4..] == Mask(payload, key))
      && (!mask ==> f[h..] == payload)
  {
    var n := |payload|;
    if n <= MaxShortPayload {
      var f := EncodeFrame(opcode, payload, mask, key).value;
      var len := LengthHeader(mask, n).value;
      assert f == [0x80 + opcode] + len + (if mask then key + Mask(payload, key) else payload);
      if n >= 126 {
        assert f[2..4] == [n / 256, n % 256];
        BigEndianPair(n / 256, n % 256);
      }
    }
  }

  /** The reason text the close echo carries. */
  const ReceivedClose: seq<Byte> := Ascii("received close message")

  /** The reason reported when a close frame carries none. */
  const NoReasonGiven: seq<Byte> := Ascii("no reason given")

  /** The payload `constructCloseMessage(statusCode, reason)` means to
      build: the status code as a big-endian 16-bit value, then the reason
      (section 5.5.1 of RFC 6455). */
  function ClosePayload(statusCode: int, reason: seq<Byte>): (r: seq<Byte>)
    requires -32768 <= statusCode < 32768
    ensures |r| == 2 + |reason| && r[2..] == reason
    ensures BigEndian(r[..2]) == if statusCode < 0 then statusCode + 65536 else statusCode
  {
    assert (Int16BE(statusCode) + reason)[..2] == Int16BE(statusCode);
    Int16BE(statusCode) + reason
  }

  /** The payload the code builds: `buf.write(text, 'utf8')` has no offset
      argument, so the reason is written from offset 0 over the status code
      that `writeInt16BE` stored there (nocket.js:287-290,
      nodesock.js:237-240). */
  function ClosePayloadAsWritten(statusCode: int, reason: seq<Byte>): (r: seq<Byte>)
    requires -32768 <= statusCode < 32768
    ensures |r| == 2 + |reason| && r[..|reason|] == reason
    ensures |reason| >= 2 ==> r[2..] == reason[2..] + [0, 0]
  {
    var buf := Int16BE(statusCode) + seq(|reason|, i => 0);
    reason + buf[|reason|..]
  }

  /** The close echo of both servers, `constructCloseMessage(0, "received
      close message")`, starts with the reason text, not with status 0. */
  lemma CloseEchoAsWritten()
    ensures ClosePayloadAsWritten(0, ReceivedClose) == ReceivedClose + [0, 0]
    ensures ClosePayloadAsWritten(0, ReceivedClose)[..2] != [0, 0]
    ensures ClosePayload(0, ReceivedClose)[..2] == [0, 0]
  {
    assert ReceivedClose[0] == 'r' as int;
  }

  /** `constructCloseMessage(statusCode, reason)` with the masking key it
      draws: a close frame (opcode 8); without a status code the payload is
      empty. `writeInt16BE` throws for a code outside the signed 16-bit range. */
  function ConstructCloseMessage(statusCode: Option<int>, reason: Option<seq<Byte>>, key: MaskKey): (r: Result<seq<Byte>>)
    ensures r.Ok? <==> statusCode.None? || (-32768 <= statusCode.value < 32768 && 2 + |reason.GetOr([])| <= MaxShortPayload)
    ensures r.Ok? ==> |r.value| >= 6 && r.value[0] == 0x88 && r.value[1] >= 128
    ensures statusCode.None? ==> r == EncodeFrame(Close, [], true, key)
    ensures statusCode.Some? && -32768 <= statusCode.value < 32768 ==>
      r == EncodeFrame(Close, ClosePayload(statusCode.value, reason.GetOr([])), true, key)
  {
    EncodeFrameLayout(Close, [], true, key);
    match statusCode
    case None => EncodeFrame(Close, [], true, key)
    case Some(code) =>
      if -32768 <= code < 32768 then
        EncodeFrameLayout(Close, ClosePayload(code, reason.GetOr([])), true, key);
        EncodeFrame(Close, ClosePayload(code, reason.GetOr([])), true, key)
      else Err(RangeError)
  }

  /** What a close frame's payload reports: the status code and the reason. */
  datatype CloseInfo = CloseInfo(statusCode: nat, reason: seq<Byte>)

  /** The decoding of a close payload the code means: no payload gives code 0
      and "no reason given"; otherwise octets 0-1 are the big-endian code and
      any further octets the reason (section 5.5.1 of RFC 6455).
      `readUInt16BE(0)` throws on a one-octet payload. */
  function DecodeClose(payload: seq<Byte>): (r: Result<CloseInfo>)
    ensures r.Err? <==> |payload| == 1
    ensures r.Ok? ==> r.value.statusCode < 65536
  {
    if |payload| == 0 then Ok(CloseInfo(0, NoReasonGiven))
    else if |payload| == 1 then Err(RangeError)
    else
      BigEndianPair(payload[0], payload[1]);
      assert payload[..2] == [payload[0], payload[1]];
      Ok(CloseInfo(BigEndian(payload[..2]), if |payload| > 2 then payload[2..] else NoReasonGiven))
  }

  /** The decoding as written (nocket.js:246-253, nodesock.js:197-204): an
      empty Buffer is truthy, so `readUInt16BE(0)` runs and throws on it, and
      Buffer has no `split` method, so any reason throws a TypeError. Only a
      payload of exactly two octets is decoded. */
  function DecodeCloseAsWritten(payload: seq<Byte>): (r: Result<CloseInfo>)
    ensures r.Ok? <==> |payload| == 2
    ensures r.Ok? ==> r.value.statusCode == payload[0] as int * 256 + payload[1]
  {
    if |payload| < 2 then Err(RangeError)
    else if |payload| > 2 then Err(TypeError)
    else
      assert payload == [payload[0], payload[1]];
      BigEndianPair(payload[0], payload[1]);
      Ok(CloseInfo(BigEndian(payload), NoReasonGiven))
  }

  lemma CloseWithReasonFailsAsWritten()
    ensures DecodeCloseAsWritten([0x03, 0xE8, 'b' as int, 'y' as int, 'e' as int]) == Err(TypeError)
    ensures DecodeCloseAsWritten([]) == Err(RangeError)
    ensures DecodeClose([0x03, 0xE8, 'b' as int, 'y' as int, 'e' as int]) == Ok(CloseInfo(1000, Ascii("bye")))
    ensures DecodeClose([]) == Ok(CloseInfo(0, NoReasonGiven))
  {
    var p: seq<Byte> := [0x03, 0xE8, 'b' as int, 'y' as int, 'e' as int];
    assert p[..2] == [0x03, 0xE8];
    BigEndianPair(0x03, 0xE8);
    assert p[2..] == Ascii("bye");
  }

  /** Decoding a close payload recovers the status code (as the unsigned
      value of its two octets) and the reason. */
  lemma {:induction false} ClosePayloadRoundTrip(statusCode: int, reason: seq<Byte>)
    requires -32768 <= statusCode < 32768
    ensures DecodeClose(ClosePayload(statusCode, reason))
         == Ok(CloseInfo(if statusCode < 0 then statusCode + 65536 else statusCode,
                         if reason == [] then NoReasonGiven else reason))
  {
    var p := ClosePayload(statusCode, reason);
    assert p[..2] == Int16BE(statusCode);
    assert |reason| > 0 ==> p[2..] == reason;
  }

  // Reading a frame header: nocket.js and nodesock.js read the fixed
  // octets, the masking key and the payload the same way.

  /** The 7-bit length field of octet 1. */
  function LengthField(bytes: seq<Byte>): nat {
    At(bytes, 1) % 128
  }

  function Masked(bytes: seq<Byte>): bool {
    At(bytes, 1) >= 128
  }

  /** The octets before the payload: two fixed ones, the 2- or 8-octet
      extended length when the length field is 126 or 127, the 4-octet key
      when the mask bit is set. */
  function HeaderLength(bytes: seq<Byte>): nat {
    var len7 := LengthField(bytes);
    2 + (if len7 == 126 then 2 else if len7 == 127 then 8 else 0) + (if Masked(bytes) then 4 else 0)
  }

  /** `bytes.slice(start, start + 4)` used as a key: an octet past the end
      is undefined, and `^ undefined` XORs with 0. */
  function KeyAt(bytes: seq<Byte>, start: nat): MaskKey {
    [At(bytes, start), At(bytes, start + 1), At(bytes, start + 2), At(bytes, start + 3)]
  }

  /** The masking key, when the mask bit is set. */
  function KeyOf(bytes: seq<Byte>): Option<MaskKey> {
    if Masked(bytes) then Some(KeyAt(bytes, HeaderLength(bytes) - 4)) else None
  }

  /** Payload octets as received, unmasked when there is a key, the first
      of them at payload offset `offset`. */
  function Unmasked(raw: seq<Byte>, key: Option<MaskKey>, offset: nat): seq<Byte> {
    match key
    case Some(k) => MaskFrom(raw, k, offset)
    case None => raw
  }

  /** The payload octets present in the buffer, unmasked. */
  function PayloadOf(bytes: seq<Byte>, len: nat): seq<Byte> {
    Unmasked(Slice(bytes, HeaderLength(bytes), HeaderLength(bytes) + len), KeyOf(bytes), 0)
  }

  /** What the parser sees at the front of an encoded frame, whatever follows it. */
  lemma {:induction false} EncodedHeader(opcode: Opcode, payload: seq<Byte>, mask: bool, key: MaskKey, rest: seq<Byte>)
    requires |payload| <= MaxShortPayload
    ensures EncodeFrame(opcode, payload, mask, key).Ok?
    ensures
      var w := EncodeFrame(opcode, payload, mask, key).value + rest;
      var h := HeaderSize(|payload|) + (if mask then 4 else 0);
      && At(w, 0) == 0x80 + opcode
      && Masked(w) == mask
      && LengthField(w) == (if |payload| < 126 then |payload| else 126)
      && (|payload| >= 126 ==> |w| >= 4 && BigEndian(w[2..4]) == |payload|)
      && HeaderLength(w) == h
      && KeyOf(w) == (if mask then Some(key) else None)
      && w[h..h + |payload|] == (if mask then Mask(payload, key) else payload)
  {
    EncodeFrameLayout(opcode, payload, mask, key);
    var f := EncodeFrame(opcode, payload, mask, key).value;
    var w := f + rest;
    var n, h0 := |payload|, HeaderSize(|payload|);
    assert w[..|f|] == f;
    assert At(w, 0) == f[0] && At(w, 1) == f[1];
    if n >= 126 {
      assert w[2..4] == f[2..4];
    }
    if mask {
      assert w[h0..h0 + 4] == f[h0..h0 + 4] == key;
      assert HeaderLength(w) - 4 == h0;
      assert KeyAt(w, h0) == [w[h0], w[h0 + 1], w[h0 + 2], w[h0 + 3]] == key;
      assert w[h0 + 4..h0 + 4 + n] == f[h0 + 4..];
    } else {
      assert w[h0..h0 + n] == f[h0..];
    }
  }

  /** What the application sees or the socket receives when a frame is handled. */
  datatype Event =
    | Data(payload: seq<Byte>)                      // 'data'
    | End(statusCode: nat, reason: seq<Byte>)       // 'end'
    | PongReceived(payload: seq<Byte>)              // 'pong'

  datatype Effect =
    | Fire(event: Event)            // fireEvent(client, …)
    | Write(frame: seq<Byte>)       // client.socket.write(frame)
    | EndSocket(frame: seq<Byte>)   // client.socket.end(frame)

  /** The close branch of `handleMessage` and `handleFrame`: report the code
      and reason, then end the socket with the close echo, masked with
      `key`. */
  function ReceiveClose(payload: seq<Byte>, key: MaskKey): (r: Result<seq<Effect>>)
    ensures r.Err? <==> |payload| == 1
    ensures r.Ok? ==> |r.value| == 2 && r.value[0].Fire? && r.value[0].event.End? && r.value[1].EndSocket?
    ensures r.Ok? ==> r.value[0].event.statusCode == DecodeClose(payload).value.statusCode
    ensures r.Ok? ==> r.value[0].event.reason == DecodeClose(payload).value.reason
    ensures r.Ok? ==> r.value[1].frame == EncodeFrame(Close, ClosePayload(0, ReceivedClose), true, key).value
  {
    match DecodeClose(payload)
    case Err(e) => Err(e)
    case Ok(info) =>
      var reply := ConstructCloseMessage(Some(0), Some(ReceivedClose), key);
      Ok([Fire(End(info.statusCode, info.reason)), EndSocket(reply.value)])
  }
}
