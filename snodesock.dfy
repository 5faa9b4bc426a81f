/** snodesock.js: a TLS WebSocket client that builds and reads frames as
    strings of binary digits held in `BitStream`s. */
module Snodesock {
  import opened Wire
  import opened Bits
  import opened BitStreams

  /** The four octets of the masking key every frame is sent with (line
      136), high octet first, and the key as a number. */
  const KeyOctets: seq<Byte> := [0x12, 0x34, 0x56, 0x78]
  const MaskingKey: nat := BigEndian(KeyOctets)

  /** `addBits(v, w)` appends these digits: v in binary, padded to w. */
  function Digits(v: nat, w: nat): seq<bool> {
    Pad(Binary(v), w)
  }

  /** The key's 32 digits, as `addBits(maskingKey, 32)` writes them. */
  function KeyDigits(): (r: seq<bool>)
    ensures |r| == 32 && BitsToNat(r) == MaskingKey
  {
    FromBytesValue(KeyOctets);
    PadBinary(MaskingKey, 32);
    Digits(MaskingKey, 32)
  }

  /** The key is 0x12345678. */
  lemma KeyNumber()
    ensures MaskingKey == 0x12345678
  {
    var hi: seq<Byte> := [0x12, 0x34];
    BigEndianPair(0x12, 0x34);
    BigEndianSnoc(hi, 0x56);
    BigEndianSnoc(hi + [0x56], 0x78);
    assert hi + [0x56] + [0x78] == KeyOctets;
  }

  /** The key digits are those of its octets, one after the other. */
  lemma KeyOctetDigits()
    ensures KeyDigits() == FromBytes(KeyOctets)
  {
    FromBytesValue(KeyOctets);
    BitsInjective(KeyDigits(), FromBytes(KeyOctets));
  }

  /** The key's first 16 digits read as 0x1234. */
  lemma KeyHigh()
    ensures BitsToNat(KeyDigits()[..16]) == 0x1234
  {
    var hi: seq<Byte>, lo: seq<Byte> := [0x12, 0x34], [0x56, 0x78];
    assert KeyOctets == hi + lo;
    KeyOctetDigits();
    FromBytesAppend(hi, lo);
    assert KeyDigits()[..16] == FromBytes(hi);
    FromBytesValue(hi);
    BigEndianPair(0x12, 0x34);
  }

  // Writing frames.

  /** The first nine digits `buildWSFrame` writes: fin 1, rsv 000, the
      opcode in four digits and the mask bit 1. */
  function Fixed(opcode: nat): seq<bool> {
    Digits(1, 1) + Digits(0, 3) + Digits(opcode, 4) + Digits(1, 1)
  }

  /** The length digits for a payload of n octets, by section 5.2 of RFC
      6455: up to 125 in the 7-bit field, up to 65535 as 126 and 16
      digits, beyond that as 127 and 64 digits. */
  function LengthBits(n: nat): (r: seq<bool>)
    ensures |r| >= 7
    ensures n < Pow2(64) ==> |r| == (if n <= 125 then 7 else if n <= 65535 then 23 else 71)
    ensures n < Pow2(64) ==> BitsToNat(r[..7]) == (if n <= 125 then n else if n <= 65535 then 126 else 127)
    ensures 125 < n < Pow2(64) ==> BitsToNat(r[7..]) == n
  {
    if n > 65535 then
      if n < Pow2(64) then
        MarkedDigits(127, n, 64);
        Digits(127, 7) + Digits(n, 64)
      else Digits(127, 7) + Digits(n, 64)
    else if n > 125 then
      Powers();
      MarkedDigits(126, n, 16);
      Digits(126, 7) + Digits(n, 16)
    else
      Powers();
      PadBinary(n, 7);
      assert Digits(n, 7)[..7] == Digits(n, 7);
      Digits(n, 7)
  }

  /** A marker in 7 digits followed by a count in w digits reads back as
      the marker and the count. */
  lemma MarkedDigits(marker: nat, n: nat, w: nat)
    requires marker < 128 && 1 <= w && n < Pow2(w)
    ensures
      var s := Digits(marker, 7) + Digits(n, w);
      |s| == 7 + w && BitsToNat(s[..7]) == marker && BitsToNat(s[7..]) == n
  {
    Powers();
    PadBinary(marker, 7);
    PadBinary(n, w);
    var m, d := Digits(marker, 7), Digits(n, w);
    assert (m + d)[..7] == m && (m + d)[7..] == d;
  }

  /** The length digits as written (line 154): `> 127` puts 126 and 127
      into the 7-bit field, where a reader takes them for the markers of an
      extended length. */
  function LengthBitsAsWritten(n: nat): (r: seq<bool>)
    ensures r == LengthBits(n) <==> n < 126 || 127 < n
    ensures 126 <= n <= 127 ==> |r| == 7 && BitsToNat(r) == n
  {
    Powers();
    Pow2Mono(16, 64);
    if 126 <= n <= 127 then
      PadBinary(n, 7);
      Digits(n, 7)
    else
    if n > 65535 then Digits(127, 7) + Digits(n, 64)
    else if n > 127 then Digits(126, 7) + Digits(n, 16)
    else Digits(n, 7)
  }

  /** A frame with the given length and key digits: the fixed digits, the
      length, the key, then the payload digits XORed with the key, which
      repeats every 32 digits. */
  function FrameWith(opcode: nat, payload: seq<bool>, length: seq<bool>, key: seq<bool>): seq<bool>
    requires |key| == 32
  {
    Fixed(opcode) + length + key + XorWith(payload, key)
  }

  /** The digits `buildWSFrame(opcode, text)` returns, with the length
      field of section 5.2 of RFC 6455. */
  function FrameBits(opcode: nat, text: seq<CodeUnit>): (r: seq<bool>)
    ensures |r| == |Fixed(opcode)| + |LengthBits(CeilBytes(|StringBits(text)|))| + 32 + |StringBits(text)|
    ensures XorWith(r[|r| - |StringBits(text)|..], KeyDigits()) == StringBits(text)
  {
    var payload := StringBits(text);
    var length := LengthBits(CeilBytes(|payload|));
    var masked := XorWith(payload, KeyDigits());
    XorWithTwice(payload, KeyDigits());
    assert (Fixed(opcode) + length + KeyDigits() + masked)[|Fixed(opcode)| + |length| + 32..] == masked;
    FrameWith(opcode, payload, LengthBits(CeilBytes(|payload|)), KeyDigits())
  }

  /** The digits `buildWSFrame(opcode, text)` returns as written. */
  function FrameBitsAsWritten(opcode: nat, text: seq<CodeUnit>): (r: seq<bool>)
    ensures r == FrameBits(opcode, text) <==> CeilBytes(|StringBits(text)|) != 126 && CeilBytes(|StringBits(text)|) != 127
  {
    var payload := StringBits(text);
    FrameWith(opcode, payload, LengthBitsAsWritten(CeilBytes(|payload|)), KeyDigits())
  }

  /** The part of `buildWSFrame` that writes fin, rsv, the opcode and the
      mask bit. */
  method AddFixed(dataFrame: BitStream, opcode: nat)
    modifies dataFrame
    ensures dataFrame.binary == old(dataFrame.binary) + Fixed(opcode)
  {
    ghost var before := dataFrame.binary;
    dataFrame.AddBits(1, 1);
    dataFrame.AddBits(0, 3);
    dataFrame.AddBits(opcode, 4);
    dataFrame.AddBits(1, 1);
    Reassociate4(before, Digits(1, 1), Digits(0, 3), Digits(opcode, 4), Digits(1, 1));
  }

  lemma Reassociate4(s: seq<bool>, a: seq<bool>, b: seq<bool>, c: seq<bool>, d: seq<bool>)
    ensures s + a + b + c + d == s + (a + b + c + d)
  {
  }

  /** The part of `buildWSFrame` that writes the payload length: the
      marker 127 or 126 when the count needs the 64 or 16 digits after it,
      then the count. */
  method AddPayloadLength(dataFrame: BitStream, payloadNumBytes: nat)
    modifies dataFrame
    ensures dataFrame.binary == old(dataFrame.binary) + LengthBits(payloadNumBytes)
  {
    ghost var head := dataFrame.binary;
    var numBitsForPayloadLength := 7;
    if payloadNumBytes > 65535 {
      dataFrame.AddBits(127, 7);
      numBitsForPayloadLength := 64;
    } else if payloadNumBytes > 125 {
      dataFrame.AddBits(126, 7);
      numBitsForPayloadLength := 16;
    }
    dataFrame.AddBits(payloadNumBytes, numBitsForPayloadLength);
    if payloadNumBytes > 125 {
      Reassociate3(head, Digits(if payloadNumBytes > 65535 then 127 else 126, 7), Digits(payloadNumBytes, numBitsForPayloadLength));
    }
  }

  /** `buildWSFrame(opcode, data)`, `data` being the string
      `JSON.stringify` produced: the payload stream holds the string's
      digits, the frame stream the header; the payload is XORed with the
      key and appended. */
  method BuildWSFrame(opcode: nat, text: seq<CodeUnit>) returns (dataFrame: BitStream)
    ensures fresh(dataFrame)
    ensures dataFrame.binary == FrameBits(opcode, text)
  {
    var payloadBits := new BitStream();
    dataFrame := new BitStream();
    payloadBits.AddString(text);
    EmptyPrefix(StringBits(text));

    AddFixed(dataFrame, opcode);
    EmptyPrefix(Fixed(opcode));
    var payloadNumBytes := payloadBits.NumBytes();
    AddPayloadLength(dataFrame, payloadNumBytes);
    ghost var header := Fixed(opcode) + LengthBits(payloadNumBytes);
    assert dataFrame.binary == header;

    dataFrame.AddBits(MaskingKey, 32);
    payloadBits.Xor(MaskingKey, 32);
    assert payloadBits.binary == XorWith(StringBits(text), KeyDigits());
    dataFrame.Append(payloadBits);
    assert dataFrame.binary == header + KeyDigits() + XorWith(StringBits(text), KeyDigits());
  }

  // Reading frames.

  /** What `parseInt(s, 2)` gives: NaN for the empty string. */
  datatype Num = NaN | N(n: nat)

  function ParseInt(s: seq<bool>): (r: Num)
    ensures r.N? <==> s != []
  {
    if s == [] then NaN else N(BitsToNat(s))
  }

  /** `binString[i] == '1'`, false past the end. */
  function Bit(s: seq<bool>, i: nat): bool {
    i < |s| && s[i]
  }

  /** `s.substr(k, s.length - k)`: what follows position k. */
  function Drop(s: seq<bool>, k: nat): (r: seq<bool>)
    ensures k <= |s| ==> r == s[k..]
    ensures k >= |s| ==> r == []
  {
    if k >= |s| then [] else s[k..]
  }

  /** The object `parseDataFrame` builds. The payload is the octets of the
      payload digits (`toBuffer`), not unmasked. */
  datatype DataFrame = DataFrame(
    fin: bool, rsv: seq<bool>, opcode: Num, masked: bool, payloadLen: Num,
    extendedPayloadLength: Option<Num>, maskingKey: Option<Num>, payload: seq<Byte>)

  datatype Parsed = Parsed(frame: DataFrame, remainingData: seq<bool>)

  /** The number of digits before the payload: 16, the extended length when
      the 7-bit field is 126 or 127, and the key when the mask bit is set. */
  function PayloadStart(bin: seq<bool>): nat {
    var len := ParseInt(Substr(bin, 9, 7));
    16 + (if len == N(126) then 16 else if len == N(127) then 64 else 0) + (if Bit(bin, 8) then 32 else 0)
  }

  /** `parseDataFrame(binString)`: one frame from the front of the digit
      string, and the digits after it. A NaN payload length (the string
      ends before the length field) makes the payload empty and `currentBit`
      NaN, so nothing remains. */
  function ParseDataFrame(bin: seq<bool>): (r: Parsed)
    ensures |r.remainingData| <= |bin| && r.remainingData == bin[|bin| - |r.remainingData|..]
    ensures r.remainingData == [] || |r.remainingData| <= |bin| - 16
  {
    var payloadLen := ParseInt(Substr(bin, 9, 7));
    var bitsToRead := if payloadLen == N(126) then 16 else if payloadLen == N(127) then 64 else 0;
    var extended := if bitsToRead > 0 then Some(ParseInt(Substr(bin, 16, bitsToRead))) else None;
    var payloadLength := if bitsToRead > 0 then extended.value else payloadLen;
    var masked := Bit(bin, 8);
    var key := if masked then Some(ParseInt(Substr(bin, 16 + bitsToRead, 32))) else None;
    var start := PayloadStart(bin);
    var payloadBits := if payloadLength.N? then Substr(bin, start, 8 * payloadLength.n) else [];
    var rest := if payloadLength.N? then Drop(bin, start + 8 * payloadLength.n) else [];
    Parsed(DataFrame(Bit(bin, 0), Substr(bin, 1, 3), ParseInt(Substr(bin, 4, 4)), masked, payloadLen,
                     extended, key, ToBytes(payloadBits)),
           rest)
  }

  /** The frames `parseData` reads off a digit string, one after the other
      until no digits are left. */
  function Frames(bin: seq<bool>): seq<DataFrame>
    decreases |bin|
  {
    if bin == [] then []
    else
      var p := ParseDataFrame(bin);
      [p.frame] + Frames(p.remainingData)
  }

  /** One step of `Frames`. */
  lemma FramesStep(bin: seq<bool>)
    requires bin != []
    ensures Frames(bin) == [ParseDataFrame(bin).frame] + Frames(ParseDataFrame(bin).remainingData)
  {
  }

  /** `parseData(data)`: the chunk's digits, read frame after frame. */
  method ParseData(data: seq<Byte>) returns (frames: seq<DataFrame>)
    ensures frames == Frames(FromBytes(data))
  {
    var stream := new BitStream();
    stream.FromBuffer(data);
    var binary := stream.binary;
    frames := [];
    while |binary| > 0
      invariant frames + Frames(binary) == Frames(FromBytes(data))
      decreases |binary|
    {
      var obj := ParseDataFrame(binary);
      assert Frames(binary) == [obj.frame] + Frames(obj.remainingData);
      frames := frames + [obj.frame];
      binary := obj.remainingData;
    }
  }

  // The round trip.

  /** The frame `parseDataFrame` reads from a frame `buildWSFrame` wrote
      with key digits `key`: fin, rsv 000, the opcode, the mask bit, the
      length fields, the key and the payload octets still masked. */
  function Expected(opcode: nat, payload: seq<bool>, key: seq<bool>): DataFrame
    requires |payload| % 8 == 0 && |key| == 32
  {
    var n := |payload| / 8;
    DataFrame(true, [false, false, false], N(opcode), true,
              N(if n > 65535 then 127 else if n > 125 then 126 else n),
              if n > 125 then Some(N(n)) else None,
              Some(N(BitsToNat(key))), ToBytes(XorWith(payload, key)))
  }

  /** Where the parser's fields fall in a frame of fixed digits F, length
      digits L, key digits K and payload digits X, followed by R. */
  lemma Fields(F: seq<bool>, L: seq<bool>, K: seq<bool>, X: seq<bool>, R: seq<bool>, w: nat)
    requires |F| == 9 && |K| == 32 && 7 + w <= |L|
    ensures var bin := F + L + K + X + R;
      && bin[0] == F[0] && bin[8] == F[8]
      && Substr(bin, 1, 3) == F[1..4] && Substr(bin, 4, 4) == F[4..8]
      && Substr(bin, 9, 7) == L[..7] && Substr(bin, 16, w) == L[7..7 + w]
      && Substr(bin, 9 + |L|, 32) == K && Substr(bin, 41 + |L|, |X|) == X
      && Drop(bin, 41 + |L| + |X|) == R
  {
    var bin := F + L + K + X + R;
    assert bin == F + (L + (K + (X + R)));
    assert bin[9 + |L| .. 41 + |L|] == K;
    assert bin[41 + |L| .. 41 + |L| + |X|] == X;
  }

  /** The parser on a frame laid out as fixed digits F (fin 1, rsv 000, the
      opcode, mask 1), a 7-bit length field holding `code` followed by `w`
      digits of extended length, 32 key digits, the payload digits X, and
      R after them: every field is read where it was written, the payload
      length names exactly X, and R remains. */
  lemma ReadLaid(F: seq<bool>, L: seq<bool>, K: seq<bool>, X: seq<bool>, R: seq<bool>, opcode: nat, code: nat, w: nat)
    requires |F| == 9 && F[0] && F[8] && F[1..4] == [false, false, false] && ParseInt(F[4..8]) == N(opcode)
    requires |K| == 32 && |X| % 8 == 0
    requires |L| == 7 + w && ParseInt(L[..7]) == N(code)
    requires w == (if code == 126 then 16 else if code == 127 then 64 else 0)
    requires (if w > 0 then ParseInt(L[7..]) else N(code)) == N(|X| / 8)
    ensures ParseDataFrame(F + L + K + X + R)
         == Parsed(DataFrame(true, [false, false, false], N(opcode), true, N(code),
                             if w > 0 then Some(N(|X| / 8)) else None, Some(N(BitsToNat(K))), ToBytes(X)), R)
  {
    Fields(F, L, K, X, R, w);
    assert L[7..7 + w] == L[7..];
    var bin := F + L + K + X + R;
    assert PayloadStart(bin) == 41 + |L|;
    assert 8 * (|X| / 8) == |X|;
  }

  /** The fixed digits of an opcode below 16. */
  lemma FixedLayout(opcode: nat)
    requires opcode < 16
    ensures |Fixed(opcode)| == 9
    ensures Fixed(opcode)[0] && Fixed(opcode)[8]
    ensures Fixed(opcode)[1..4] == [false, false, false]
    ensures ParseInt(Fixed(opcode)[4..8]) == N(opcode)
  {
    assert Pow2(4) == 16;
    PadBinary(opcode, 4);
    SmallDigits();
    assert Digits(0, 3) == [false, false, false];
    var f := Fixed(opcode);
    assert f == [true] + [false, false, false] + Digits(opcode, 4) + [true];
    assert f[4..8] == Digits(opcode, 4);
  }

  /** A value padded to a width it fits in reads back as itself. */
  lemma DigitsValue(v: nat, w: nat)
    requires 1 <= w && v < Pow2(w)
    ensures |Digits(v, w)| == w && ParseInt(Digits(v, w)) == N(v)
  {
    PadBinary(v, w);
  }

  lemma Powers()
    ensures Pow2(4) == 16 && Pow2(7) == 128 && Pow2(16) == 65536
  {
    Pow2Add(8, 8);
  }

  /** The two markers of an extended length, in the 7-bit field. */
  lemma Markers()
    ensures |Digits(126, 7)| == 7 && ParseInt(Digits(126, 7)) == N(126)
    ensures |Digits(127, 7)| == 7 && ParseInt(Digits(127, 7)) == N(127)
  {
    Powers();
    DigitsValue(126, 7);
    DigitsValue(127, 7);
  }

  /** The parts of a concatenation. */
  lemma Parts(a: seq<bool>, b: seq<bool>)
    ensures (a + b)[..|a|] == a && (a + b)[|a|..] == b
  {
  }

  /** The length digits of more than 65535 octets: 127, then the count in
      64 digits. */
  lemma LongLength(n: nat)
    requires 65535 < n < Pow2(64)
    ensures |LengthBits(n)| == 71
    ensures ParseInt(LengthBits(n)[..7]) == N(127) && ParseInt(LengthBits(n)[7..]) == N(n)
  {
    var m, d := Digits(127, 7), Digits(n, 64);
    assert LengthBits(n) == m + d;
    DigitsValue(n, 64);
    Markers();
    Parts(m, d);
  }

  /** The length digits of 126 to 65535 octets: 126, then the count in 16
      digits. */
  lemma MediumLength(n: nat)
    requires 125 < n <= 65535
    ensures |LengthBits(n)| == 23
    ensures ParseInt(LengthBits(n)[..7]) == N(126) && ParseInt(LengthBits(n)[7..]) == N(n)
  {
    var m, d := Digits(126, 7), Digits(n, 16);
    assert LengthBits(n) == m + d;
    assert n < Pow2(16) by { Powers(); }
    DigitsValue(n, 16);
    Markers();
    Parts(m, d);
  }

  /** The length digits of up to 125 octets: the count in the 7-bit field. */
  lemma ShortLength(n: nat)
    requires n <= 125
    ensures |LengthBits(n)| == 7 && ParseInt(LengthBits(n)[..7]) == N(n)
  {
    assert n < Pow2(7) by { Powers(); }
    DigitsValue(n, 7);
    assert Digits(n, 7)[..7] == Digits(n, 7);
  }

  /** Round trip: a frame `buildWSFrame` writes with key digits `key`,
      whatever follows it, is read back as its header fields and its masked
      payload, and the digits after it are what remains. */
  lemma ParseBuilt(opcode: nat, payload: seq<bool>, key: seq<bool>, rest: seq<bool>)
    requires opcode < 16 && |payload| % 8 == 0 && |payload| / 8 < Pow2(64) && |key| == 32
    ensures ParseDataFrame(FrameWith(opcode, payload, LengthBits(|payload| / 8), key) + rest)
         == Parsed(Expected(opcode, payload, key), rest)
  {
    var n := |payload| / 8;
    var F, L, X := Fixed(opcode), LengthBits(n), XorWith(payload, key);
    assert |X| / 8 == n;
    FixedLayout(opcode);
    if n > 65535 {
      LongLength(n);
      ReadLaid(F, L, key, X, rest, opcode, 127, 64);
    } else if n > 125 {
      MediumLength(n);
      ReadLaid(F, L, key, X, rest, opcode, 126, 16);
    } else {
      ShortLength(n);
      ReadLaid(F, L, key, X, rest, opcode, n, 0);
    }
  }

  /** A frame handed to `buildWSFrame`: its opcode and its payload digits. */
  datatype Sent = Sent(opcode: nat, payload: seq<bool>)

  /** An opcode that fits its four digits and a whole number of octets
      whose count fits the 64-digit length. */
  predicate Sendable(s: Sent) {
    s.opcode < 16 && |s.payload| % 8 == 0 && |s.payload| / 8 < Pow2(64)
  }

  /** Every frame of a run is sendable. */
  predicate AllSendable(sent: seq<Sent>) {
    sent == [] || (Sendable(sent[0]) && AllSendable(sent[1..]))
  }

  /** The digits of frames written one after the other with key digits
      `key`. */
  function Stream(sent: seq<Sent>, key: seq<bool>): seq<bool>
    requires |key| == 32
  {
    if sent == [] then []
    else FrameWith(sent[0].opcode, sent[0].payload, LengthBits(|sent[0].payload| / 8), key) + Stream(sent[1..], key)
  }

  /** What the reader should make of those frames, in order. */
  function ExpectedAll(sent: seq<Sent>, key: seq<bool>): seq<DataFrame>
    requires |key| == 32 && AllSendable(sent)
  {
    if sent == [] then []
    else [Expected(sent[0].opcode, sent[0].payload, key)] + ExpectedAll(sent[1..], key)
  }

  /** The first frame of a run is read as written, and the reader goes on
      with the rest. */
  lemma BuiltStep(s: Sent, key: seq<bool>, rest: seq<bool>)
    requires |key| == 32 && Sendable(s)
    ensures Frames(FrameWith(s.opcode, s.payload, LengthBits(|s.payload| / 8), key) + rest)
         == [Expected(s.opcode, s.payload, key)] + Frames(rest)
  {
    var first := FrameWith(s.opcode, s.payload, LengthBits(|s.payload| / 8), key);
    ParseBuilt(s.opcode, s.payload, key, rest);
    FramesStep(first + rest);
  }

  /** `parseData` reads a run of frames `buildWSFrame` wrote as those
      frames, in order. */
  lemma {:induction false} FramesOfBuilt(sent: seq<Sent>, key: seq<bool>)
    requires |key| == 32 && AllSendable(sent)
    ensures Frames(Stream(sent, key)) == ExpectedAll(sent, key)
  {
    if sent != [] {
      var s := sent[0];
      var rest := Stream(sent[1..], key);
      var first := FrameWith(s.opcode, s.payload, LengthBits(|s.payload| / 8), key);
      assert Stream(sent, key) == first + rest;
      BuiltStep(s, key, rest);
      FramesOfBuilt(sent[1..], key);
    }
  }

  /** The lengths of k octets' digits. */
  lemma EightFold(k: nat)
    ensures (8 * k) % 8 == 0 && (8 * k) / 8 == k && CeilBytes(8 * k) == k
  {
  }

  /** A string without NUL, sent by `write`, is read back with the key
      0x12345678 and, unmasked, its UTF-8 octets as payload. */
  lemma ReadWritten(opcode: nat, text: seq<CodeUnit>, rest: seq<bool>)
    requires opcode < 16 && forall i :: 0 <= i < |text| ==> text[i] != 0
    requires |Utf8Encode(text)| < Pow2(64)
    ensures var p := ParseDataFrame(FrameBits(opcode, text) + rest);
      && p.remainingData == rest
      && p.frame.maskingKey == Some(N(MaskingKey))
      && p.frame.opcode == N(opcode)
      && FromBytes(p.frame.payload) == XorWith(FromBytes(Utf8Encode(text)), KeyDigits())
      && ToBytes(XorWith(FromBytes(p.frame.payload), KeyDigits())) == Utf8Encode(text)
  {
    var u := Utf8Encode(text);
    StringBitsOctets(text);
    var payload := FromBytes(u);
    EightFold(|u|);
    ParseBuilt(opcode, payload, KeyDigits(), rest);
    var masked := XorWith(payload, KeyDigits());
    FromBytesToBytes(masked);
    XorWithTwice(payload, KeyDigits());
    ToBytesFromBytes(u);
  }

  /** What the parser makes of a 7-bit field of 126 with no extended
      length after it: the first 16 digits that follow, here those of the
      key, as the extended length. */
  lemma ReadMarkerOnly(F: seq<bool>, L: seq<bool>, K: seq<bool>, X: seq<bool>, R: seq<bool>)
    requires |F| == 9 && |K| == 32 && |L| == 7 && ParseInt(L) == N(126)
    ensures var p := ParseDataFrame(F + L + K + X + R);
      p.frame.payloadLen == N(126) && p.frame.extendedPayloadLength == Some(ParseInt(K[..16]))
  {
    Fields(F, L, K, X, R, 0);
    var bin := F + L + K + X + R;
    assert bin == F + L + (K + X + R);
    assert bin[16..32] == K[..16];
    assert L[..7] == L;
  }

  /** As written, a 126-octet payload is announced as 126 in the 7-bit
      field, so the reader takes the first 16 digits of the key, 0x1234, for
      an extended length; with the length field of RFC 6455 it reads 126. */
  lemma Length126AsWritten(opcode: nat, payload: seq<bool>, rest: seq<bool>)
    requires opcode < 16 && |payload| == 8 * 126
    ensures var p := ParseDataFrame(FrameWith(opcode, payload, LengthBitsAsWritten(126), KeyDigits()) + rest);
      p.frame.payloadLen == N(126) && p.frame.extendedPayloadLength == Some(N(0x1234))
    ensures ParseDataFrame(FrameWith(opcode, payload, LengthBits(126), KeyDigits()) + rest).frame.extendedPayloadLength == Some(N(126))
  {
    var K := KeyDigits();
    Markers();
    FixedLayout(opcode);
    ReadMarkerOnly(Fixed(opcode), LengthBitsAsWritten(126), K, XorWith(payload, K), rest);
    KeyHigh();
    Powers();
    Pow2Mono(16, 64);
    EightFold(126);
    ParseBuilt(opcode, payload, K, rest);
  }

  // The client.

  /** The events the client reports. */
  datatype WssEvent = Connected | Data(frame: DataFrame)

  /** The `wss` client: its handshake flag. The socket and the callbacks
      are not part of the state here; events come back as a list. */
  class Wss {
    var protocolSwitched: bool

    constructor ()
      ensures !protocolSwitched
    {
      protocolSwitched := false;
    }

    /** The socket's `data` handler: the first chunk is the handshake
        reply, which switches the protocol and reports `connected`; every
        later chunk is read as frames, each reported as `data`, in order. */
    method OnData(data: seq<Byte>) returns (events: seq<WssEvent>)
      modifies this
      ensures protocolSwitched
      ensures !old(protocolSwitched) ==> events == [Connected]
      ensures old(protocolSwitched) ==>
        && |events| == |Frames(FromBytes(data))|
        && forall i :: 0 <= i < |events| ==> events[i] == Data(Frames(FromBytes(data))[i])
    {
      if !protocolSwitched {
        protocolSwitched := true;
        events := [Connected];
      } else {
        var frames := ParseData(data);
        events := [];
        for i := 0 to |frames|
          invariant |events| == i && forall j :: 0 <= j < i ==> events[j] == Data(frames[j])
        {
          events := events + [Data(frames[i])];
        }
      }
    }

    /** `write(data, opcode)`: the octets of the frame `buildWSFrame`
        builds, which go to the socket. */
    method Write(text: seq<CodeUnit>, opcode: nat) returns (out: seq<Byte>)
      ensures out == ToBytes(FrameBits(opcode, text))
    {
      var df := BuildWSFrame(opcode, text);
      out := df.ToBuffer();
    }
  }
}
