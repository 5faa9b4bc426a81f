# WebSocket frame codecs and the BitStream buffer, in Dafny

This project models the frame-level core of a small hand-written WebSocket
implementation (RFC 6455) and proves properties of it. The implementation
holds three codecs:

- **nocket.js** — a server with a byte-level frame writer and parser, the
  dispatch of a received message, and a per-client frame in progress whose
  payload may arrive in several socket chunks.
- **nodesock.js** — an older server with the same writer, masking and
  close message, a parser for 7-bit lengths only, the dispatch of a frame,
  and the ping and pong builders.
- **snodesock.js** — a TLS client that builds and reads frames as strings
  of binary digits, held in the `BitStream` class of **BitStream.js**. That
  class has its own helpers `requiredBytes` and `encodeUTF8`.

Modules, one per concern:

| file | module | models |
|---|---|---|
| wire.dfy | `Wire` | octets, JavaScript buffer access (`buf[i]`, `slice`), big-endian values, `writeInt16BE`, the errors the code throws |
| masking.dfy | `Masking` | `applyMask` (nocket.js and nodesock.js hold the same code) |
| framing.dfy | `Framing` | `constructFrame` and `constructCloseMessage`, the close-payload decoding, the shared header reading (the same code in nocket.js and nodesock.js) |
| nocket.dfy | `Nocket` | `parseFrame`, `handleMessage`, `receiveFrame` and the client's frame in progress |
| nodesock.dfy | `Nodesock` | `parseFrame`, `constructPingMessage`, `constructPongMessage`, `handleFrame`, `receiveFrames` |
| bits.dfy | `Bits` | digit strings: `toString(2)`, `parseInt(s, 2)`, `substr`, octets to digits and back |
| bitstream.dfy | `BitStreams` | the `BitStream` class, `requiredBytes`, `encodeUTF8` |
| snodesock.dfy | `Snodesock` | `buildWSFrame`, `parseDataFrame`, `parseData`, and the `wss` client's data handler and `write` |

The model keeps the code's own form:

- Code that fills arrays, loops or updates objects is written as methods
  with loop invariants. This covers `constructFrame`, `applyMask`, the
  `BitStream` methods, `requiredBytes`, `encodeUTF8`, `buildWSFrame` and
  `parseData`.
- Objects whose fields change are classes: `Nocket.Client`,
  `BitStreams.BitStream` and `Snodesock.Wss`.
- Each method is proved against a function that specifies it.
- Straight-line code is written as functions. This covers the parsers,
  the close payload and the dispatch.
- Socket writes and fired events are returned as a list of effects.
- The random masking key is a parameter.

Each defect in the code is modelled twice: once as written, with a lemma
that exhibits the failing input, and once corrected. The rest of the model
uses the corrected version (see "## Findings").

Facts about the code that bound the model:

- `constructFrame` throws for a payload of 65535 octets or more
  (nocket.js:329-331). There is no path that writes a 64-bit length.
- There is no message reassembler and no closing state. In nocket.js a
  continuation frame (opcode 0) reaches the default case of
  `handleMessage` and is only logged (nocket.js:268-271); nodesock.js
  ignores it (nodesock.js:184-185).
- nodesock.js ignores pongs (nodesock.js:215-218); nocket.js fires
  `pong` (nocket.js:264-266).

## Model

| member | source | states |
|---|---|---|
| Masking.ApplyMask | nocket.js:426-434 | the result has the input's length and octet i is input[i] XOR key[i mod 4]; it equals `Mask` (nodesock.js:392-400 is the same code) |
| Masking.MaskTwice | nocket.js:424-434 | masking twice with the same key restores the octets, so the one function masks and unmasks |
| Masking.MaskFromTwice | nocket.js:424-434 | the same from any payload offset |
| Masking.MaskFromSplit | nocket.js:426-434 | masking a + b equals masking a, then b from offset \|a\| |
| Wire.At | nocket.js:362-368 | `bytes[i]` is the octet at i, or `undefined` (read as 0 by the bit operations) past the end |
| Wire.Slice | nocket.js:389-395 | `slice(start, end)` clamps both ends to the buffer and is empty when they cross |
| Wire.BigEndian | nocket.js:376-382 | the big-endian value of n octets is below 2^(8n) |
| Wire.Int16BE | nocket.js:289 | `writeInt16BE` stores two octets whose big-endian value is v, or v + 65536 for a negative v |
| Framing.LengthHeader | nocket.js:315-331 | a length below 126 goes in the 7-bit field; up to 65535 the field is 126 and two big-endian octets follow; longer payloads are refused (corrected bound) |
| Framing.LengthHeaderAsWritten | nocket.js:318-331 | as written a header is produced iff the payload is below 65535 octets |
| Framing.Rejects65535AsWritten | nocket.js:321 | with `< 65535` a 65535-octet payload is refused, although the corrected header carries it and reads back as 65535 |
| Framing.ConstructFrame | nocket.js:299-356 | the array the method fills, with its `bytesWritten` cursor and copy loops, is `EncodeFrame`: fin, opcode, length header, key, masked payload; it throws `PayloadTooLong` past 65535 octets (nodesock.js:259-316) |
| Framing.WriteHeader | nocket.js:306-333 | the fixed octets and the extended length it writes are octet 0x80 \| opcode followed by the `LengthHeader` octets; `bytesWritten` ends at 2, or 4 with an extended length; the octets after the header are unchanged |
| Framing.WriteBody | nocket.js:333-353 | after the header it writes the key when masked, then the payload masked with it (or as given), up to the end of the frame; the header octets are unchanged |
| Framing.CopyInto | nocket.js:340-342 | the copy loop writes the data at the offset and leaves the octets before and after it unchanged |
| Framing.EncodeFrame | nocket.js:299-356 | a frame is produced iff the payload is at most 65535 octets (corrected bound); its size is the header, the key when masked, and the payload |
| Framing.ClosePayload | nocket.js:280-292 | the corrected payload: the status code's two octets, whose big-endian value is the code (+ 65536 when negative), then the reason |
| Framing.EncodeFrameLayout | nocket.js:306-355 | the frame is produced iff the payload is at most 65535 octets; octet 0 is 0x80 \| opcode; bit 7 of octet 1 is set iff masked; the 7-bit field and the extended length; the key after the header; the masked payload; the total size |
| Framing.ClosePayloadAsWritten | nocket.js:287-290 | as written the payload has 2 + \|reason\| octets but starts with the reason, written over the status code; a reason of two or more octets ends in 0 0 |
| Framing.CloseEchoAsWritten | nocket.js:256 | as written, the close echo starts with the octets of "received close message", not with status 0; corrected it starts 0 0 |
| Framing.ConstructCloseMessage | nocket.js:277-296 | the result is a frame iff there is no status code, or the code fits 16 signed bits and the payload 65535 octets; it is a masked close frame (octet 0 is 0x88) whose payload is empty without a status code, else the code's two octets then the reason (corrected, nodesock.js:227-246) |
| Nocket.CloseMessageParses | nocket.js:277-296 | for every status code and reason, the close message parses back to a complete close frame whose payload decodes to the code (unsigned) and the reason, or to code 0 without a code |
| Framing.DecodeClose | nocket.js:242-253 | (corrected) it fails exactly on a one-octet payload; the status code fits 16 bits; an empty payload gives code 0 and "no reason given" |
| Framing.DecodeCloseAsWritten | nocket.js:246-251 | as written a payload decodes iff it has exactly two octets (an empty Buffer is truthy, `Buffer.split` does not exist), to their big-endian value |
| Framing.CloseWithReasonFailsAsWritten | nocket.js:250 | a close payload of code 1000 and reason "bye" throws a TypeError as written; corrected it decodes to 1000 and "bye"; as written an empty payload throws |
| Framing.ClosePayloadRoundTrip | nocket.js:277-296 | decoding the payload `constructCloseMessage` builds gives back the status code (unsigned) and the reason |
| Framing.EncodedHeader | nocket.js:360-391 | on a frame the writer produced, whatever follows it, the reader finds the opcode, the mask bit, the length field, the extended length, the header length, the key and the payload octets where the writer put them |
| Framing.ReceiveClose | nocket.js:242-257 | (corrected) the close branch fails iff the payload is one octet; otherwise it fires `end` with the decoded status code and reason, then ends the socket with the close echo |
| Nocket.PayloadLength | nocket.js:368-383 | the real payload length is the 7-bit field, or `readUInt16BE(2)` when the field is 126 (at most 65535), or the big-endian value of the 8 octets at offset 2 when it is 127 |
| Nocket.ParseFrameAsWritten | nocket.js:360-409 | as written it throws iff the extended length runs past the buffer or the frame is masked (`bytesRead += 4n`, line 390); otherwise it agrees with `ParseFrame` |
| Nocket.ParseFrame | nocket.js:360-409 | it throws iff the extended length runs past the buffer; the key is the one after the header; `remainingToRead` is set iff the frame ends past the buffer, and is then exactly header + payload length − buffer length |
| Nocket.PayloadAccounting | nocket.js:394-400 | the payload octets read plus `remainingToRead` make up the payload length |
| Nocket.Extended16 | nocket.js:374-377 | the 16-bit extended length is the big-endian value of octets 2 and 3 |
| Nocket.ParseConstructed | nocket.js:360-409 | round trip: parsing any frame `constructFrame` writes, whatever follows it, gives fin 1, rsv 0, the opcode, the payload and nothing left to read |
| Nocket.MaskedFrameFailsAsWritten | nocket.js:390 | as written, every masked frame makes the parser throw a TypeError (`bytesRead += 4n`) |
| Nocket.HandleMessage | nocket.js:234-273 | (corrected) text/binary fire `data` with the payload; close fails iff the payload is one octet, otherwise fires `end` with the decoded code and ends the socket with a close frame that parses back to the echo; ping succeeds iff the payload fits, and writes one frame that parses to a pong with the same payload; a pong fires `pong` with its payload; other opcodes give no effect |
| Nocket.PrefixKeepsHeader | nocket.js:360-391 | a buffer cut after the header reads the same header fields, length and key |
| Nocket.PrefixParse | nocket.js:394-400 | a frame cut inside its payload parses to the same frame with the payload so far and exactly the rest to read |
| Nocket.AppendChunk | nocket.js:209-211 | (corrected) the payload keeps its octets and grows by the chunk's length; the new octets are the chunk unmasked from the payload offset (masking them again gives the chunk); the count to read drops by the chunk's length; nothing else changes |
| Nocket.AppendChunkAsWritten | nocket.js:209-211 | as written the chunk is appended as it came; for an unmasked frame this agrees with `AppendChunk` |
| Nocket.SplitFrameReassembles | nocket.js:208-231 | a frame that arrives as two chunks, the first holding the header, gives the same frame as one chunk, with the count reaching exactly 0 |
| Nocket.PrefixPayload | nocket.js:209-211 | the payload so far plus the second chunk, unmasked from where it falls, is the whole payload |
| Nocket.UnmaskedSplit | nocket.js:403-405 | unmasking in two pieces, the second from the first's length, is unmasking whole |
| Nocket.SplitEncodedFrame | nocket.js:208-231 | any frame `constructFrame` writes, cut anywhere in its payload, is reassembled to the decoded frame |
| Nocket.EncodedAb | nocket.js:299-356 | the text "ab" with key 1 2 3 4 is the frame 81 82 01 02 03 04 60 60 |
| Nocket.MaskedAb | nocket.js:426-434 | "ab" masked with key 1 2 3 4 is 60 60 |
| Nocket.SplitMaskedFrameCorruptedAsWritten | nocket.js:210 | that frame cut after its first payload octet is received as written as 61 60, and corrected as "ab"; the defect is latent, since as written its first chunk already throws at line 390 |
| Nocket.Client.constructor | nocket.js:97-100 | a client starts with no frame in progress |
| Nocket.Client.ReceiveFrame | nocket.js:208-231 | with a frame in progress, the chunk is appended and the count lowered; below 0 it throws, at 0 the frame is handled and dropped once handling succeeds, above 0 it waits; otherwise the chunk is parsed, kept when incomplete and handled when whole |
| Nodesock.ParseFrame | nodesock.js:320-374 | it throws iff the 7-bit field is 126 or 127 (not implemented); fin and opcode from octet 0; the key at offset 2; the payload is the 7-bit length, cut short by the buffer |
| Nodesock.ParseConstructed | nodesock.js:320-374 | round trip for payloads under 126 octets, whatever follows the frame |
| Nodesock.ShortRoundTrip | nodesock.js:259-374 | a masked frame under 126 octets alone in the buffer parses back to its opcode and payload |
| Nodesock.LongFrameUnreadable | nodesock.js:347-363 | every frame of 126 octets or more the writer produces makes the parser throw |
| Nodesock.ConstructPingMessage | nodesock.js:249-251 | a frame is produced iff the data fits 65535 octets; under 126 octets it parses to a ping with the data |
| Nodesock.ConstructPongMessage | nodesock.js:254-256 | the same for a pong |
| Nodesock.HandleFrame | nodesock.js:182-223 | (corrected) continuation and pong give nothing; text/binary fire `data` with the payload; close is `ReceiveClose`; a short ping writes one frame that parses to a pong with the same payload; other opcodes throw |
| Nodesock.ReceiveFrames | nodesock.js:175-179 | a 126 or 127 length field throws; otherwise the parsed frame is handled |
| Nodesock.PingAnswered | nodesock.js:211-212 | a peer's ping under 126 octets causes exactly one write, a pong with the ping's payload |
| Nodesock.CloseAnswered | nodesock.js:193-209 | (corrected) a peer's close frame reports its status code and reason, and ends the socket with the close echo |
| Bits.BitsToNat | BitStream.js:93 | `parseInt(s, 2)` of k digits is below 2^k |
| Bits.Binary | BitStream.js:22 | `toString(2)` reads back as n, has no leading zero, and is "0" for 0 |
| Bits.Pad | BitStream.js:24-26 | the padding loop gives max(length, digits) digits |
| Bits.Substr | BitStream.js:190 | `substr` gives the digits in range, at most `length` of them, nothing past the end |
| Bits.XorWith | BitStream.js:76-78 | XOR with the repeating key keeps the length |
| Bits.XorWithTwice | BitStream.js:61-81 | XOR twice with the same key restores the digits |
| Bits.FromBytes | BitStream.js:103-117 | eight digits per octet |
| Bits.FromBytesAt | BitStream.js:106-114 | octet k sits at digits [8k, 8k+8), most significant first |
| Bits.FromBytesValue | BitStream.js:103-117 | the digits read as a number are the octets read big-endian |
| Bits.CeilBytes | BitStream.js:53 | `Math.ceil(n / 8)` is the least r with 8r ≥ n |
| Bits.ToBytes | BitStream.js:87-97 | one octet per started group of eight digits |
| Bits.ToBytesFromBytes | BitStream.js:85-117 | `toBuffer` inverts `fromBuffer` |
| Bits.FromBytesToBytes | BitStream.js:85-117 | `fromBuffer` inverts `toBuffer` when the digit count is a multiple of 8 |
| BitStreams.PadLeft | BitStream.js:24-26 | the padding loop computes `Pad` |
| BitStreams.BitStream.constructor | BitStream.js:12-14 | a new stream is empty |
| BitStreams.BitStream.AddBits | BitStream.js:21-29 | appends max(length, digits of data) digits, 0 counting as one digit; nothing is cut; the appended digits read back as `data` |
| BitStreams.BitStream.AddString | BitStream.js:34-39 | (corrected) appends `StringBits(text)`, each code unit's `encodeUTF8` value padded to whole octets |
| BitStreams.BitStream.Append | BitStream.js:44-46 | the digits become the old digits followed by the other stream's; the other stream is unchanged |
| BitStreams.BitStream.NumBytes | BitStream.js:52-54 | the least r with 8r ≥ the digit count |
| BitStreams.BitStream.Xor | BitStream.js:61-81 | each digit is flipped iff the padded key's digit at i mod key length is 1 |
| BitStreams.BitStream.ToBuffer | BitStream.js:87-97 | the octets are `ToBytes` of the digits |
| BitStreams.BitStream.FromBuffer | BitStream.js:103-117 | the digits become `FromBytes(b)` |
| BitStreams.OctetsFor | BitStream.js:125-133 | r octets hold n (2^(8r) > n) and r − 1 do not |
| BitStreams.RequiredBytes | BitStream.js:125-133 | the counting loop computes `OctetsFor` |
| BitStreams.OctetCount | BitStream.js:149-160 | `numBytes` is 1 to 4, chosen by the thresholds 0x7f, 0x7ff and 0xffff |
| BitStreams.Utf8Octets | BitStream.js:141-205 | the UTF-8 octets of section 3 of RFC 3629 number `OctetCount` |
| BitStreams.FillRounds | BitStream.js:184-202 | the loop appends, round by round, the `remBits` digits of the code point, each octet after the first behind 10 |
| BitStreams.EncodeUTF8 | BitStream.js:141-205 | with the corrected padding, the result is the UTF-8 encoding read as one big-endian number |
| BitStreams.Utf8ValueTwo | BitStream.js:158-159 | the two-octet value is (0xC0 + cp/64)·256 + 0x80 + cp mod 64 |
| BitStreams.Utf8ValueThree | BitStream.js:156-157 | the three-octet value, octet by octet |
| BitStreams.Utf8ValueFour | BitStream.js:154-155 | the four-octet value, octet by octet |
| BitStreams.TwoOctetValue | BitStream.js:184-202 | the rounds over 11 digits of a two-octet code point give its UTF-8 value |
| BitStreams.ThreeOctetValue | BitStream.js:184-202 | the same over 16 digits |
| BitStreams.FourOctetValue | BitStream.js:184-202 | the same over 21 digits |
| BitStreams.CorrectedDigits | BitStream.js:141-205 | with the code point padded to 8, 11, 16 or 21 digits, the digits are its UTF-8 encoding |
| BitStreams.AsWrittenLowTwo | BitStream.js:145 | for 0x80..0xFF the written value is (0xC0 + cp/8)·256 + 0x80 + cp mod 8, never the UTF-8 value |
| BitStreams.AsWrittenHighTwo | BitStream.js:145 | for 0x100..0x7FF the first octet is always C0 and the value is never UTF-8 |
| BitStreams.AsWrittenEAcute | BitStream.js:145 | U+00E9 comes out as DD 81 instead of C3 A9 |
| BitStreams.Utf8AsWritten | BitStream.js:141-205 | as written, the result is right for one- and three-octet code points |
| BitStreams.Utf8ValueOctets | BitStream.js:37 | `requiredBytes` of a nonzero code unit's UTF-8 value is its octet count |
| BitStreams.UnitBitsOctets | BitStream.js:36-37 | for a nonzero code unit, `addString` appends the digits of its UTF-8 octets |
| BitStreams.NulBits | BitStream.js:36-37 | for code unit 0 it appends the single digit 0 |
| BitStreams.StringBitsOctets | BitStream.js:34-39 | for a string without NUL, `addString` appends the digits of its UTF-8 octets |
| BitStreams.AsciiString | BitStream.js:34-39 | an ASCII string without NUL comes out of `toBuffer` as its own code units |
| BitStreams.AsciiLength | BitStream.js:34-39 | such a string adds eight digits per character, so `numBytes` grows by its length |
| BitStreams.AsciiOctets | BitStream.js:36 | an ASCII code unit is its own UTF-8 octet |
| Snodesock.KeyDigits | snodesock.js:162 | the key's 32 digits read back as the key |
| Snodesock.KeyNumber | snodesock.js:136 | the masking key is 0x12345678 |
| Snodesock.KeyOctetDigits | snodesock.js:162 | the key digits are those of octets 12 34 56 78 |
| Snodesock.KeyHigh | snodesock.js:162 | the key's first 16 digits read as 0x1234 |
| Snodesock.AddFixed | snodesock.js:141-144 | appends fin 1, rsv 000, the opcode in four digits, and mask 1 |
| Snodesock.AddPayloadLength | snodesock.js:146-159 | appends 127 and 64 digits past 65535 octets, 126 and 16 digits past 125 octets (corrected), else the count in 7 digits |
| Snodesock.BuildWSFrame | snodesock.js:134-170 | (corrected) returns a fresh stream holding `FrameBits`: fixed digits, length digits, key, and payload XORed with the key |
| Snodesock.ParseInt | snodesock.js:210 | `parseInt` gives a number iff the digit string is not empty, else NaN |
| Snodesock.Drop | snodesock.js:263 | `substr(k, length − k)` is the digits after k, or nothing |
| Snodesock.ParseDataFrame | snodesock.js:199-264 | the remaining digits are a suffix of the input, and unless none remain at least 16 digits were consumed |
| Snodesock.ParseData | snodesock.js:176-190 | the frames are the chunk's digits read frame after frame, in order, until none are left |
| Snodesock.Fields | snodesock.js:208-257 | where each field falls in a laid-out frame |
| Snodesock.ReadLaid | snodesock.js:199-264 | on a frame laid out with fixed digits, length field, key and payload, every field is read where it was written and exactly the digits after it remain |
| Snodesock.FixedLayout | snodesock.js:141-144 | the fixed digits are 9 long: fin 1, rsv 000, the opcode, mask 1 |
| Snodesock.LongLength | snodesock.js:150-153 | past 65535 octets the length digits are 127 and the 64-digit count |
| Snodesock.MediumLength | snodesock.js:154-157 | from 126 to 65535 octets (corrected) they are 126 and the 16-digit count |
| Snodesock.LengthBits | snodesock.js:146-159 | (corrected) for any count below 2^64: up to 125 it is 7 digits reading the count; up to 65535 it is 23 digits, 126 then the count; beyond, 71 digits, 127 then the count |
| Snodesock.LengthBitsAsWritten | snodesock.js:146-159 | as written it differs from `LengthBits` exactly for 126 and 127, which it writes in 7 digits |
| Snodesock.FrameBits | snodesock.js:134-170 | (corrected) the frame is the fixed digits, the length digits, 32 key digits and the payload digits; XORing its last digits with the key gives back the string's digits |
| Snodesock.FrameBitsAsWritten | snodesock.js:134-170 | as written the frame equals the corrected one iff the payload is not 126 or 127 octets |
| Snodesock.ShortLength | snodesock.js:159 | up to 125 octets they are the count in 7 digits |
| Snodesock.ParseBuilt | snodesock.js:134-264 | round trip: a frame `buildWSFrame` writes with any key, whatever follows it, is read back with fin, rsv 000, its opcode, mask, the length fields, the key and the still-masked payload, and what follows remains |
| Snodesock.BuiltStep | snodesock.js:183-187 | the reader takes the first frame of a run as written and goes on with the rest |
| Snodesock.FramesOfBuilt | snodesock.js:176-190 | a run of frames written one after another is read back as those frames, in order |
| Snodesock.EightFold | snodesock.js:148 | `numBytes` of 8k digits is k |
| Snodesock.ReadWritten | snodesock.js:107-264 | a string without NUL sent by `write` is read back with its opcode and key 0x12345678, and its payload unmasked with the key is the string's UTF-8 octets |
| Snodesock.ReadMarkerOnly | snodesock.js:229-242 | a 7-bit field of 126 with no extended length after it makes the reader take the next 16 digits as the length |
| Snodesock.Length126AsWritten | snodesock.js:154 | as written a 126-octet payload is read with extended length 0x1234 (from the key); corrected it reads 126 |
| Snodesock.Wss.constructor | snodesock.js:9-16 | a client starts with the protocol not switched |
| Snodesock.Wss.OnData | snodesock.js:73-91 | the first chunk switches the protocol and reports only `connected`; every later chunk reports one `data` event per parsed frame, in order; the flag stays set |
| Snodesock.Wss.Write | snodesock.js:107-111 | (corrected) the octets sent are `toBuffer` of the frame `buildWSFrame` builds |

## Left out

- Sockets, HTTP upgrade, TLS and URL parsing are I/O and are not part of this model. This covers the servers, `Client.connect`, `prepareClientSocket`, `wss.connect` and the `end`/`error` handlers. Socket writes and ends are returned as `Effect` values.
- `generateAcceptKey` (SHA-1 and base64 from the `crypto` library) is not part of this model.
- `generateWSKey`, `randomBytes` and `generateWebSocketKey` draw random values. Every masking key is a parameter instead.
- `fireEvent`, `propagateEvent` and `on` are string-keyed callback dispatch. Fired events are returned as a list.
- `console.error` logging in `handleMessage` is left out; other opcodes give no effect.
- `Client.end` references an undefined `message` and cannot run, so it is left out.
- Fragment reassembly exists only as commented-out code; continuation frames are not reassembled.
- Floating-point precision is not modelled: `parseInt` of 64 digits and `Number(readBigUInt64BE(...))` are exact naturals.
- `JSON.stringify` in `write` is a library serialiser. The text is given directly as UTF-16 code units.
- The close reason and the payloads are octets. `toString('utf8')` in the close decoding and in `parseDataFrame` is not modelled, so `DataFrame.payload` is the octets `toBuffer` gives.
- `Buffer.write` truncation at a character boundary is not modelled.
- Opcodes of 16 or more are not modelled: the code writes them with four or more digits or ORs them into octet 0. `Opcode` is below 16, and the snodesock round-trip lemmas require `opcode < 16`.
- Snodesock.ParseBuilt: requires the payload's octet count below 2^64, which the 64-digit length field can carry.
- Snodesock.ReadWritten: requires a string without the code unit 0. For 0, `requiredBytes(0)` is 0 and `addString` appends one digit (`NulBits`), so the frame is not octet-aligned.
- BitStreams.EncodeUTF8: models the corrected padding, which is 8, 11, 16 or 21 digits. The code as written is `Utf8AsWritten` (see Findings).
- BitStreams.EncodeUTF8: four-octet code points cannot come from `addString`, whose code units are below 0x10000. They are covered by `CorrectedDigits`; no as-written lemma is given for them.
- Framing.ConstructFrame: models the corrected `<= 65535` bound. The bound as written is `LengthHeaderAsWritten`.
- Framing.ConstructFrame: takes the payload as octets, so the length field and the octets sent always agree. The code writes `Buffer.from(payload)` (nocket.js:304, nodesock.js:264) but takes the length field from `payload.length` (nocket.js:318-327, nodesock.js:278-287). `Client.write` passes a string straight in (nocket.js:135-139, nodesock.js:129-133). For a non-ASCII string the length counts UTF-16 code units while the octets are UTF-8, so "é" is announced as 1 octet and sent as 2. String payloads and this mismatch are not modelled.
- Framing.ConstructCloseMessage: builds the corrected payload, status code then reason. As written it is `ClosePayloadAsWritten`.
- Nocket.ParseFrame: models the evident intent. As written, masked frames throw (`ParseFrameAsWritten`).
- Nocket.Client.ReceiveFrame: unmasks continuation chunks (`AppendChunk`). As written it is `AppendChunkAsWritten`.
- Snodesock.AddPayloadLength: uses the corrected `> 125`. As written it is `LengthBitsAsWritten`.
- Snodesock.Wss.OnData: returns the events. Callbacks that are not registered are not modelled.

## Findings

| source | as written | input that shows it | evidently intended | confidence | as-written member | corrected member |
|---|---|---|---|---|---|---|
| nocket.js:321 | `payload.length < 65535` refuses 65535 octets (also nodesock.js:281) | a payload of 65535 octets | `<= 65535`, the largest 16-bit length | not executed | Framing.Rejects65535AsWritten | Framing.LengthHeader |
| nocket.js:290 | `buf.write(text, 'utf8')` writes the reason from offset 0, over the status code (also nodesock.js:240) | `constructCloseMessage(0, "received close message")` | status code in octets 0-1, reason after it | not executed | Framing.CloseEchoAsWritten | Framing.ClosePayloadRoundTrip |
| nocket.js:246-251 | an empty Buffer is truthy, so `readUInt16BE(0)` throws; `Buffer.split` does not exist (also nodesock.js:197-202) | close payload 03 E8 "bye", or an empty one | code 1000 and reason "bye"; code 0 and "no reason given" | not executed | Framing.CloseWithReasonFailsAsWritten | Framing.DecodeClose |
| nocket.js:390 | `bytesRead += 4n` mixes a BigInt into a Number and throws; `payload` is a const reassigned at line 404 | any masked frame, e.g. the writer's own output | advance by 4 and unmask | not executed | Nocket.MaskedFrameFailsAsWritten | Nocket.ParseConstructed |
| nocket.js:210 | a continuation chunk is appended still masked (latent: as written a masked first chunk already throws at line 390, so this shows once that is fixed) | "ab" masked with key 1 2 3 4, cut after its first payload octet | unmask the chunk from its payload offset | not executed | Nocket.SplitMaskedFrameCorruptedAsWritten | Nocket.SplitFrameReassembles |
| snodesock.js:154 | `> 127` writes 126 and 127 into the 7-bit field, where they mark an extended length | a payload of 126 octets | `> 125` | not executed | Snodesock.Length126AsWritten | Snodesock.ParseBuilt |
| BitStream.js:145 | the code point is padded to whole octets, not to the digits the rounds read | U+00E9 gives DD 81 | C3 A9, the UTF-8 encoding | not executed | BitStreams.AsWrittenEAcute | BitStreams.EncodeUTF8 |
