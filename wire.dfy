/** Values shared by the three frame codecs: octets, masking keys, the
    exceptions the JavaScript code throws, and Node.js Buffer access rules. */
module Wire {

  /** One octet of a Node.js Buffer. */
  type Byte = b: int | 0 <= b < 256

  /** A masking key: four octets (section 5.3 of RFC 6455). */
  type MaskKey = k: seq<Byte> | |k| == 4 witness [0, 0, 0, 0]

  datatype Option<+T> = None | Some(value: T) {
    function GetOr(default: T): T {
      match this
      case Some(v) => v
      case None => default
    }
  }

  /** The exceptions thrown by the JavaScript code, one constructor per cause. */
  datatype Error =
    | PayloadTooLong                // constructFrame: "payload too long, need cont. frames but NYI"
    | RangeError                    // a Buffer read or write outside the buffer or the value range
    | TypeError                     // a call of a missing method, BigInt mixed with Number, a const reassigned
    | ReadPastFrameEnd              // receiveFrame: "read too far after a frame end"
    | ExtendedLengthNotImplemented  // nodesock parseFrame: "NYI: Extended payload length"
    | UnhandledOpcode(opcode: nat)  // nodesock handleFrame: "unhandled opcode"

  /** A value, or the exception that was thrown instead. */
  datatype Result<+T> = Ok(value: T) | Err(error: Error)

  /** Bitwise exclusive or of the low `width` bits of two naturals, as
      JavaScript's `^` computes it on octets. */
  function XorBits(a: nat, b: nat, width: nat): (r: nat)
    ensures r < Pow2(width)
  {
    if width == 0 then 0
    else 2 * XorBits(a / 2, b / 2, width - 1) + (if a % 2 == b % 2 then 0 else 1)
  }

  function Pow2(k: nat): (r: nat)
    ensures r >= 1
  {
    if k == 0 then 1 else 2 * Pow2(k - 1)
  }

  /** Bitwise exclusive or of two octets. */
  function Xor(a: Byte, b: Byte): Byte {
    assert Pow2(8) == 256;
    XorBits(a, b, 8)
  }

  lemma {:induction false} XorBitsCancel(a: nat, k: nat, width: nat)
    requires a < Pow2(width)
    ensures XorBits(XorBits(a, k, width), k, width) == a
  {
    if width > 0 {
      var x := XorBits(a, k, width);
      assert x / 2 == XorBits(a / 2, k / 2, width - 1);
      XorBitsCancel(a / 2, k / 2, width - 1);
    }
  }

  /** Masking an octet twice with the same key octet restores it. */
  lemma XorCancel(a: Byte, k: Byte)
    ensures Xor(Xor(a, k), k) == a
  {
    assert Pow2(8) == 256;
    XorBitsCancel(a, k, 8);
  }

  /** `buf[i]` in JavaScript: past the end it is undefined, which every
      bitwise operator reads as 0. */
  function At(s: seq<Byte>, i: nat): (r: Byte)
    ensures i < |s| ==> r == s[i]
    ensures i >= |s| ==> r == 0
  {
    if i < |s| then s[i] else 0
  }

  /** `buf.slice(from, to)`: both ends are clamped to the buffer. */
  function Slice<T>(s: seq<T>, from: nat, to: nat): (r: seq<T>)
    ensures |r| == if from >= |s| || to <= from then 0 else (if to < |s| then to else |s|) - from
    ensures from <= to <= |s| ==> r == s[from..to]
  {
    var a := if from < |s| then from else |s|;
    var b := if to < a then a else if to < |s| then to else |s|;
    s[a..b]
  }

  /** The unsigned big-endian value of a sequence of octets. */
  function BigEndian(s: seq<Byte>): (r: nat)
    ensures r < Pow2(8 * |s|)
  {
    if s == [] then 0
    else
      var high := BigEndian(s[..|s| - 1]);
      Pow2Octet(|s| - 1);
      assert high * 256 <= (Pow2(8 * (|s| - 1)) - 1) * 256;
      high * 256 + s[|s| - 1]
  }

  /** One more octet multiplies the range by 256. */
  lemma Pow2Octet(k: nat)
    ensures Pow2(8 * (k + 1)) == 256 * Pow2(8 * k)
  {
    var n := 8 * k;
    assert Pow2(n + 8) == 2 * Pow2(n + 7) == 4 * Pow2(n + 6) == 8 * Pow2(n + 5) == 16 * Pow2(n + 4);
    assert Pow2(n + 4) == 2 * Pow2(n + 3) == 4 * Pow2(n + 2) == 8 * Pow2(n + 1) == 16 * Pow2(n);
  }

  lemma BigEndianPair(hi: Byte, lo: Byte)
    ensures BigEndian([hi, lo]) == hi * 256 + lo
  {
    var s := [hi, lo];
    assert s[..|s| - 1] == [hi];
    assert [hi][..0] == [];
    assert BigEndian([hi]) == BigEndian([]) * 256 + hi;
    assert BigEndian(s) == BigEndian([hi]) * 256 + lo;
  }

  lemma BigEndianSnoc(s: seq<Byte>, b: Byte)
    ensures BigEndian(s + [b]) == BigEndian(s) * 256 + b
  {
    assert (s + [b])[..|s|] == s;
  }

  /** The two octets `buf.writeInt16BE(v)` stores for a value in the signed
      16-bit range: two's complement, high octet first. */
  function Int16BE(v: int): (r: seq<Byte>)
    requires -32768 <= v < 32768
    ensures |r| == 2
    ensures BigEndian(r) == if v < 0 then v + 65536 else v
  {
    var u := if v < 0 then v + 65536 else v;
    BigEndianPair(u / 256, u % 256);
    [u / 256, u % 256]
  }

  /** `Buffer.from("…")` for a string of ASCII characters. */
  function Ascii(s: string): (r: seq<Byte>)
    requires forall i :: 0 <= i < |s| ==> s[i] as int < 128
    ensures |r| == |s|
  {
    seq(|s|, i requires 0 <= i < |s| => s[i] as int)
  }
}
