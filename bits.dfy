/** Bit strings as BitStream.js keeps them: a JavaScript string of '0' and
    '1' characters, here a sequence of booleans (true for '1'), most
    significant bit first. The functions are the JavaScript built-ins the
    class relies on: `n.toString(2)`, `parseInt(s, 2)` and `s.substr`. */
module Bits {
  import opened Wire

  /** `parseInt(s, 2)` for a non-empty string of binary digits: the
      unsigned value, most significant bit first. The value of the empty
      string is 0 here; where the JavaScript result (NaN) matters, the
      callers say so. */
  function BitsToNat(s: seq<bool>): (r: nat)
    ensures r < Pow2(|s|)
  {
    if s == [] then 0 else 2 * BitsToNat(s[..|s| - 1]) + (if s[|s| - 1] then 1 else 0)
  }

  /** The number of binary digits of n without leading zeros (0 for 0). */
  function BitLength(n: nat): nat {
    if n == 0 then 0 else 1 + BitLength(n / 2)
  }

  /** `n.toString(2)`: the binary digits of n, without leading zeros, and
      "0" for 0. */
  function Binary(n: nat): (r: seq<bool>)
    ensures |r| == if n == 0 then 1 else BitLength(n)
    ensures BitsToNat(r) == n
    ensures n > 0 ==> r[0]
  {
    if n < 2 then [n == 1]
    else
      var r := Binary(n / 2) + [n % 2 == 1];
      assert r[..|r| - 1] == Binary(n / 2);
      r
  }

  function Zeros(k: nat): (r: seq<bool>)
    ensures |r| == k && forall i :: 0 <= i < k ==> !r[i]
  {
    seq(k, i => false)
  }

  /** The padding loop `while (s.length < length) s = '0' + s`. */
  function Pad(s: seq<bool>, len: nat): (r: seq<bool>)
    ensures |r| == if |s| < len then len else |s|
  {
    if |s| < len then Zeros(len - |s|) + s else s
  }

  /** `s.substr(start, length)`: the characters from `start` on, at most
      `length` of them; nothing when `start` is past the end. */
  function Substr(s: seq<bool>, start: nat, length: nat): (r: seq<bool>)
    ensures start + length <= |s| ==> r == s[start..start + length]
    ensures start >= |s| ==> r == []
    ensures |r| <= length
  {
    if start >= |s| then []
    else if start + length <= |s| then s[start..start + length]
    else s[start..]
  }

  lemma {:induction false} Pow2Mono(a: nat, b: nat)
    requires a <= b
    ensures Pow2(a) <= Pow2(b)
  {
    if a < b {
      Pow2Mono(a, b - 1);
    }
  }

  lemma {:induction false} Pow2Add(a: nat, b: nat)
    ensures Pow2(a + b) == Pow2(a) * Pow2(b)
  {
    if b > 0 {
      Pow2Add(a, b - 1);
      assert Pow2(a + b) == 2 * Pow2(a + b - 1);
    }
  }

  /** The value of a concatenation: the first part shifted left by the
      length of the second. */
  lemma {:induction false} BitsToNatAppend(x: seq<bool>, y: seq<bool>)
    ensures BitsToNat(x + y) == BitsToNat(x) * Pow2(|y|) + BitsToNat(y)
  {
    if y == [] {
      assert x + y == x;
    } else {
      var y' := y[..|y| - 1];
      assert (x + y)[..|x + y| - 1] == x + y';
      BitsToNatAppend(x, y');
      var b := if y[|y| - 1] then 1 else 0;
      ShiftStep(BitsToNat(x), Pow2(|y'|), BitsToNat(y'), b);
    }
  }

  lemma ShiftStep(a: int, p: int, c: int, b: int)
    ensures 2 * (a * p + c) + b == a * (2 * p) + (2 * c + b)
  {
  }

  lemma {:induction false} ZerosValue(k: nat)
    ensures BitsToNat(Zeros(k)) == 0
  {
    if k > 0 {
      assert Zeros(k)[..k - 1] == Zeros(k - 1);
      ZerosValue(k - 1);
    }
  }

  /** Padding keeps the value. */
  lemma PadValue(s: seq<bool>, len: nat)
    ensures BitsToNat(Pad(s, len)) == BitsToNat(s)
  {
    if |s| < len {
      BitsToNatAppend(Zeros(len - |s|), s);
      ZerosValue(len - |s|);
    }
  }

  /** Two bit strings of one length with one value are equal. */
  lemma {:induction false} BitsInjective(x: seq<bool>, y: seq<bool>)
    requires |x| == |y| && BitsToNat(x) == BitsToNat(y)
    ensures x == y
  {
    if x != [] {
      var n := |x|;
      assert x[n - 1] == y[n - 1];
      BitsInjective(x[..n - 1], y[..n - 1]);
      assert x == x[..n - 1] + [x[n - 1]];
      assert y == y[..n - 1] + [y[n - 1]];
    }
  }

  /** A value below 2^k has at most k digits. */
  lemma {:induction false} BitLengthBound(n: nat, k: nat)
    requires n < Pow2(k)
    ensures BitLength(n) <= k
  {
    if n > 0 {
      assert k > 0;
      BitLengthBound(n / 2, k - 1);
    }
  }

  /** A number of k digits is at least 2^(k-1). */
  lemma {:induction false} BitLengthLower(n: nat)
    requires n > 0
    ensures Pow2(BitLength(n) - 1) <= n
  {
    if n >= 2 {
      BitLengthLower(n / 2);
    }
  }

  /** n is below 2 to the power of its digit count. */
  lemma {:induction false} BitLengthUpper(n: nat)
    ensures n < Pow2(BitLength(n))
  {
    if n > 0 {
      BitLengthUpper(n / 2);
    }
  }

  /** BitLength(n) is the least k with 2^k > n. */
  lemma BitLengthLeast(n: nat, k: nat)
    ensures Pow2(k) > n <==> k >= BitLength(n)
  {
    BitLengthUpper(n);
    if k >= BitLength(n) {
      Pow2Mono(BitLength(n), k);
    } else {
      BitLengthLower(n);
      Pow2Mono(k, BitLength(n) - 1);
    }
  }

  /** A bit string with a leading 1 is what `toString(2)` prints for its
      value. */
  lemma LeadingOne(x: seq<bool>)
    requires |x| >= 1 && x[0]
    ensures Binary(BitsToNat(x)) == x
  {
    var v, rest := BitsToNat(x), x[1..];
    var p := Pow2(|rest|);
    assert x == [true] + rest;
    OneValue();
    BitsToNatAppend([true], rest);
    var t := BitsToNat(rest);
    assert BitsToNat([true] + rest) == BitsToNat([true]) * p + t;
    assert BitsToNat([true]) * p == p;
    assert v == p + t;
    BitLengthLeast(v, |rest|);
    BitLengthLeast(v, |x|);
    assert BitLength(v) == |x|;
    BitsInjective(Binary(v), x);
  }

  lemma OneValue()
    ensures BitsToNat([true]) == 1
  {
    assert [true][..0] == [];
  }

  /** `addBits(n, w)` for a value that fits in w >= 1 bits appends exactly
      w bits whose value is n. */
  lemma PadBinary(n: nat, w: nat)
    requires 1 <= w && n < Pow2(w)
    ensures |Pad(Binary(n), w)| == w && BitsToNat(Pad(Binary(n), w)) == n
  {
    BitLengthBound(n, w);
    PadValue(Binary(n), w);
  }

  /** A fixed-width bit string, printed with `toString(2)` and padded back
      to its width, is unchanged. */
  lemma Reprint(s: seq<bool>)
    requires |s| >= 1
    ensures Pad(Binary(BitsToNat(s)), |s|) == s
  {
    PadBinary(BitsToNat(s), |s|);
    BitsInjective(Pad(Binary(BitsToNat(s)), |s|), s);
  }

  /** Exclusive or with a key repeated every |key| bits: bit i is flipped
      exactly when key bit i mod |key| is 1. */
  function XorWith(bits: seq<bool>, key: seq<bool>): (r: seq<bool>)
    requires |key| >= 1
    ensures |r| == |bits|
  {
    seq(|bits|, i requires 0 <= i < |bits| => bits[i] != key[i % |key|])
  }

  lemma XorWithTwice(bits: seq<bool>, key: seq<bool>)
    requires |key| >= 1
    ensures XorWith(XorWith(bits, key), key) == bits
  {
  }

  /** The eight digits `fromBuffer` writes for one octet. */
  function ByteBits(b: Byte): (r: seq<bool>)
    ensures |r| == 8 && BitsToNat(r) == b
  {
    assert Pow2(8) == 256;
    PadBinary(b, 8);
    Pad(Binary(b), 8)
  }

  /** The octets' digits, one octet after the other, as `fromBuffer` sets
      them. */
  function FromBytes(bs: seq<Byte>): (r: seq<bool>)
    ensures |r| == 8 * |bs|
  {
    if bs == [] then [] else ByteBits(bs[0]) + FromBytes(bs[1..])
  }

  /** Octet k of the digits sits at bits [8k, 8k+8). */
  lemma {:induction false} FromBytesAt(bs: seq<Byte>, k: nat)
    requires k < |bs|
    ensures FromBytes(bs)[8 * k..8 * k + 8] == ByteBits(bs[k])
  {
    if k > 0 {
      var a, b := ByteBits(bs[0]), FromBytes(bs[1..]);
      assert FromBytes(bs) == a + b;
      FromBytesAt(bs[1..], k - 1);
      SliceAfter(a, b, 8 * (k - 1), 8);
      assert |a| + 8 * (k - 1) == 8 * k;
    }
  }

  /** A slice of a concatenation that lies past its first part. */
  lemma SliceAfter(a: seq<bool>, b: seq<bool>, i: nat, len: nat)
    requires i + len <= |b|
    ensures (a + b)[|a| + i..|a| + i + len] == b[i..i + len]
  {
  }

  /** The digits of octets read as one binary number are the octets read
      as one big-endian number. */
  lemma {:induction false} FromBytesValue(bs: seq<Byte>)
    ensures BitsToNat(FromBytes(bs)) == BigEndian(bs)
  {
    if bs != [] {
      var n := |bs|;
      var init := bs[..n - 1];
      FromBytesSnoc(init, bs[n - 1]);
      assert init + [bs[n - 1]] == bs;
      FromBytesValue(init);
      BitsToNatAppend(FromBytes(init), ByteBits(bs[n - 1]));
      assert Pow2(8) == 256;
    }
  }

  lemma {:induction false} FromBytesSnoc(bs: seq<Byte>, b: Byte)
    ensures FromBytes(bs + [b]) == FromBytes(bs) + ByteBits(b)
  {
    if bs == [] {
      assert [] + [b] == [b];
      assert FromBytes([b]) == ByteBits(b) + FromBytes([]);
    } else {
      assert (bs + [b])[1..] == bs[1..] + [b];
      FromBytesSnoc(bs[1..], b);
    }
  }

  lemma {:induction false} FromBytesAppend(a: seq<Byte>, b: seq<Byte>)
    ensures FromBytes(a + b) == FromBytes(a) + FromBytes(b)
  {
    if a == [] {
      assert a + b == b;
    } else {
      assert (a + b)[1..] == a[1..] + b;
      FromBytesAppend(a[1..], b);
    }
  }

  /** `Math.ceil(n / 8)`. */
  function CeilBytes(n: nat): (r: nat)
    ensures 8 * r >= n && 8 * r < n + 8
  {
    (n + 7) / 8
  }

  /** The value `toBuffer` stores for chunk k: `parseInt` of the (at most)
      eight digits from bit 8k. */
  function ChunkValue(bits: seq<bool>, k: nat): Byte
    requires 8 * k < |bits|
  {
    var c := Substr(bits, 8 * k, 8);
    Pow2Mono(|c|, 8);
    assert Pow2(8) == 256;
    BitsToNat(c)
  }

  /** `toBuffer()`: one octet per started group of eight digits. A last,
      shorter group is read as a number of its own. */
  function ToBytes(bits: seq<bool>): (r: seq<Byte>)
    ensures |r| == CeilBytes(|bits|)
  {
    seq(CeilBytes(|bits|), k requires 0 <= k < CeilBytes(|bits|) => ChunkValue(bits, k))
  }

  /** `toBuffer` inverts `fromBuffer`. */
  lemma ToBytesFromBytes(bs: seq<Byte>)
    ensures ToBytes(FromBytes(bs)) == bs
  {
    var bits := FromBytes(bs);
    forall k | 0 <= k < |bs|
      ensures ToBytes(bits)[k] == bs[k]
    {
      FromBytesAt(bs, k);
    }
  }

  /** `substr` past the first part of a concatenation. */
  lemma SubstrAfter(a: seq<bool>, b: seq<bool>, i: nat, len: nat)
    ensures Substr(a + b, |a| + i, len) == Substr(b, i, len)
  {
    if i < |b| && i + len > |b| {
      assert (a + b)[|a| + i..] == b[i..];
    }
  }

  /** Eight more digits make one more octet. */
  lemma CeilStep(n: nat)
    ensures CeilBytes(8 + n) == 1 + CeilBytes(n)
  {
    assert 8 + n + 7 == 8 + (n + 7);
  }

  /** The first eight digits make the first octet. */
  lemma ToBytesCons(c: seq<bool>, rest: seq<bool>)
    requires |c| == 8
    ensures ToBytes(c + rest) == [BitsToNat(c)] + ToBytes(rest)
  {
    var bits := c + rest;
    CeilStep(|rest|);
    var t, u := ToBytes(bits), ToBytes(rest);
    assert t[0] == BitsToNat(c) by {
      assert Substr(bits, 0, 8) == c;
    }
    forall k | 1 <= k < |t|
      ensures t[k] == u[k - 1]
    {
      var j := k - 1;
      SubstrAfter(c, rest, 8 * j, 8);
      assert 8 + 8 * j == 8 * k;
    }
    assert t == [BitsToNat(c)] + u;
  }

  /** `fromBuffer` inverts `toBuffer` when the length is a multiple of 8. */
  lemma {:induction false} FromBytesToBytes(bits: seq<bool>)
    requires |bits| % 8 == 0
    ensures FromBytes(ToBytes(bits)) == bits
  {
    if bits != [] {
      var c, rest := bits[..8], bits[8..];
      assert bits == c + rest;
      assert |rest| % 8 == 0;
      ToBytesCons(c, rest);
      Reprint(c);
      var v: Byte := BitsToNat(c);
      assert ByteBits(v) == c;
      var bs := [v] + ToBytes(rest);
      assert bs[0] == v && bs[1..] == ToBytes(rest);
      assert FromBytes(bs) == ByteBits(v) + FromBytes(ToBytes(rest));
      FromBytesToBytes(rest);
    }
  }
}
