/** BitStream.js: an append-only buffer of binary digits, with the helpers
    `requiredBytes` and `encodeUTF8`. */
module BitStreams {
  import opened Wire
  import opened Bits

  /** One UTF-16 code unit, as `string.charCodeAt(i)` returns it. */
  type CodeUnit = c: int | 0 <= c < 0x10000

  /** The `while (s.length < length) s = '0' + s` loop of `addBits` and
      `fromBuffer`. */
  method PadLeft(s: seq<bool>, length: nat) returns (r: seq<bool>)
    ensures r == Pad(s, length)
  {
    r := s;
    while |r| < length
      invariant |s| <= |r| <= if |s| < length then length else |s|
      invariant r == Zeros(|r| - |s|) + s
      decreases length - |r|
    {
      r := [false] + r;
    }
  }

  class BitStream {
    /** The digits, most significant first ('1' is true). */
    var binary: seq<bool>

    constructor ()
      ensures binary == []
    {
      binary := [];
    }

    /** `addBits(data, length)`: appends `data.toString(2)` padded with
        leading zeros to `length` digits. Nothing is cut off: a value of
        more than `length` digits appends all of them, and 0 appends at
        least the digit "0". The appended digits read back as `data`. */
    method AddBits(data: nat, length: nat)
      modifies this
      ensures binary == old(binary) + Pad(Binary(data), length)
      ensures |binary| == |old(binary)| + (if |Binary(data)| < length then length else |Binary(data)|)
      ensures BitsToNat(binary[|old(binary)|..]) == data
    {
      var s := Binary(data);
      s := PadLeft(s, length);
      PadValue(Binary(data), length);
      binary := binary + s;
      assert binary[|old(binary)|..] == s;
    }

    /** `addString(string)`: for each code unit, its UTF-8 value padded to
        a whole number of octets. */
    method AddString(text: seq<CodeUnit>)
      modifies this
      ensures binary == old(binary) + StringBits(text)
    {
      for i := 0 to |text|
        invariant binary == old(binary) + StringBits(text[..i])
      {
        var charCode := EncodeUTF8(text[i]);
        var n := RequiredBytes(charCode);
        StringBitsSnoc(text, i);
        AddBits(charCode, n * 8);
        Reassociate3(old(binary), StringBits(text[..i]), UnitBits(text[i]));
      }
      assert text[..|text|] == text;
    }

    /** `append(other)`: the other stream's digits follow this one's. */
    method Append(other: BitStream)
      modifies this
      ensures binary == old(binary) + old(other.binary)
      ensures other != this ==> other.binary == old(other.binary)
    {
      binary := binary + other.binary;
    }

    /** `numBytes()`: the octets needed to hold the digits, a last partial
        octet counting as one. */
    function NumBytes(): (r: nat)
      reads this
      ensures 8 * r >= |binary| && 8 * (r - 1) < |binary|
    {
      CeilBytes(|binary|)
    }

    /** `xor(key, keyBitLength)`: every digit is combined with the key's
        digits (padded to `keyBitLength`), the key repeating along the
        stream. */
    method Xor(key: nat, keyBitLength: nat)
      modifies this
      ensures binary == XorWith(old(binary), Pad(Binary(key), keyBitLength))
    {
      var keyStream := new BitStream();
      keyStream.AddBits(key, keyBitLength);
      var keyBits := keyStream.binary;
      var keyLength := |keyBits|;
      var str := binary;
      var newString := [];
      for i := 0 to |str|
        invariant newString == XorWith(str, keyBits)[..i]
      {
        newString := newString + [str[i] != keyBits[i % keyLength]];
      }
      binary := newString;
    }

    /** `toBuffer()`: the digits cut into groups of eight, each group read
        as an octet. */
    method ToBuffer() returns (r: seq<Byte>)
      ensures r == ToBytes(binary)
    {
      var a := new Byte[NumBytes()];
      var i, k := 0, 0;
      while i < |binary|
        invariant i == 8 * k && i <= |binary| + 7
        invariant k <= a.Length
        invariant a[..k] == ToBytes(binary)[..k]
      {
        assert (i + 1) / 8 == k;
        a[(i + 1) / 8] := ChunkValue(binary, k);
        i, k := i + 8, k + 1;
      }
      r := a[..];
    }

    /** `fromBuffer(b)`: the digits become the octets of `b`, eight digits
        each, most significant first. */
    method FromBuffer(b: seq<Byte>)
      modifies this
      ensures binary == FromBytes(b)
    {
      var s := [];
      for i := 0 to |b|
        invariant s == FromBytes(b[..i])
      {
        var v := Binary(b[i]);
        v := PadLeft(v, 8);
        FromBytesSnoc(b[..i], b[i]);
        assert b[..i + 1] == b[..i] + [b[i]];
        s := s + v;
      }
      assert b[..|b|] == b;
      binary := s;
    }
  }

  /** The octet count `requiredBytes` defines: eight bits per octet for the
      least number of bits k with 2^k - 1 >= n. */
  function OctetsFor(n: nat): (r: nat)
    ensures Pow2(8 * r) > n
    ensures r > 0 ==> Pow2(8 * (r - 1)) <= n
  {
    var c := CeilBytes(BitLength(n));
    BitLengthLeast(n, 8 * c);
    BitLengthLeast(n, if c > 0 then 8 * (c - 1) else 0);
    c
  }

  /** `requiredBytes(num)`: counts bits up until 2^bits - 1 reaches `num`,
      then rounds up to octets. */
  method RequiredBytes(num: nat) returns (r: nat)
    ensures r == OctetsFor(num)
  {
    var numBits := 0;
    while Pow2(numBits) - 1 < num
      invariant numBits <= BitLength(num)
      decreases BitLength(num) - numBits
    {
      BitLengthLeast(num, numBits);
      numBits := numBits + 1;
    }
    BitLengthLeast(num, numBits);
    r := CeilBytes(numBits);
  }

  // UTF-8 (section 3 of RFC 3629).

  /** The number of UTF-8 octets for a code point: `numBytes` in
      `encodeUTF8`. */
  function OctetCount(cp: nat): (r: nat)
    ensures 1 <= r <= 4
  {
    if cp > 0xffff then 4 else if cp > 0x7ff then 3 else if cp > 0x7f then 2 else 1
  }

  /** The UTF-8 octets of a code point, by the table of section 3 of RFC
      3629: the leading octet carries the octet count, each continuation
      octet six bits behind 10. */
  function Utf8Octets(cp: nat): (r: seq<Byte>)
    requires cp <= 0x10FFFF
    ensures |r| == OctetCount(cp)
  {
    if cp <= 0x7f then [cp]
    else if cp <= 0x7ff then [0xC0 + cp / 64, 0x80 + cp % 64]
    else if cp <= 0xffff then [0xE0 + cp / 4096, 0x80 + (cp / 64) % 64, 0x80 + cp % 64]
    else [0xF0 + cp / 262144, 0x80 + (cp / 4096) % 64, 0x80 + (cp / 64) % 64, 0x80 + cp % 64]
  }

  /** The number `encodeUTF8` is meant to return: the UTF-8 octets read as
      one big-endian number. */
  function Utf8Value(cp: nat): nat
    requires cp <= 0x10FFFF
  {
    BigEndian(Utf8Octets(cp))
  }

  /** The digits that fill the first octet: `remBits`, 8 for a lone octet
      (behind the leading 0) and 7 - n for an n-octet encoding. */
  function FirstWidth(nb: nat): nat
    requires nb <= 7
  {
    if nb > 1 then 8 - (nb + 1) else 8
  }

  /** Where the loop reads the code point's digits in round j, and how many. */
  function Cursor(first: nat, j: nat): nat {
    if j == 0 then 0 else first + 6 * (j - 1)
  }

  function Width(first: nat, j: nat): nat {
    if j == 0 then first else 6
  }

  /** k one digits. */
  function Ones(k: nat): (r: seq<bool>)
    ensures |r| == k
  {
    if k == 0 then [] else Ones(k - 1) + [true]
  }

  /** The marker digits before the first round: n ones and a zero, or a
      lone zero. */
  function Lead(nb: nat): seq<bool> {
    (if nb > 1 then Ones(nb) else []) + [false]
  }

  /** What round j appends: `addBits(parseInt(fill, 2), remBits)` with
      `fill` the `remBits` digits of s from `currentBit`. */
  function Piece(s: seq<bool>, first: nat, j: nat): seq<bool> {
    Pad(Binary(BitsToNat(Substr(s, Cursor(first, j), Width(first, j)))), Width(first, j))
  }

  /** The digits `u8Stream` gains in the first j rounds of the loop over
      the code point's digit string s, each round after the first behind
      the 10 its predecessor appended. */
  function Rounds(s: seq<bool>, first: nat, j: nat): seq<bool> {
    if j == 0 then []
    else if j == 1 then Piece(s, first, 0)
    else Rounds(s, first, j - 1) + ([true, false] + Piece(s, first, j - 1))
  }

  /** The digits `encodeUTF8` produces when the code point's digit string
      is padded to `width` digits. */
  function Utf8Digits(cp: nat, width: nat): seq<bool> {
    var nb := OctetCount(cp);
    Lead(nb) + Rounds(Pad(Binary(cp), width), FirstWidth(nb), nb)
  }

  /** `encodeUTF8` as written: the code point's digit string is padded to
      whole octets (`requiredBytes(codepoint) * 8`, line 145), not to the
      number of digits the rounds read. That is right for the code points
      of one and of three octets, whose digit strings fill whole octets. */
  function Utf8AsWritten(cp: nat): (r: nat)
    ensures cp <= 0x7F || 0x7FF < cp <= 0xFFFF ==> r == Utf8Value(cp)
  {
    var r := BitsToNat(Utf8Digits(cp, 8 * OctetsFor(cp)));
    if cp == 0 then
      assert OctetsFor(0) == 0;
      var s := Pad(Binary(0), 0);
      assert s == [false];
      assert Pow2(8) == 256;
      MarkerValues();
      FirstRoundValue(s, 1, 8, 0, 256);
      assert Substr(s, 0, 8) == [false];
      assert BigEndian([0]) == 0 by { assert [0][..0] == []; }
      r
    else if cp <= 0x7F then
      OctetsForOne(cp);
      CorrectedOne(cp);
      r
    else if 0x7FF < cp <= 0xFFFF then
      OctetsForTwo(cp);
      CorrectedThree(cp);
      r
    else r
  }

  /** The digit count the rounds read: 8, 11, 16 or 21. */
  function CodeWidth(nb: nat): nat
    requires nb <= 7
  {
    FirstWidth(nb) + 6 * (nb - 1)
  }

  /** The digits `u8Stream` holds when `done` rounds are over: the lead,
      the rounds, and the 10 of the next octet when there is one. */
  function Progress(s: seq<bool>, nb: nat, first: nat, done: nat): seq<bool> {
    if done == 0 then Lead(nb)
    else if done < nb then Lead(nb) + Rounds(s, first, done) + [true, false]
    else Lead(nb) + Rounds(s, first, done)
  }

  /** One more round appends its digits to the progress so far. */
  lemma RoundDigits(s: seq<bool>, nb: nat, first: nat, done: nat)
    requires done < nb
    ensures Progress(s, nb, first, done) + Piece(s, first, done) == Lead(nb) + Rounds(s, first, done + 1)
  {
    if done > 0 {
      Reassociate(Lead(nb), Rounds(s, first, done), [true, false], Piece(s, first, done));
    }
  }

  lemma Reassociate(a: seq<bool>, r: seq<bool>, m: seq<bool>, p: seq<bool>)
    ensures a + r + m + p == a + (r + (m + p))
  {
  }

  /** The digit strings of 0, 1 and 2 at the widths `encodeUTF8` asks for. */
  lemma SmallDigits()
    ensures Pad(Binary(0), 1) == [false] && Pad(Binary(1), 1) == [true] && Pad(Binary(2), 2) == [true, false]
  {
    assert Binary(2) == Binary(1) + [false];
  }

  lemma EmptyPrefix(x: seq<bool>)
    ensures [] + x == x
  {
  }

  /** One turn of the loop of `encodeUTF8`: the round's digits, and the 10
      of the next octet when one follows, take the digits from `done` rounds
      to `done + 1`, and the cursor moves past the digits read. */
  lemma RoundStep(s: seq<bool>, nb: nat, first: nat, done: nat, before: seq<bool>, fill: seq<bool>)
    requires done < nb
    requires before == Progress(s, nb, first, done)
    requires fill == Substr(s, Cursor(first, done), Width(first, done))
    ensures done + 1 < nb ==> before + Pad(Binary(BitsToNat(fill)), Width(first, done)) + Pad(Binary(2), 2) == Progress(s, nb, first, done + 1)
    ensures done + 1 == nb ==> before + Pad(Binary(BitsToNat(fill)), Width(first, done)) == Progress(s, nb, first, done + 1)
    ensures Cursor(first, done + 1) == Cursor(first, done) + Width(first, done) && Width(first, done + 1) == 6
  {
    RoundDigits(s, nb, first, done);
    SmallDigits();
  }

  /** The loop of `encodeUTF8` (lines 184-202): round after round,
      `remBits` digits of the code point's digit string behind the lead,
      the octets after the first behind their 10. */
  method FillRounds(u8Stream: BitStream, s: seq<bool>, numBytes: nat, firstBits: nat)
    requires 1 <= numBytes <= 4 && firstBits == FirstWidth(numBytes)
    requires u8Stream.binary == Lead(numBytes)
    modifies u8Stream
    ensures u8Stream.binary == Lead(numBytes) + Rounds(s, firstBits, numBytes)
  {
    var currentBit := 0;
    var remBits := firstBits;
    var remBytes := numBytes;
    ghost var done := 0;
    while remBytes > 0
      invariant 0 <= remBytes <= numBytes && done == numBytes - remBytes
      invariant u8Stream.binary == Progress(s, numBytes, firstBits, done)
      invariant remBytes > 0 ==> currentBit == Cursor(firstBits, done) && remBits == Width(firstBits, done)
    {
      var fill := Substr(s, currentBit, remBits);
      RoundStep(s, numBytes, firstBits, done, u8Stream.binary, fill);
      u8Stream.AddBits(BitsToNat(fill), remBits);
      if remBytes > 1 {
        u8Stream.AddBits(2, 2);
        currentBit := currentBit + remBits;
        remBits := 6;
      }
      remBytes := remBytes - 1;
      done := done + 1;
    }
  }

  /** `encodeUTF8(codepoint)` with the code point padded to the digits the
      rounds read. It returns the UTF-8 encoding of the code point. */
  method EncodeUTF8(codepoint: nat) returns (r: nat)
    requires codepoint <= 0x10FFFF
    ensures r == Utf8Value(codepoint)
  {
    var numBytes := 1;
    var remBits := 8;
    if codepoint > 0xffff {
      numBytes := 4;
    } else if codepoint > 0x7ff {
      numBytes := 3;
    } else if codepoint > 0x7f {
      numBytes := 2;
    }
    assert numBytes == OctetCount(codepoint);
    var codeStream := new BitStream();
    var u8Stream := new BitStream();
    codeStream.AddBits(codepoint, CodeWidth(numBytes));
    EmptyPrefix(Pad(Binary(codepoint), CodeWidth(numBytes)));
    var s := codeStream.binary;
    SmallDigits();
    if numBytes > 1 {
      remBits := 8 - (numBytes + 1);
      for i := 0 to numBytes
        invariant u8Stream.binary == Ones(i)
      {
        u8Stream.AddBits(1, 1);
      }
    }
    u8Stream.AddBits(0, 1);
    FillRounds(u8Stream, s, numBytes, remBits);
    r := BitsToNat(u8Stream.binary);
    CorrectedDigits(codepoint);
  }

  /** The fields of a two-, three- and four-octet encoding: a number
      written as a leading part and six-digit groups has those as its
      quotients and remainders by powers of 64. */
  lemma Groups2(cp: nat, a: nat, b: nat)
    requires b < 64 && cp == a * 64 + b
    ensures cp / 64 == a && cp % 64 == b
  {
  }

  lemma Groups3(cp: nat, a: nat, b: nat, c: nat)
    requires b < 64 && c < 64 && cp == a * 4096 + b * 64 + c
    ensures cp / 4096 == a && (cp / 64) % 64 == b && cp % 64 == c
  {
    Groups2(cp, a * 64 + b, c);
    Groups2(a * 64 + b, a, b);
  }

  lemma Groups4(cp: nat, a: nat, b: nat, c: nat, d: nat)
    requires b < 64 && c < 64 && d < 64 && cp == a * 262144 + b * 4096 + c * 64 + d
    ensures cp / 262144 == a && (cp / 4096) % 64 == b && (cp / 64) % 64 == c && cp % 64 == d
  {
    Groups3(cp, a * 64 + b, c, d);
    Groups2(a * 64 + b, a, b);
  }

  /** The value of a digit string split after its first k digits. */
  lemma SplitAt(s: seq<bool>, k: nat, p: nat)
    requires k <= |s| && p == Pow2(|s| - k)
    ensures BitsToNat(s) == BitsToNat(s[0..k]) * p + BitsToNat(s[k..|s|])
  {
    assert s == s[0..k] + s[k..|s|];
    BitsToNatAppend(s[0..k], s[k..|s|]);
  }

  /** The values of the markers: 10 before a continuation octet, and the
      leads of one to four octets, 0, 110, 1110 and 11110. */
  lemma MarkerValues()
    ensures BitsToNat([true, false]) == 2
    ensures BitsToNat(Lead(1)) == 0 && BitsToNat(Lead(2)) == 6
    ensures BitsToNat(Lead(3)) == 14 && BitsToNat(Lead(4)) == 30
  {
    assert Lead(1) == [false] && [false][..0] == [];
    assert Ones(2) == [true, true];
    assert Ones(3) == [true, true, true];
    assert Ones(4) == [true, true, true, true];
    var t, f := true, false;
    assert [t, t, t, t, f][..4] == [t, t, t, t] && [t, t, t, t][..3] == [t, t, t];
    assert [t, t, t, f][..3] == [t, t, t] && [t, t, t][..2] == [t, t];
    assert [t, t, f][..2] == [t, t] && [t, t][..1] == [t];
    assert [t, f][..1] == [t] && [t][..0] == [];
  }

  /** Regrouping a concatenation, stated over plain sequences so that the
      solver proves it without unfolding what they stand for. */
  lemma Regroup(a: seq<bool>, b: seq<bool>, c: seq<bool>, ab: seq<bool>, abc: seq<bool>)
    requires a + b == ab && abc == ab + c
    ensures a + (b + c) == abc
  {
    assert a + (b + c) == (a + b) + c;
  }

  /** The value of the digits from i to j, split at k. */
  lemma SplitRange(s: seq<bool>, i: nat, k: nat, j: nat, p: nat)
    requires i <= k <= j <= |s| && p == Pow2(j - k)
    ensures BitsToNat(s[i..j]) == BitsToNat(s[i..k]) * p + BitsToNat(s[k..j])
  {
    var t := s[i..j];
    assert t[0..k - i] == s[i..k] && t[k - i..|t|] == s[k..j];
    SplitAt(t, k - i, p);
  }

  /** Eleven digits as a five-digit group and a six-digit group. */
  lemma Groups2Digits(s: seq<bool>)
    requires |s| == 11
    ensures BitsToNat(s) == BitsToNat(s[0..5]) * 64 + BitsToNat(s[5..11])
  {
    assert Pow2(6) == 64;
    SplitAt(s, 5, 64);
  }

  /** Sixteen digits as a four-digit group and two six-digit groups. */
  lemma Groups3Digits(s: seq<bool>)
    requires |s| == 16
    ensures BitsToNat(s) == BitsToNat(s[0..4]) * 4096 + BitsToNat(s[4..10]) * 64 + BitsToNat(s[10..16])
  {
    assert Pow2(6) == 64;
    SplitAt(s, 10, 64);
    SplitRange(s, 0, 4, 10, 64);
  }

  /** Twenty-one digits as a three-digit group and three six-digit groups. */
  lemma Groups4Digits(s: seq<bool>)
    requires |s| == 21
    ensures BitsToNat(s) == BitsToNat(s[0..3]) * 262144 + BitsToNat(s[3..9]) * 4096 + BitsToNat(s[9..15]) * 64 + BitsToNat(s[15..21])
  {
    assert Pow2(6) == 64;
    SplitAt(s, 15, 64);
    SplitRange(s, 0, 9, 15, 64);
    SplitRange(s, 0, 3, 9, 64);
  }

  /** What a round appends reads back as the digits it read. */
  lemma PieceValue(s: seq<bool>, first: nat, j: nat)
    requires 1 <= Width(first, j)
    ensures |Piece(s, first, j)| == Width(first, j)
    ensures BitsToNat(Piece(s, first, j)) == BitsToNat(Substr(s, Cursor(first, j), Width(first, j)))
  {
    var sub := Substr(s, Cursor(first, j), Width(first, j));
    Pow2Mono(|sub|, Width(first, j));
    PadBinary(BitsToNat(sub), Width(first, j));
  }

  /** Appending eight digits shifts by an octet. */
  lemma AppendOctet(x: seq<bool>, y: seq<bool>)
    requires |y| == 8
    ensures BitsToNat(x + y) == BitsToNat(x) * 256 + BitsToNat(y)
  {
    BitsToNatAppend(x, y);
    assert Pow2(8) == 256;
  }

  /** The first round: the lead (of value `lead`), then the first `first`
      digits (`p` being 2 to the `first`). */
  lemma FirstRoundValue(s: seq<bool>, nb: nat, first: nat, lead: nat, p: nat)
    requires 1 <= first && lead == BitsToNat(Lead(nb)) && p == Pow2(first)
    ensures BitsToNat(Lead(nb) + Rounds(s, first, 1)) == lead * p + BitsToNat(Substr(s, 0, first))
  {
    PieceValue(s, first, 0);
    BitsToNatAppend(Lead(nb), Piece(s, first, 0));
  }

  /** Each later round appends an octet: 10 and six digits. */
  lemma NextRoundValue(s: seq<bool>, nb: nat, first: nat, j: nat)
    requires 2 <= j
    ensures BitsToNat(Lead(nb) + Rounds(s, first, j))
         == BitsToNat(Lead(nb) + Rounds(s, first, j - 1)) * 256 + 128 + BitsToNat(Substr(s, Cursor(first, j - 1), 6))
  {
    var k := j - 1;
    var r, p := Rounds(s, first, k), Piece(s, first, k);
    assert Rounds(s, first, j) == r + ([true, false] + p);
    assert Width(first, k) == 6;
    PieceValue(s, first, k);
    OctetAfter(Lead(nb), r, p);
  }

  /** Digits x followed by 10 and six more digits p: one octet more. */
  lemma OctetAfter(a: seq<bool>, r: seq<bool>, p: seq<bool>)
    requires |p| == 6
    ensures BitsToNat(a + (r + ([true, false] + p))) == BitsToNat(a + r) * 256 + 128 + BitsToNat(p)
  {
    Regroup(a, r, [true, false] + p, a + r, (a + r) + ([true, false] + p));
    AppendOctet(a + r, [true, false] + p);
    ContinuationValue(p);
  }

  /** 10 followed by six digits. */
  lemma ContinuationValue(p: seq<bool>)
    requires |p| == 6
    ensures BitsToNat([true, false] + p) == 128 + BitsToNat(p)
  {
    BitsToNatAppend([true, false], p);
    MarkerValues();
    assert Pow2(6) == 64;
  }

  /** The rounds over eleven digits: 110 and the first five, 10 and the
      last six. */
  lemma TwoOctetRounds(s: seq<bool>)
    requires |s| == 11
    ensures BitsToNat(Lead(2) + Rounds(s, 5, 2)) == (0xC0 + BitsToNat(s[0..5])) * 256 + 0x80 + BitsToNat(s[5..11])
  {
    MarkerValues();
    assert Pow2(5) == 32;
    FirstRoundValue(s, 2, 5, 6, 32);
    NextRoundValue(s, 2, 5, 2);
  }

  lemma ThreeOctetRounds(s: seq<bool>)
    requires |s| == 16
    ensures BitsToNat(Lead(3) + Rounds(s, 4, 3))
         == ((0xE0 + BitsToNat(s[0..4])) * 256 + 0x80 + BitsToNat(s[4..10])) * 256 + 0x80 + BitsToNat(s[10..16])
  {
    MarkerValues();
    assert Pow2(4) == 16;
    FirstRoundValue(s, 3, 4, 14, 16);
    NextRoundValue(s, 3, 4, 2);
    NextRoundValue(s, 3, 4, 3);
  }

  lemma FourOctetRounds(s: seq<bool>)
    requires |s| == 21
    ensures BitsToNat(Lead(4) + Rounds(s, 3, 4))
         == (((0xF0 + BitsToNat(s[0..3])) * 256 + 0x80 + BitsToNat(s[3..9])) * 256 + 0x80 + BitsToNat(s[9..15])) * 256
            + 0x80 + BitsToNat(s[15..21])
  {
    MarkerValues();
    assert Pow2(3) == 8;
    FirstRoundValue(s, 4, 3, 30, 8);
    NextRoundValue(s, 4, 3, 2);
    NextRoundValue(s, 4, 3, 3);
    NextRoundValue(s, 4, 3, 4);
  }

  /** The UTF-8 value of a two-, three- and four-octet code point, octet by
      octet. */
  lemma Utf8ValueTwo(cp: nat)
    requires 0x7f < cp <= 0x7ff
    ensures Utf8Value(cp) == (0xC0 + cp / 64) * 256 + 0x80 + cp % 64
  {
    BigEndianPair(0xC0 + cp / 64, 0x80 + cp % 64);
  }

  lemma Utf8ValueThree(cp: nat)
    requires 0x7ff < cp <= 0xffff
    ensures Utf8Value(cp) == ((0xE0 + cp / 4096) * 256 + 0x80 + (cp / 64) % 64) * 256 + 0x80 + cp % 64
  {
    var o := Utf8Octets(cp);
    assert o == [o[0], o[1]] + [o[2]];
    BigEndianSnoc([o[0], o[1]], o[2]);
    BigEndianPair(o[0], o[1]);
  }

  lemma Utf8ValueFour(cp: nat)
    requires 0xffff < cp <= 0x10FFFF
    ensures Utf8Value(cp)
         == (((0xF0 + cp / 262144) * 256 + 0x80 + (cp / 4096) % 64) * 256 + 0x80 + (cp / 64) % 64) * 256 + 0x80 + cp % 64
  {
    var o := Utf8Octets(cp);
    assert o == [o[0], o[1]] + [o[2]] + [o[3]];
    BigEndianSnoc([o[0], o[1]] + [o[2]], o[3]);
    BigEndianSnoc([o[0], o[1]], o[2]);
    BigEndianPair(o[0], o[1]);
  }

  lemma WholeSlice(s: seq<bool>)
    ensures s[0..|s|] == s
  {
  }

  /** The code point padded to w digits, read back. */
  lemma PaddedCode(cp: nat, w: nat)
    requires 1 <= w && cp < Pow2(w)
    ensures |Pad(Binary(cp), w)| == w && BitsToNat(Pad(Binary(cp), w)) == cp
  {
    PadBinary(cp, w);
  }

  /** The rounds over the digits of a code point of two, three or four
      octets give its UTF-8 value. */
  lemma TwoOctetValue(cp: nat, s: seq<bool>)
    requires 0x7f < cp <= 0x7ff && |s| == 11 && BitsToNat(s) == cp
    ensures BitsToNat(Lead(2) + Rounds(s, 5, 2)) == Utf8Value(cp)
  {
    TwoOctetRounds(s);
    Groups2Digits(s);
    Groups2(cp, BitsToNat(s[0..5]), BitsToNat(s[5..11]));
    Utf8ValueTwo(cp);
  }

  lemma ThreeOctetValue(cp: nat, s: seq<bool>)
    requires 0x7ff < cp <= 0xffff && |s| == 16 && BitsToNat(s) == cp
    ensures BitsToNat(Lead(3) + Rounds(s, 4, 3)) == Utf8Value(cp)
  {
    ThreeOctetRounds(s);
    Groups3Digits(s);
    Groups3(cp, BitsToNat(s[0..4]), BitsToNat(s[4..10]), BitsToNat(s[10..16]));
    Utf8ValueThree(cp);
  }

  lemma FourOctetValue(cp: nat, s: seq<bool>)
    requires 0xffff < cp <= 0x10FFFF && |s| == 21 && BitsToNat(s) == cp
    ensures BitsToNat(Lead(4) + Rounds(s, 3, 4)) == Utf8Value(cp)
  {
    FourOctetRounds(s);
    Groups4Digits(s);
    Groups4(cp, BitsToNat(s[0..3]), BitsToNat(s[3..9]), BitsToNat(s[9..15]), BitsToNat(s[15..21]));
    Utf8ValueFour(cp);
  }

  /** With the code point padded to the digits the rounds read, the digits
      are the UTF-8 encoding: one lemma per octet count. */
  lemma CorrectedOne(cp: nat)
    requires cp <= 0x7f
    ensures BitsToNat(Utf8Digits(cp, 8)) == Utf8Value(cp)
  {
    var s := Pad(Binary(cp), 8);
    assert Pow2(8) == 256;
    PaddedCode(cp, 8);
    MarkerValues();
    FirstRoundValue(s, 1, 8, 0, 256);
    WholeSlice(s);
    assert BigEndian([cp]) == cp by { assert [cp][..0] == []; }
  }

  lemma CorrectedTwo(cp: nat)
    requires 0x7f < cp <= 0x7ff
    ensures BitsToNat(Utf8Digits(cp, 11)) == Utf8Value(cp)
  {
    assert Pow2(11) == 2048;
    PaddedCode(cp, 11);
    TwoOctetValue(cp, Pad(Binary(cp), 11));
  }

  lemma CorrectedThree(cp: nat)
    requires 0x7ff < cp <= 0xffff
    ensures BitsToNat(Utf8Digits(cp, 16)) == Utf8Value(cp)
  {
    assert Pow2(16) == 65536 by { Pow2Add(8, 8); }
    PaddedCode(cp, 16);
    ThreeOctetValue(cp, Pad(Binary(cp), 16));
  }

  lemma CorrectedFour(cp: nat)
    requires 0xffff < cp <= 0x10FFFF
    ensures BitsToNat(Utf8Digits(cp, 21)) == Utf8Value(cp)
  {
    assert Pow2(21) == 0x200000 by { Pow2Add(8, 8); Pow2Add(16, 5); }
    PaddedCode(cp, 21);
    FourOctetValue(cp, Pad(Binary(cp), 21));
  }

  /** With the corrected padding the digits are the UTF-8 encoding. */
  lemma CorrectedDigits(cp: nat)
    requires cp <= 0x10FFFF
    ensures BitsToNat(Utf8Digits(cp, CodeWidth(OctetCount(cp)))) == Utf8Value(cp)
  {
    if cp <= 0x7f {
      CorrectedOne(cp);
    } else if cp <= 0x7ff {
      CorrectedTwo(cp);
    } else if cp <= 0xffff {
      CorrectedThree(cp);
    } else {
      CorrectedFour(cp);
    }
  }

  /** `requiredBytes` of a number that needs one octet, and of one that
      needs two. */
  lemma OctetsForOne(n: nat)
    requires 1 <= n < 256
    ensures OctetsFor(n) == 1
  {
    var r := OctetsFor(n);
    if r >= 2 {
      Pow2Mono(8, 8 * (r - 1));
    }
  }

  lemma OctetsForTwo(n: nat)
    requires 256 <= n < 65536
    ensures OctetsFor(n) == 2
  {
    var r := OctetsFor(n);
    assert Pow2(16) == 65536 by { Pow2Add(8, 8); }
    if r >= 3 {
      Pow2Mono(16, 8 * (r - 1));
    } else if r <= 1 {
      Pow2Mono(8 * r, 8);
    }
  }

  lemma Groups8(cp: nat, a: nat, b: nat)
    requires b < 8 && cp == a * 8 + b
    ensures cp / 8 == a && cp % 8 == b
  {
  }

  lemma Groups32(cp: nat, x: nat, a: nat, b: nat, c: nat)
    requires b < 64 && c < 32 && x == a * 64 + b && cp == x * 32 + c && cp < 2048
    ensures a == 0 && (cp / 32) % 64 == b
  {
  }

  /** The rounds of a two-octet encoding over eight digits: 110 and the
      first five, 10 and the three left. */
  lemma ShortTwoRounds(s: seq<bool>)
    requires |s| == 8
    ensures BitsToNat(Lead(2) + Rounds(s, 5, 2)) == (0xC0 + BitsToNat(s[0..5])) * 256 + 0x80 + BitsToNat(s[5..8])
  {
    MarkerValues();
    assert Pow2(5) == 32;
    FirstRoundValue(s, 2, 5, 6, 32);
    NextRoundValue(s, 2, 5, 2);
    ShortTail(s);
  }

  lemma ShortTail(s: seq<bool>)
    requires |s| == 8
    ensures Substr(s, 5, 6) == s[5..8]
  {
  }

  /** The rounds of a two-octet encoding over sixteen digits: 110 and the
      first five, 10 and the next six. */
  lemma LongTwoRounds(s: seq<bool>)
    requires |s| == 16
    ensures BitsToNat(Lead(2) + Rounds(s, 5, 2)) == (0xC0 + BitsToNat(s[0..5])) * 256 + 0x80 + BitsToNat(s[5..11])
  {
    MarkerValues();
    assert Pow2(5) == 32;
    FirstRoundValue(s, 2, 5, 6, 32);
    NextRoundValue(s, 2, 5, 2);
  }

  lemma LowTwoValue(cp: nat, s: seq<bool>)
    requires |s| == 8 && BitsToNat(s) == cp
    ensures BitsToNat(Lead(2) + Rounds(s, 5, 2)) == (0xC0 + cp / 8) * 256 + 0x80 + cp % 8
  {
    ShortTwoRounds(s);
    assert Pow2(3) == 8;
    SplitAt(s, 5, 8);
    Groups8(cp, BitsToNat(s[0..5]), BitsToNat(s[5..8]));
  }

  /** Sixteen digits as a five-digit, a six-digit and a five-digit group. */
  lemma Groups16Digits(s: seq<bool>)
    requires |s| == 16
    ensures BitsToNat(s) == BitsToNat(s[0..11]) * 32 + BitsToNat(s[11..16])
    ensures BitsToNat(s[0..11]) == BitsToNat(s[0..5]) * 64 + BitsToNat(s[5..11])
  {
    assert Pow2(5) == 32 && Pow2(6) == 64;
    SplitAt(s, 11, 32);
    SplitRange(s, 0, 5, 11, 64);
  }

  lemma HighTwoValue(cp: nat, s: seq<bool>)
    requires |s| == 16 && BitsToNat(s) == cp && cp < 2048
    ensures BitsToNat(Lead(2) + Rounds(s, 5, 2)) == 0xC0 * 256 + 0x80 + (cp / 32) % 64
  {
    LongTwoRounds(s);
    Groups16Digits(s);
    Groups32(cp, BitsToNat(s[0..11]), BitsToNat(s[0..5]), BitsToNat(s[5..11]), BitsToNat(s[11..16]));
  }

  /** `encodeUTF8` as written, for a code point of eight digits that needs
      two UTF-8 octets: the code point is padded to 8 digits, the first
      round takes its top five digits and the second round the three left,
      so the octets are 110 and cp / 8, then 10 and cp % 8. That is never
      the UTF-8 encoding. */
  lemma AsWrittenLowTwo(cp: nat)
    requires 0x80 <= cp <= 0xFF
    ensures Utf8AsWritten(cp) == (0xC0 + cp / 8) * 256 + 0x80 + cp % 8
    ensures Utf8AsWritten(cp) != Utf8Value(cp)
  {
    OctetsForOne(cp);
    assert Pow2(8) == 256;
    PaddedCode(cp, 8);
    LowTwoValue(cp, Pad(Binary(cp), 8));
    Utf8ValueTwo(cp);
    assert cp / 8 >= 16 && cp / 64 <= 3;
  }

  /** `encodeUTF8` as written, for a code point of nine to eleven digits:
      the code point is padded to 16 digits, the first round takes five
      leading zeros, so the first octet is 110 00000 whatever the code point,
      and the second round takes digits 5 to 10. */
  lemma AsWrittenHighTwo(cp: nat)
    requires 0x100 <= cp <= 0x7FF
    ensures Utf8AsWritten(cp) == 0xC0 * 256 + 0x80 + (cp / 32) % 64
    ensures Utf8AsWritten(cp) != Utf8Value(cp)
  {
    OctetsForTwo(cp);
    assert Pow2(16) == 65536 by { Pow2Add(8, 8); }
    PaddedCode(cp, 16);
    HighTwoValue(cp, Pad(Binary(cp), 16));
    Utf8ValueTwo(cp);
    assert cp / 64 >= 4;
  }

  /** The letter e with acute accent, U+00E9, comes out as the octets DD 81
      instead of C3 A9. */
  lemma AsWrittenEAcute(cp: nat)
    requires cp == 0xE9
    ensures Utf8AsWritten(cp) == 0xDD81 && Utf8Value(cp) == 0xC3A9
  {
    assert cp / 8 == 29 && cp % 8 == 1 && cp / 64 == 3 && cp % 64 == 41;
    AsWrittenLowTwo(cp);
    Utf8ValueTwo(cp);
  }

  /** The digits `addString` appends for one code unit: `encodeUTF8`'s
      result padded to `requiredBytes(charCode) * 8` digits. */
  function UnitBits(c: CodeUnit): seq<bool> {
    Pad(Binary(Utf8Value(c)), OctetsFor(Utf8Value(c)) * 8)
  }

  /** The digits `addString` appends for a string. */
  function StringBits(text: seq<CodeUnit>): seq<bool> {
    if text == [] then [] else StringBits(text[..|text| - 1]) + UnitBits(text[|text| - 1])
  }

  lemma StringBitsSnoc(text: seq<CodeUnit>, i: nat)
    requires i < |text|
    ensures StringBits(text[..i + 1]) == StringBits(text[..i]) + UnitBits(text[i])
  {
    var t := text[..i + 1];
    assert t[..|t| - 1] == text[..i];
  }

  lemma Reassociate3(a: seq<bool>, b: seq<bool>, c: seq<bool>)
    ensures a + b + c == a + (b + c)
  {
  }

  /** A number between 2^(8(n-1)) and 2^(8n) needs n octets. */
  lemma OctetsForExact(v: nat, n: nat)
    requires 1 <= n && Pow2(8 * (n - 1)) <= v < Pow2(8 * n)
    ensures OctetsFor(v) == n
  {
    var r := OctetsFor(v);
    if r < n {
      Pow2Mono(8 * r, 8 * (n - 1));
    } else if r > n {
      Pow2Mono(8 * n, 8 * (r - 1));
    }
  }

  lemma OctetPowers()
    ensures Pow2(0) == 1 && Pow2(8) == 256 && Pow2(16) == 65536
  {
    Pow2Add(8, 8);
  }

  /** The UTF-8 value of a code unit other than 0 fills its octets: its
      leading octet is not zero. */
  lemma Utf8ValueOctets(c: CodeUnit)
    requires c >= 1
    ensures OctetsFor(Utf8Value(c)) == |Utf8Octets(c)|
  {
    var v := Utf8Value(c);
    FromBytesValue(Utf8Octets(c));
    assert v < Pow2(8 * |Utf8Octets(c)|);
    OctetPowers();
    if c <= 0x7f {
      assert Utf8Octets(c) == [c] && [c][..0] == [];
      OctetsForExact(v, 1);
    } else if c <= 0x7ff {
      Utf8ValueTwo(c);
      OctetsForExact(v, 2);
    } else {
      Utf8ValueThree(c);
      OctetsForExact(v, 3);
    }
  }

  /** `addString` appends the UTF-8 octets of each code unit other than 0,
      eight digits each. */
  lemma UnitBitsOctets(c: CodeUnit)
    requires c >= 1
    ensures UnitBits(c) == FromBytes(Utf8Octets(c))
  {
    var o := Utf8Octets(c);
    Utf8ValueOctets(c);
    FromBytesValue(o);
    PadBinary(Utf8Value(c), |o| * 8);
    BitsInjective(UnitBits(c), FromBytes(o));
  }

  /** For the code unit 0, `requiredBytes(0)` is 0 and `addString` appends
      the single digit of `(0).toString(2)`. */
  lemma NulBits()
    ensures UnitBits(0) == [false]
  {
    assert Utf8Value(0) == 0 by { assert [0][..0] == []; }
    assert OctetsFor(0) == 0;
  }

  /** The UTF-8 octets of a string of code units, one unit after the other. */
  function Utf8Encode(text: seq<CodeUnit>): seq<Byte> {
    if text == [] then [] else Utf8Encode(text[..|text| - 1]) + Utf8Octets(text[|text| - 1])
  }

  /** `addString` of a string without NUL appends the digits of its UTF-8
      octets. */
  lemma {:induction false} StringBitsOctets(text: seq<CodeUnit>)
    requires forall i :: 0 <= i < |text| ==> text[i] != 0
    ensures StringBits(text) == FromBytes(Utf8Encode(text))
  {
    if text != [] {
      var init, last := text[..|text| - 1], text[|text| - 1];
      StringBitsOctets(init);
      UnitBitsOctets(last);
      FromBytesAppend(Utf8Encode(init), Utf8Octets(last));
    }
  }

  /** An ASCII string without NUL comes out of `addString` and `toBuffer`
      as its own code units. */
  lemma {:induction false} AsciiString(text: seq<CodeUnit>)
    requires forall i :: 0 <= i < |text| ==> 1 <= text[i] < 0x80
    ensures ToBytes(StringBits(text)) == text
  {
    StringBitsOctets(text);
    AsciiOctets(text);
    ToBytesFromBytes(text);
  }

  /** ... eight digits per character, so `numBytes` grows by the length of
      the string. */
  lemma AsciiLength(text: seq<CodeUnit>)
    requires forall i :: 0 <= i < |text| ==> 1 <= text[i] < 0x80
    ensures |StringBits(text)| == 8 * |text| && CeilBytes(|StringBits(text)|) == |text|
  {
    StringBitsOctets(text);
    AsciiOctets(text);
  }

  lemma {:induction false} AsciiOctets(text: seq<CodeUnit>)
    requires forall i :: 0 <= i < |text| ==> 0 <= text[i] < 0x80
    ensures Utf8Encode(text) == text
  {
    if text != [] {
      var init := text[..|text| - 1];
      AsciiOctets(init);
      assert text == init + [text[|text| - 1]];
    }
  }
}
