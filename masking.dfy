/** Payload masking (section 5.3 of RFC 6455): `applyMask` in nocket.js and
    nodesock.js, which hold the same code. */
module Masking {
  import opened Wire

  /** The masking of `bytes` when they start at payload offset `offset`:
      octet i is combined with key octet (offset + i) mod 4. */
  function MaskFrom(bytes: seq<Byte>, key: MaskKey, offset: nat): seq<Byte> {
    seq(|bytes|, i requires 0 <= i < |bytes| => Xor(bytes[i], key[(offset + i) % 4]))
  }

  /** The masking of a whole payload, which starts at offset 0. */
  function Mask(bytes: seq<Byte>, key: MaskKey): seq<Byte> {
    MaskFrom(bytes, key, 0)
  }

  /** `applyMask` fills a fresh array octet by octet; it "can be used to
      mask or unmask". */
  method ApplyMask(bytes: seq<Byte>, key: MaskKey) returns (r: seq<Byte>)
    ensures |r| == |bytes|
    ensures forall i :: 0 <= i < |bytes| ==> r[i] == Xor(bytes[i], key[i % 4])
    ensures r == Mask(bytes, key)
  {
    var a := new Byte[|bytes|];
    for i := 0 to |bytes|
      invariant forall j :: 0 <= j < i ==> a[j] == Xor(bytes[j], key[j % 4])
    {
      a[i] := Xor(bytes[i], key[i % 4]);
    }
    r := a[..];
  }

  /** Masking twice from the same offset with the same key restores the
      octets: the same function masks and unmasks. */
  lemma MaskFromTwice(bytes: seq<Byte>, key: MaskKey, offset: nat)
    ensures MaskFrom(MaskFrom(bytes, key, offset), key, offset) == bytes
  {
    var once := MaskFrom(bytes, key, offset);
    forall i | 0 <= i < |bytes|
      ensures MaskFrom(once, key, offset)[i] == bytes[i]
    {
      XorCancel(bytes[i], key[(offset + i) % 4]);
    }
  }

  lemma MaskTwice(bytes: seq<Byte>, key: MaskKey)
    ensures |Mask(bytes, key)| == |bytes|
    ensures Mask(Mask(bytes, key), key) == bytes
  {
    MaskFromTwice(bytes, key, 0);
  }

  /** Masking a payload piecewise, each piece from its own offset, is
      masking it whole. */
  lemma MaskFromSplit(a: seq<Byte>, b: seq<Byte>, key: MaskKey, offset: nat)
    ensures MaskFrom(a + b, key, offset) == MaskFrom(a, key, offset) + MaskFrom(b, key, offset + |a|)
  {
    var whole := MaskFrom(a + b, key, offset);
    var parts := MaskFrom(a, key, offset) + MaskFrom(b, key, offset + |a|);
    forall i | 0 <= i < |a + b|
      ensures whole[i] == parts[i]
    {
      if i >= |a| {
        assert (a + b)[i] == b[i - |a|];
        assert offset + i == offset + |a| + (i - |a|);
      }
    }
  }
}
