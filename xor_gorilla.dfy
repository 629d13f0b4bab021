/**
 * XOR encoding in the style of the Gorilla time-series store: the first
 * value is stored as is, every later value as the XOR of its 64-bit pattern
 * with the previous raw value's pattern. A value is modelled by its bit
 * pattern, so the round trip is bit-exact for every pattern.
 */
module XorGorilla {
  import opened Types

  /** A 64-bit floating-point value, represented by its bit pattern; the encoding and decoding below work on patterns directly. */
  type F64 = bv64

  /** `f64::to_bits`: the value's bit pattern. */
  function F64ToBits(v: F64): (b: bv64)
  {
    v
  }

  /** `f64::from_bits`: the value with the given bit pattern. */
  function BitsToF64(b: bv64): (v: F64)
  {
    b
  }

  /** `f64::from_bits` and `f64::to_bits` are mutually inverse: the value-to-pattern round trip the encoding relies on is lossless both ways. */
  lemma BitsInverse(b: bv64, v: F64)
    ensures F64ToBits(BitsToF64(b)) == b
    ensures BitsToF64(F64ToBits(v)) == v
  {
  }

  /** The value stored for sample `i`: the first value as is, later ones as the XOR of its pattern with its predecessor's. */
  function StoredValue(s: seq<Sample<F64>>, i: nat): F64
    requires i < |s|
  {
    if i == 0 then s[0].value else s[i - 1].value ^ s[i].value
  }

  /** The encoding of `s`: degenerate ranges at each timestamp holding the stored values. */
  function Encoded(s: seq<Sample<F64>>): (p: seq<PackedSample<F64>>)
    ensures |p| == |s|
  {
    seq(|s|, i requires 0 <= i < |s| => PackedSample(s[i].ts, s[i].ts, StoredValue(s, i)))
  }

  /** XOR with the same pattern twice cancels. */
  lemma XorCancel(a: bv64, b: bv64)
    ensures a ^ (a ^ b) == b
  {
  }

  /** The XOR of the stored patterns `p[0..i]`, inclusive of `i`. */
  function XorPrefix(p: seq<PackedSample<F64>>, i: nat): bv64
    requires i < |p|
  {
    if i == 0 then p[0].value else XorPrefix(p, i - 1) ^ p[i].value
  }

  /** The decoding of `p`: each range's start with the accumulated XOR of the stored patterns. */
  function Decoded(p: seq<PackedSample<F64>>): (s: seq<Sample<F64>>)
    ensures |s| == |p|
  {
    seq(|p|, i requires 0 <= i < |p| => Sample(p[i].start, XorPrefix(p, i)))
  }

  /** Decoding rebuilds each pattern from the previously rebuilt one: `b_i = b_(i-1) ^ x_i`. */
  lemma DecodedChains(p: seq<PackedSample<F64>>)
    ensures |p| > 0 ==> Decoded(p)[0].value == p[0].value
    ensures forall i0, i1 | 0 <= i0 && i1 == i0 + 1 && i1 < |p| :: Decoded(p)[i1].value == Decoded(p)[i0].value ^ p[i1].value
  {
  }

  /** Each rebuilt pattern is the pattern of the sample the encoding started from. */
  lemma {:induction false} XorPrefixOfEncoded(s: seq<Sample<F64>>, i: nat)
    requires i < |s|
    ensures XorPrefix(Encoded(s), i) == s[i].value
  {
    if i > 0 {
      XorPrefixOfEncoded(s, i - 1);
      XorCancel(s[i - 1].value, s[i].value);
    }
  }

  /** Decoding undoes encoding bit-exactly. */
  lemma DecodeEncode(s: seq<Sample<F64>>)
    ensures Decoded(Encoded(s)) == s
  {
    forall i | 0 <= i < |s|
      ensures Decoded(Encoded(s))[i] == s[i]
    {
      XorPrefixOfEncoded(s, i);
    }
  }

  /** Encoding the decoding of `p` gives back range `i` when that range is degenerate. */
  lemma EncodedOfDecodedAt(p: seq<PackedSample<F64>>, i: nat)
    requires i < |p| && p[i].start == p[i].end
    ensures Encoded(Decoded(p))[i] == p[i]
  {
    if i > 0 {
      XorCancel(XorPrefix(p, i - 1), p[i].value);
    }
  }

  /** Encoding undoes decoding for degenerate ranges, the only ones encoding produces. */
  lemma EncodeDecode(p: seq<PackedSample<F64>>)
    requires forall i | 0 <= i < |p| :: p[i].start == p[i].end
    ensures Encoded(Decoded(p)) == p
  {
    forall i | 0 <= i < |p|
      ensures Encoded(Decoded(p))[i] == p[i]
    {
      EncodedOfDecodedAt(p, i);
    }
  }

  /** The round trip on the values 100.0, 101.0, 105.5 and -50.25, given as their IEEE 754 bit patterns. */
  lemma RoundTripExample()
    ensures var s := [Sample(0.0, 0x4059_0000_0000_0000 as F64), Sample(0.1, 0x4059_4000_0000_0000 as F64),
                      Sample(0.2, 0x405A_6000_0000_0000 as F64), Sample(0.3, 0xC049_2000_0000_0000 as F64)];
      Decoded(Encoded(s)) == s
  {
    var s := [Sample(0.0, 0x4059_0000_0000_0000 as F64), Sample(0.1, 0x4059_4000_0000_0000 as F64),
              Sample(0.2, 0x405A_6000_0000_0000 as F64), Sample(0.3, 0xC049_2000_0000_0000 as F64)];
    DecodeEncode(s);
  }

  /** Appending the stored value for sample `i` extends an encoded prefix by one. */
  lemma EncodedPrefixStep(s: seq<Sample<F64>>, result: seq<PackedSample<F64>>, i: nat)
    requires i < |s| && |result| == i
    requires forall j | 0 <= j < i :: result[j] == Encoded(s)[j]
    ensures forall j | 0 <= j < i + 1 :: (result + [PackedSample(s[i].ts, s[i].ts, StoredValue(s, i))])[j] == Encoded(s)[j]
  {
  }

  /** Appending the rebuilt value for range `i` extends a decoded prefix by one. */
  lemma DecodedPrefixStep(p: seq<PackedSample<F64>>, result: seq<Sample<F64>>, i: nat)
    requires i < |p| && |result| == i
    requires forall j | 0 <= j < i :: result[j] == Decoded(p)[j]
    ensures forall j | 0 <= j < i + 1 :: (result + [Sample(p[i].start, XorPrefix(p, i))])[j] == Decoded(p)[j]
  {
  }

  /** `xor_pack`: a loop carrying the previous raw pattern. */
  method XorPack(samples: seq<Sample<F64>>) returns (result: seq<PackedSample<F64>>)
    ensures result == Encoded(samples)
    ensures |samples| == 0 ==> result == []
  {
    if |samples| == 0 {
      return [];
    }
    var prevBits := F64ToBits(samples[0].value);
    result := [PackedSample(samples[0].ts, samples[0].ts, samples[0].value)];
    for i := 1 to |samples|
      invariant |result| == i
      invariant forall j | 0 <= j < i :: result[j] == Encoded(samples)[j]
      invariant prevBits == samples[i - 1].value
    {
      var ts, val := samples[i].ts, samples[i].value;
      var bits := F64ToBits(val);
      var xor := prevBits ^ bits;
      var xorAsF64 := BitsToF64(xor);
      EncodedPrefixStep(samples, result, i);
      result := result + [PackedSample(ts, ts, xorAsF64)];
      prevBits := bits;
    }
  }

  /** `xor_unpack`: a loop carrying the previously rebuilt pattern. */
  method XorUnpack(packed: seq<PackedSample<F64>>) returns (result: seq<Sample<F64>>)
    ensures result == Decoded(packed)
    ensures |packed| == 0 ==> result == []
  {
    if |packed| == 0 {
      return [];
    }
    var firstVal := packed[0].value;
    result := [Sample(packed[0].start, firstVal)];
    var prevBits := F64ToBits(firstVal);
    for i := 1 to |packed|
      invariant |result| == i
      invariant forall j | 0 <= j < i :: result[j] == Decoded(packed)[j]
      invariant prevBits == XorPrefix(packed, i - 1)
    {
      var ts, xorAsF64 := packed[i].start, packed[i].value;
      var xorBits := F64ToBits(xorAsF64);
      var newBits := prevBits ^ xorBits;
      var newVal := BitsToF64(newBits);
      DecodedPrefixStep(packed, result, i);
      result := result + [Sample(ts, newVal)];
      prevBits := newBits;
    }
  }
}
