/**
 * Delta encoding (`TSPackDeltaStrategy`): the first value is stored as is,
 * every later value as its difference from the previous raw value; decoding
 * is a running sum. Arithmetic is exact, so the round trip is exact.
 */
module Delta {
  import opened Types

  /** The encoding of `s`: degenerate ranges at each timestamp holding the first value, then successive differences. */
  function Encoded(s: seq<Sample<real>>): (p: seq<PackedSample<real>>)
    ensures |p| == |s|
  {
    seq(|s|, i requires 0 <= i < |s| =>
      PackedSample(s[i].ts, s[i].ts, if i == 0 then s[0].value else s[i].value - s[i - 1].value))
  }

  /** The sum of the stored values `p[0..i]`, inclusive of `i`. */
  function RunningSum(p: seq<PackedSample<real>>, i: nat): real
    requires i < |p|
  {
    if i == 0 then p[0].value else RunningSum(p, i - 1) + p[i].value
  }

  /** The decoding of `p`: each range's start with the running sum of the stored values. */
  function Decoded(p: seq<PackedSample<real>>): (s: seq<Sample<real>>)
    ensures |s| == |p|
  {
    seq(|p|, i requires 0 <= i < |p| => Sample(p[i].start, RunningSum(p, i)))
  }

  /** Decoding is a running sum: the first value is the first stored value, every later one the previous decoded value plus its stored value. */
  lemma DecodedIsRunningSum(p: seq<PackedSample<real>>)
    ensures |p| > 0 ==> Decoded(p)[0].value == p[0].value
    ensures forall i0, i1 | 0 <= i0 && i1 == i0 + 1 && i1 < |p| :: Decoded(p)[i1].value == Decoded(p)[i0].value + p[i1].value
  {
  }

  /** Each decoded value is the sample value the encoding started from. */
  lemma {:induction false} RunningSumOfEncoded(s: seq<Sample<real>>, i: nat)
    requires i < |s|
    ensures RunningSum(Encoded(s), i) == s[i].value
  {
    if i > 0 {
      RunningSumOfEncoded(s, i - 1);
    }
  }

  /** Decoding undoes encoding exactly. */
  lemma DecodeEncode(s: seq<Sample<real>>)
    ensures Decoded(Encoded(s)) == s
  {
    forall i | 0 <= i < |s|
      ensures Decoded(Encoded(s))[i] == s[i]
    {
      RunningSumOfEncoded(s, i);
    }
  }

  /** Encoding the decoding of `p` gives back range `i` when that range is degenerate. */
  lemma EncodedOfDecodedAt(p: seq<PackedSample<real>>, i: nat)
    requires i < |p| && p[i].start == p[i].end
    ensures Encoded(Decoded(p))[i] == p[i]
  {
    var d := Decoded(p);
    assert d[i] == Sample(p[i].start, RunningSum(p, i));
    var stored := if i == 0 then d[0].value else d[i].value - d[i - 1].value;
    if i > 0 {
      assert d[i - 1].value == RunningSum(p, i - 1);
      assert RunningSum(p, i) == RunningSum(p, i - 1) + p[i].value;
    }
    assert stored == p[i].value;
    assert Encoded(d)[i] == PackedSample(d[i].ts, d[i].ts, stored);
  }

  /** Encoding undoes decoding for degenerate ranges, the only ones encoding produces. */
  lemma EncodeDecode(p: seq<PackedSample<real>>)
    requires forall i | 0 <= i < |p| :: p[i].start == p[i].end
    ensures Encoded(Decoded(p)) == p
  {
    forall i | 0 <= i < |p|
      ensures Encoded(Decoded(p))[i] == p[i]
    {
      EncodedOfDecodedAt(p, i);
    }
  }

  /** `pack`: a loop carrying the previous raw value. */
  method Pack(samples: seq<Sample<real>>) returns (packed: seq<PackedSample<real>>)
    ensures packed == Encoded(samples)
    ensures |samples| == 0 ==> packed == []
  {
    if |samples| == 0 {
      return [];
    }
    var t0, v0 := samples[0].ts, samples[0].value;
    packed := [PackedSample(t0, t0, v0)];
    var prev := v0;
    for i := 1 to |samples|
      invariant |packed| == i
      invariant forall j | 0 <= j < i :: packed[j] == Encoded(samples)[j]
      invariant prev == samples[i - 1].value
    {
      var t, v := samples[i].ts, samples[i].value;
      var delta := v - prev;
      packed := packed + [PackedSample(t, t, delta)];
      prev := v;
    }
  }

  /** `unpack`: a loop carrying the previous decoded value. */
  method Unpack(packed: seq<PackedSample<real>>) returns (result: seq<Sample<real>>)
    ensures result == Decoded(packed)
    ensures |packed| == 0 ==> result == []
  {
    if |packed| == 0 {
      return [];
    }
    var t0, v0 := packed[0].start, packed[0].value;
    result := [Sample(t0, v0)];
    var prev := v0;
    for i := 1 to |packed|
      invariant |result| == i
      invariant forall j | 0 <= j < i :: result[j] == Decoded(packed)[j]
      invariant prev == RunningSum(packed, i - 1)
    {
      var t, delta := packed[i].start, packed[i].value;
      var v := prev + delta;
      result := result + [Sample(t, v)];
      prev := v;
    }
  }
}
