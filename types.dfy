/**
 * The records that flow through the packer (the `TSSamples` and
 * `TSPackedSamples` aliases of the library), the small wrappers the
 * rest of the model uses, and sequence utilities shared by every
 * component.
 *
 * Timestamps are exact reals. A value's type is a parameter: the
 * delta and mean strategies use `real`, similar-values packing uses a
 * real-or-NaN value, and the XOR strategy uses the value's 64-bit pattern.
 */
module Types {

  /** A raw sample: a timestamp in seconds and a value. */
  datatype Sample<V> = Sample(ts: real, value: V)

  /** A packed range: the inclusive span [start, end] over which `value` holds. */
  datatype PackedSample<V> = PackedSample(start: real, end: real, value: V)

  datatype Option<T> = None | Some(value: T)

  datatype Result<T, E> = Ok(value: T) | Err(error: E)

  /** Rust's `u8` and `u64`. */
  type U8 = x: int | 0 <= x < 0x100
  type U64 = x: int | 0 <= x < 0x1_0000_0000_0000_0000

  /** A sample as a range of zero width at its own timestamp. */
  function Degenerate<V>(x: Sample<V>): PackedSample<V>
  {
    PackedSample(x.ts, x.ts, x.value)
  }

  /** Every sample as its own degenerate range, in order. */
  function Degenerates<V>(s: seq<Sample<V>>): (r: seq<PackedSample<V>>)
    ensures |r| == |s|
    ensures forall i | 0 <= i < |s| :: r[i] == Degenerate(s[i])
  {
    seq(|s|, i requires 0 <= i < |s| => Degenerate(s[i]))
  }

  /** The concatenation of a sequence of sequences, in order. */
  function Concat<T>(ss: seq<seq<T>>): seq<T>
  {
    if |ss| == 0 then [] else ss[0] + Concat(ss[1..])
  }

  /** Timestamps never decrease along the sequence. */
  ghost predicate SortedByTs<V>(s: seq<Sample<V>>)
  {
    forall i, j | 0 <= i < j < |s| :: s[i].ts <= s[j].ts
  }

  /** Each range starts no later than it ends, and ends no later than any later range starts. */
  ghost predicate OrderedRanges<V>(r: seq<PackedSample<V>>)
  {
    && (forall k | 0 <= k < |r| :: r[k].start <= r[k].end)
    && (forall i, j | 0 <= i < j < |r| :: r[i].end <= r[j].start)
  }

  /** The indices increase strictly along the sequence. */
  ghost predicate Increasing(idx: seq<nat>)
  {
    forall m1, m2 | 0 <= m1 < m2 < |idx| :: idx[m1] < idx[m2]
  }

  /** An index below every element of an increasing sequence can be put in front of it. */
  lemma PrependIncreasing(i: nat, idx: seq<nat>)
    requires Increasing(idx)
    requires forall m | 0 <= m < |idx| :: i < idx[m]
    ensures Increasing([i] + idx)
  {
    var r := [i] + idx;
    forall m1, m2 | 0 <= m1 < m2 < |r|
      ensures r[m1] < r[m2]
    {
      assert r[m2] == idx[m2 - 1];
      if m1 > 0 {
        assert r[m1] == idx[m1 - 1];
      }
    }
  }
}
