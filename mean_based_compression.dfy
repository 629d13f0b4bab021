/**
 * Mean-band packing (`mean_pack`) and pairwise refinement of packed ranges
 * (`mean_refine_packs`).
 *
 * The band around a reference value `avg` for a percentage `p` is
 * [avg - (p/100)*avg, avg + (p/100)*avg]. Packing uses the mean of the
 * window as reference: in-band samples are grouped into ranges valued at
 * the mean, out-of-band samples pass through as degenerate ranges.
 * Refinement uses the value of the range that opened the current range.
 */
module MeanBasedCompression {
  import opened Types

  /** The sum of the values, added from the first to the last. */
  function Sum(s: seq<Sample<real>>): real
  {
    if |s| == 0 then 0.0 else Sum(s[..|s| - 1]) + s[|s| - 1].value
  }

  /** The arithmetic mean of the values. */
  function Mean(s: seq<Sample<real>>): real
    requires |s| > 0
  {
    Sum(s) / |s| as real
  }

  /** A sum of values that all lie in `[lo, hi]` lies between `|s|` times each bound. */
  lemma {:induction false} SumBounds(s: seq<Sample<real>>, lo: real, hi: real)
    requires forall i | 0 <= i < |s| :: lo <= s[i].value <= hi
    ensures lo * |s| as real <= Sum(s) <= hi * |s| as real
  {
    if |s| > 0 {
      var n := |s| - 1;
      assert forall i | 0 <= i < n :: s[..n][i] == s[i];
      SumBounds(s[..n], lo, hi);
      assert lo * |s| as real == lo * n as real + lo;
      assert hi * |s| as real == hi * n as real + hi;
    }
  }

  /** The mean of a window lies between its least and its greatest value. */
  lemma MeanBetween(s: seq<Sample<real>>, lo: real, hi: real)
    requires |s| > 0
    requires forall i | 0 <= i < |s| :: lo <= s[i].value <= hi
    ensures lo <= Mean(s) <= hi
  {
    SumBounds(s, lo, hi);
  }

  /** A closed interval of values [lower, upper]; empty when lower > upper. */
  datatype Band = Band(lower: real, upper: real)

  /** The band around `reference` for `percent`. */
  function BandAround(reference: real, percent: U8): Band
  {
    var tolerance := (percent as real / 100.0) * reference;
    Band(reference - tolerance, reference + tolerance)
  }

  /** `v` lies in band `b`. */
  predicate InBand(v: real, b: Band)
  {
    v >= b.lower && v <= b.upper
  }

  /** A non-negative reference lies in its own band. */
  lemma BandHoldsReference(reference: real, percent: U8)
    requires 0.0 <= reference
    ensures InBand(reference, BandAround(reference, percent))
  {
    assert 0.0 <= (percent as real / 100.0) * reference;
  }

  /** For a non-negative reference the band holds exactly the values within `percent`% of it. */
  lemma BandIsRelativeTolerance(v: real, reference: real, percent: U8)
    requires 0.0 <= reference
    ensures InBand(v, BandAround(reference, percent)) <==>
      (v - reference <= (percent as real / 100.0) * reference && reference - v <= (percent as real / 100.0) * reference)
  {
  }

  /** For a negative reference and a positive percentage the band is empty: its lower end exceeds its upper end. */
  lemma NegativeReferenceBandEmpty(v: real, reference: real, percent: U8)
    requires reference < 0.0 && percent > 0
    ensures BandAround(reference, percent).lower > BandAround(reference, percent).upper
    ensures !InBand(v, BandAround(reference, percent))
  {
    var f := percent as real / 100.0;
    assert f > 0.0;
    assert f * reference < 0.0;
  }

  // ---------------------------------------------------------------------------
  // Packing
  // ---------------------------------------------------------------------------

  /** The first index at or after `i` whose value is out of the band, or `|s|`. */
  function GroupEnd(s: seq<Sample<real>>, b: Band, i: nat): (k: nat)
    requires i <= |s|
    ensures i <= k <= |s|
    ensures forall j | i <= j < k :: InBand(s[j].value, b)
    ensures k < |s| ==> !InBand(s[k].value, b)
    decreases |s| - i
  {
    if i == |s| || !InBand(s[i].value, b) then i else GroupEnd(s, b, i + 1)
  }

  /**
   * The ranges for `s[st..]` before the final merge: a maximal run of
   * in-band samples becomes one range valued `avg`, an out-of-band sample
   * its own degenerate range.
   */
  function GroupsFrom(s: seq<Sample<real>>, avg: real, b: Band, st: nat): (r: seq<PackedSample<real>>)
    requires st <= |s|
    ensures |r| <= |s| - st
    ensures (|r| == 0) == (st == |s|)
    decreases |s| - st
  {
    if st == |s| then []
    else if InBand(s[st].value, b) then
      var k := GroupEnd(s, b, st + 1);
      [PackedSample(s[st].ts, s[k - 1].ts, avg)] + GroupsFrom(s, avg, b, k)
    else
      [Degenerate(s[st])] + GroupsFrom(s, avg, b, st + 1)
  }

  /** The ranges mean-band packing produces for a window, before the final merge. */
  function MeanGroups(s: seq<Sample<real>>, percent: U8): (r: seq<PackedSample<real>>)
    ensures (|r| == 0) == (|s| == 0)
    ensures |r| <= |s|
  {
    if |s| == 0 then [] else GroupsFrom(s, Mean(s), BandAround(Mean(s), percent), 0)
  }

  /** A group opened at `st` whose samples up to `i` are in band, and that `s[i]` leaves, is one range. */
  lemma GroupClosesAt(s: seq<Sample<real>>, avg: real, b: Band, st: nat, i: nat)
    requires st < i <= |s|
    requires forall j | st <= j < i :: InBand(s[j].value, b)
    requires i < |s| ==> !InBand(s[i].value, b)
    ensures GroupsFrom(s, avg, b, st) == [PackedSample(s[st].ts, s[i - 1].ts, avg)] + GroupsFrom(s, avg, b, i)
  {
    var e := GroupEnd(s, b, st + 1);
  }

  /** Scanning a prefix that ends right before an out-of-band sample stops where scanning the whole sequence does. */
  lemma {:induction false} GroupEndPrefix(s: seq<Sample<real>>, b: Band, i: nat, n: nat)
    requires i <= n <= |s|
    requires n < |s| ==> !InBand(s[n].value, b)
    ensures GroupEnd(s[..n], b, i) == GroupEnd(s, b, i)
    decreases n - i
  {
    if i < n {
      assert s[..n][i] == s[i];
      if InBand(s[i].value, b) {
        GroupEndPrefix(s, b, i + 1, n);
      }
    }
  }

  /** One step of `GroupsFrom` on a prefix ending before an out-of-band sample is the same step on the whole sequence. */
  lemma GroupsFromPrefixStep(s: seq<Sample<real>>, avg: real, b: Band, st: nat, n: nat)
    requires st < n <= |s|
    requires n < |s| ==> !InBand(s[n].value, b)
    ensures var k := if InBand(s[st].value, b) then GroupEnd(s, b, st + 1) else st + 1;
      && k <= n
      && GroupsFrom(s[..n], avg, b, st) == [GroupsFrom(s, avg, b, st)[0]] + GroupsFrom(s[..n], avg, b, k)
      && GroupsFrom(s, avg, b, st) == [GroupsFrom(s, avg, b, st)[0]] + GroupsFrom(s, avg, b, k)
  {
    var t := s[..n];
    assert t[st] == s[st];
    if InBand(s[st].value, b) {
      GroupEndPrefix(s, b, st + 1, n);
      var k := GroupEnd(s, b, st + 1);
      assert t[k - 1] == s[k - 1];
    }
  }

  /** Ranges for a slice of `s` are the ranges of that slice on its own. */
  lemma {:induction false} GroupsFromSlice(s: seq<Sample<real>>, avg: real, b: Band, st: nat, n: nat)
    requires st <= n <= |s|
    requires n < |s| ==> !InBand(s[n].value, b)
    ensures GroupsFrom(s, avg, b, st) == GroupsFrom(s[..n], avg, b, st) + GroupsFrom(s, avg, b, n)
    decreases n - st
  {
    if st < n {
      GroupsFromPrefixStep(s, avg, b, st, n);
      var k := if InBand(s[st].value, b) then GroupEnd(s, b, st + 1) else st + 1;
      GroupsFromSlice(s, avg, b, k, n);
    }
  }

  /** An out-of-band sample at `j` is its own degenerate range, between the ranges of what precedes and follows it. */
  lemma GroupsSplitAt(s: seq<Sample<real>>, avg: real, b: Band, j: nat)
    requires j < |s| && !InBand(s[j].value, b)
    ensures GroupsFrom(s, avg, b, 0)
         == GroupsFrom(s[..j], avg, b, 0) + [Degenerate(s[j])] + GroupsFrom(s, avg, b, j + 1)
  {
    GroupsFromSlice(s, avg, b, 0, j);
  }

  /** Just after an out-of-band sample, the ranges split into those of the prefix and those from there on. */
  lemma GroupsSplitAfter(s: seq<Sample<real>>, avg: real, b: Band, i: nat)
    requires 0 < i <= |s| && !InBand(s[i - 1].value, b)
    ensures GroupsFrom(s, avg, b, 0) == GroupsFrom(s[..i], avg, b, 0) + GroupsFrom(s, avg, b, i)
  {
    var t := s[..i];
    var d := [Degenerate(s[i - 1])];
    assert GroupsFrom(s, avg, b, 0) == GroupsFrom(s[..i - 1], avg, b, 0) + (d + GroupsFrom(s, avg, b, i)) by {
      GroupsFromSlice(s, avg, b, 0, i - 1);
      assert GroupsFrom(s, avg, b, i - 1) == d + GroupsFrom(s, avg, b, i);
    }
    assert GroupsFrom(t, avg, b, 0) == GroupsFrom(s[..i - 1], avg, b, 0) + d by {
      assert t[i - 1] == s[i - 1];
      GroupsFromSlice(t, avg, b, 0, i - 1);
      assert t[..i - 1] == s[..i - 1];
      assert GroupsFrom(t, avg, b, i - 1) == d;
    }
  }

  /**
   * A maximal run `s[i..j]` of in-band samples becomes one range from its
   * first to its last timestamp, valued `avg`.
   */
  lemma GroupsMaximalRun(s: seq<Sample<real>>, avg: real, b: Band, i: nat, j: nat)
    requires i < j <= |s|
    requires forall m | i <= m < j :: InBand(s[m].value, b)
    requires i > 0 ==> !InBand(s[i - 1].value, b)
    requires j < |s| ==> !InBand(s[j].value, b)
    ensures GroupsFrom(s, avg, b, 0)
         == GroupsFrom(s[..i], avg, b, 0) + [PackedSample(s[i].ts, s[j - 1].ts, avg)] + GroupsFrom(s, avg, b, j)
  {
    var run := [PackedSample(s[i].ts, s[j - 1].ts, avg)];
    if i > 0 {
      GroupsSplitAfter(s, avg, b, i);
    } else {
      assert GroupsFrom(s[..i], avg, b, 0) == [];
    }
    GroupClosesAt(s, avg, b, i, j);
    var pre := GroupsFrom(s[..i], avg, b, 0);
    assert pre + (run + GroupsFrom(s, avg, b, j)) == pre + run + GroupsFrom(s, avg, b, j);
  }

  /** If every sample is in band, the window becomes the single range from its first to its last timestamp. */
  lemma GroupsAllInBand(s: seq<Sample<real>>, avg: real, b: Band)
    requires |s| > 0
    requires forall m | 0 <= m < |s| :: InBand(s[m].value, b)
    ensures GroupsFrom(s, avg, b, 0) == [PackedSample(s[0].ts, s[|s| - 1].ts, avg)]
  {
    GroupClosesAt(s, avg, b, 0, |s|);
  }

  /** If no sample is in band, every sample passes through as its own degenerate range. */
  lemma {:induction false} GroupsNoneInBand(s: seq<Sample<real>>, avg: real, b: Band, st: nat)
    requires st <= |s|
    requires forall m | st <= m < |s| :: !InBand(s[m].value, b)
    ensures GroupsFrom(s, avg, b, st) == Degenerates(s[st..])
    decreases |s| - st
  {
    if st < |s| {
      GroupsNoneInBand(s, avg, b, st + 1);
      assert Degenerates(s[st..]) == [Degenerate(s[st])] + Degenerates(s[st + 1..]);
    }
  }

  /** A window whose mean is negative, packed with a positive percentage, comes out as one degenerate range per sample. */
  lemma MeanGroupsNegativeMean(s: seq<Sample<real>>, percent: U8)
    requires |s| > 0 && Mean(s) < 0.0 && percent > 0
    ensures MeanGroups(s, percent) == Degenerates(s)
  {
    forall m | 0 <= m < |s|
      ensures !InBand(s[m].value, BandAround(Mean(s), percent))
    {
      NegativeReferenceBandEmpty(s[m].value, Mean(s), percent);
    }
    GroupsNoneInBand(s, Mean(s), BandAround(Mean(s), percent), 0);
    assert s[0..] == s;
  }

  /** Values 100, 100, 102, 98, 100, 99 with a 5% band are all in band and become one range valued at their mean. */
  lemma MeanGroupsExample()
    ensures MeanGroups([Sample(0.0, 100.0), Sample(0.05, 100.0), Sample(0.1, 102.0),
                        Sample(0.15, 98.0), Sample(0.2, 100.0), Sample(0.25, 99.0)], 5)
         == [PackedSample(0.0, 0.25, 599.0 / 6.0)]
  {
    var s := [Sample(0.0, 100.0), Sample(0.05, 100.0), Sample(0.1, 102.0),
              Sample(0.15, 98.0), Sample(0.2, 100.0), Sample(0.25, 99.0)];
    assert s[..5][..4][..3][..2][..1][..0] == [];
    assert Sum(s[..1]) == 100.0;
    assert Sum(s[..2]) == 200.0 by { assert s[..2][..1] == s[..1]; }
    assert Sum(s[..3]) == 302.0 by { assert s[..3][..2] == s[..2]; }
    assert Sum(s[..4]) == 400.0 by { assert s[..4][..3] == s[..3]; }
    assert Sum(s[..5]) == 500.0 by { assert s[..5][..4] == s[..4]; }
    assert Sum(s) == 599.0 by { assert s[..5] == s[..|s| - 1]; }
    assert Mean(s) == 599.0 / 6.0;
    GroupsAllInBand(s, 599.0 / 6.0, BandAround(599.0 / 6.0, 5));
  }

  /**
   * The state of the packing scan after `i` samples. With a group open it
   * began at `st`, and `groupStartTs`/`groupEndTs` are the timestamps of its
   * first and latest samples; with none open, `st == i`.
   */
  ghost predicate MeanState(s: seq<Sample<real>>, avg: real, b: Band, result: seq<PackedSample<real>>,
                            groupStartTs: Option<real>, groupEndTs: Option<real>, st: nat, i: nat)
  {
    && st <= i <= |s|
    && groupStartTs.Some? == groupEndTs.Some?
    && (groupStartTs.None? ==> st == i)
    && (groupStartTs.Some? ==> st < i && groupStartTs.value == s[st].ts && groupEndTs.value == s[i - 1].ts)
    && (forall j | st <= j < i :: InBand(s[j].value, b))
    && GroupsFrom(s, avg, b, 0) == result + GroupsFrom(s, avg, b, st)
  }

  /** An out-of-band sample closes the open group, if any, and is emitted as a degenerate range. */
  lemma MeanOutOfBand(s: seq<Sample<real>>, avg: real, b: Band, result: seq<PackedSample<real>>,
                      groupStartTs: Option<real>, groupEndTs: Option<real>, st: nat, i: nat)
    requires MeanState(s, avg, b, result, groupStartTs, groupEndTs, st, i) && i < |s|
    requires !InBand(s[i].value, b)
    ensures var closed := if groupStartTs.Some?
              then result + [PackedSample(groupStartTs.value, groupEndTs.value, avg)] else result;
      MeanState(s, avg, b, closed + [PackedSample(s[i].ts, s[i].ts, s[i].value)], None, None, i + 1, i + 1)
  {
    var deg := PackedSample(s[i].ts, s[i].ts, s[i].value);
    assert GroupsFrom(s, avg, b, i) == [deg] + GroupsFrom(s, avg, b, i + 1);
    if groupStartTs.Some? {
      var group := PackedSample(groupStartTs.value, groupEndTs.value, avg);
      GroupClosesAt(s, avg, b, st, i);
      assert result + ([group] + ([deg] + GroupsFrom(s, avg, b, i + 1)))
          == ((result + [group]) + [deg]) + GroupsFrom(s, avg, b, i + 1);
    } else {
      assert result + ([deg] + GroupsFrom(s, avg, b, i + 1))
          == (result + [deg]) + GroupsFrom(s, avg, b, i + 1);
    }
  }

  /** An in-band sample opens a group when none is open, and otherwise extends the open one. */
  lemma MeanInBand(s: seq<Sample<real>>, avg: real, b: Band, result: seq<PackedSample<real>>,
                   groupStartTs: Option<real>, groupEndTs: Option<real>, st: nat, i: nat)
    requires MeanState(s, avg, b, result, groupStartTs, groupEndTs, st, i) && i < |s|
    requires InBand(s[i].value, b)
    ensures groupStartTs.None? ==> MeanState(s, avg, b, result, Some(s[i].ts), Some(s[i].ts), i, i + 1)
    ensures groupStartTs.Some? ==> MeanState(s, avg, b, result, groupStartTs, Some(s[i].ts), st, i + 1)
  {
  }

  /** After the scan, the open group, if any, is the last range. */
  lemma MeanEnds(s: seq<Sample<real>>, avg: real, b: Band, result: seq<PackedSample<real>>,
                 groupStartTs: Option<real>, groupEndTs: Option<real>, st: nat)
    requires MeanState(s, avg, b, result, groupStartTs, groupEndTs, st, |s|)
    ensures GroupsFrom(s, avg, b, 0) == if groupStartTs.Some?
      then result + [PackedSample(groupStartTs.value, groupEndTs.value, avg)] else result
  {
    if groupStartTs.Some? {
      GroupClosesAt(s, avg, b, st, |s|);
    }
  }

  /**
   * Mean-band packing of one window. The ranges before the final merge are
   * `MeanGroups`; `merge` stands for the merge of adjacent equal-valued
   * ranges the result is passed through.
   */
  method MeanPack(samples: seq<Sample<real>>, percent: U8,
                  merge: seq<PackedSample<real>> -> seq<PackedSample<real>>)
    returns (packed: seq<PackedSample<real>>)
    ensures |samples| == 0 ==> packed == []
    ensures |samples| > 0 ==> packed == merge(MeanGroups(samples, percent))
  {
    if |samples| == 0 {
      return [];
    }
    var avg := Sum(samples) / |samples| as real;
    var b := BandAround(avg, percent);
    var result: seq<PackedSample<real>> := [];
    var groupStartTs: Option<real> := None;
    var groupEndTs: Option<real> := None;
    ghost var st := 0;
    for i := 0 to |samples|
      invariant MeanState(samples, avg, b, result, groupStartTs, groupEndTs, st, i)
    {
      var (ts, v) := (samples[i].ts, samples[i].value);
      if v >= b.lower && v <= b.upper {
        MeanInBand(samples, avg, b, result, groupStartTs, groupEndTs, st, i);
        if groupStartTs.None? {
          st := i;
          groupStartTs := Some(ts);
          groupEndTs := Some(ts);
        } else {
          groupEndTs := Some(ts);
        }
      } else {
        MeanOutOfBand(samples, avg, b, result, groupStartTs, groupEndTs, st, i);
        if groupStartTs.Some? && groupEndTs.Some? {
          result := result + [PackedSample(groupStartTs.value, groupEndTs.value, avg)];
          groupStartTs := None;
          groupEndTs := None;
        }
        result := result + [PackedSample(ts, ts, v)];
        st := i + 1;
      }
    }
    MeanEnds(samples, avg, b, result, groupStartTs, groupEndTs, st);
    if groupStartTs.Some? && groupEndTs.Some? {
      result := result + [PackedSample(groupStartTs.value, groupEndTs.value, avg)];
    }
    packed := merge(result);
  }

  // ---------------------------------------------------------------------------
  // Refinement
  // ---------------------------------------------------------------------------

  /** The first index at or after `i` whose range value is out of band `b`, or `|p|`. */
  function RefineEnd(p: seq<PackedSample<real>>, b: Band, i: nat): (k: nat)
    requires i <= |p|
    ensures i <= k <= |p|
    ensures forall j | i <= j < k :: InBand(p[j].value, b)
    ensures k < |p| ==> !InBand(p[k].value, b)
    decreases |p| - i
  {
    if i == |p| || !InBand(p[i].value, b) then i else RefineEnd(p, b, i + 1)
  }

  /**
   * The refinement of `p[st..]`: the range at `st` opens an output range,
   * which absorbs every following range whose value lies in the band around
   * the opener's value; the first range outside it opens the next output range.
   */
  function RefinedFrom(p: seq<PackedSample<real>>, bandOf: real -> Band, st: nat): (r: seq<PackedSample<real>>)
    requires st <= |p|
    ensures |r| <= |p| - st
    ensures (|r| == 0) == (st == |p|)
    decreases |p| - st
  {
    if st == |p| then []
    else
      var k := RefineEnd(p, bandOf(p[st].value), st + 1);
      [PackedSample(p[st].start, p[k - 1].end, p[st].value)] + RefinedFrom(p, bandOf, k)
  }

  /** The band around each reference value for `percent`. */
  function PercentBand(percent: U8): real -> Band
  {
    reference => BandAround(reference, percent)
  }

  /** The band `PercentBand` gives for a reference value is the band around it for `percent`. */
  lemma PercentBandAt(percent: U8, reference: real)
    ensures PercentBand(percent)(reference) == BandAround(reference, percent)
  {
  }

  /** The refinement of a sequence of packed ranges, with the band around each opener's value for `percent`. */
  function Refined(p: seq<PackedSample<real>>, percent: U8): (r: seq<PackedSample<real>>)
    ensures |r| <= |p|
    ensures (|r| == 0) == (|p| == 0)
  {
    RefinedFrom(p, PercentBand(percent), 0)
  }

  lemma {:induction false} RefinedFromBounds(p: seq<PackedSample<real>>, bandOf: real -> Band, st: nat)
    requires st < |p|
    ensures var r := RefinedFrom(p, bandOf, st);
      r[0].start == p[st].start && r[0].value == p[st].value && r[|r| - 1].end == p[|p| - 1].end
    decreases |p| - st
  {
    var k := RefineEnd(p, bandOf(p[st].value), st + 1);
    assert RefinedFrom(p, bandOf, st) == [PackedSample(p[st].start, p[k - 1].end, p[st].value)] + RefinedFrom(p, bandOf, k);
    if k < |p| {
      RefinedFromBounds(p, bandOf, k);
    }
  }

  /** The refinement starts where the first input range starts, with its value, and ends where the last input range ends. */
  lemma RefinedBounds(p: seq<PackedSample<real>>, percent: U8)
    requires |p| > 0
    ensures Refined(p, percent)[0].start == p[0].start
    ensures Refined(p, percent)[0].value == p[0].value
    ensures Refined(p, percent)[|Refined(p, percent)| - 1].end == p[|p| - 1].end
  {
    RefinedFromBounds(p, PercentBand(percent), 0);
  }

  /** An output range opened at `st` whose followers up to `i` are in band, and that `p[i]` leaves, is one range. */
  lemma RefineClosesAt(p: seq<PackedSample<real>>, bandOf: real -> Band, st: nat, i: nat)
    requires st < i <= |p|
    requires forall j | st < j < i :: InBand(p[j].value, bandOf(p[st].value))
    requires i < |p| ==> !InBand(p[i].value, bandOf(p[st].value))
    ensures RefinedFrom(p, bandOf, st) == [PackedSample(p[st].start, p[i - 1].end, p[st].value)] + RefinedFrom(p, bandOf, i)
  {
    var e := RefineEnd(p, bandOf(p[st].value), st + 1);
  }

  /** `RefineEnd` depends only on the suffix it scans. */
  lemma {:induction false} RefineEndShift(p: seq<PackedSample<real>>, q: seq<PackedSample<real>>, b: Band, i: nat, j: nat)
    requires i <= |p| && j <= |q| && p[i..] == q[j..]
    ensures RefineEnd(p, b, i) - i == RefineEnd(q, b, j) - j
    decreases |p| - i
  {
    if i < |p| {
      assert p[i] == p[i..][0] == q[j..][0] == q[j];
      if InBand(p[i].value, b) {
        assert p[i + 1..] == p[i..][1..] == q[j..][1..] == q[j + 1..];
        RefineEndShift(p, q, b, i + 1, j + 1);
      }
    }
  }

  /** `RefinedFrom` depends only on the suffix it refines. */
  lemma {:induction false} RefinedFromShift(p: seq<PackedSample<real>>, q: seq<PackedSample<real>>, bandOf: real -> Band, i: nat, j: nat)
    requires i <= |p| && j <= |q| && p[i..] == q[j..]
    ensures RefinedFrom(p, bandOf, i) == RefinedFrom(q, bandOf, j)
    decreases |p| - i
  {
    if i < |p| {
      assert p[i] == p[i..][0] == q[j..][0] == q[j];
      var b := bandOf(p[i].value);
      assert p[i + 1..] == q[j + 1..] by {
        assert p[i + 1..] == p[i..][1..];
        assert q[j + 1..] == q[j..][1..];
      }
      RefineEndShift(p, q, b, i + 1, j + 1);
      var kp := RefineEnd(p, b, i + 1);
      var kq := RefineEnd(q, b, j + 1);
      assert p[kp - 1] == q[kq - 1] by {
        assert p[kp - 1] == p[i..][kp - 1 - i];
        assert q[kq - 1] == q[j..][kq - 1 - j];
      }
      assert p[kp..] == q[kq..] by {
        assert p[kp..] == p[i..][kp - i..];
        assert q[kq..] == q[j..][kq - j..];
      }
      RefinedFromShift(p, q, bandOf, kp, kq);
    }
  }

  /** A second range whose value is out of the band around the first's value leaves the first range as it is. */
  lemma RefineEmits(p: seq<PackedSample<real>>, percent: U8)
    requires |p| >= 2 && !InBand(p[1].value, BandAround(p[0].value, percent))
    ensures Refined(p, percent) == [p[0]] + Refined(p[1..], percent)
  {
    var bandOf := PercentBand(percent);
    RefineClosesAt(p, bandOf, 0, 1);
    RefinedFromShift(p, p[1..], bandOf, 1, 0);
  }

  /**
   * A second range whose value is in the band around the first's value is
   * absorbed: the first range's end becomes the second's end, its start and
   * value stay, and refinement goes on from the combined range.
   */
  lemma RefineAbsorbs(p: seq<PackedSample<real>>, percent: U8)
    requires |p| >= 2 && InBand(p[1].value, BandAround(p[0].value, percent))
    ensures Refined(p, percent) == Refined([PackedSample(p[0].start, p[1].end, p[0].value)] + p[2..], percent)
  {
    var bandOf := PercentBand(percent);
    var q := [PackedSample(p[0].start, p[1].end, p[0].value)] + p[2..];
    var b := bandOf(p[0].value);
    assert q[1..] == p[2..];
    RefineEndShift(p, q, b, 2, 1);
    var kp := RefineEnd(p, b, 2);
    var kq := RefineEnd(q, b, 1);
    assert RefineEnd(p, b, 1) == kp;
    assert kp == kq + 1;
    assert p[kp - 1].end == q[kq - 1].end by {
      if kq > 1 { assert q[kq - 1] == p[kq]; }
    }
    assert p[kp..] == q[kq..] by {
      assert q[kq..] == q[1..][kq - 1..];
      assert p[kp..] == p[2..][kp - 2..];
    }
    RefinedFromShift(p, q, bandOf, kp, kq);
  }

  /** Each output range's value is out of the band around the previous output range's value. */
  ghost predicate AdjacentRejected(r: seq<PackedSample<real>>, bandOf: real -> Band)
  {
    forall k0, k1 | 0 <= k0 && k1 == k0 + 1 && k1 < |r| :: !InBand(r[k1].value, bandOf(r[k0].value))
  }

  lemma {:induction false} RefinedFromAdjacentRejected(p: seq<PackedSample<real>>, bandOf: real -> Band, st: nat)
    requires st <= |p|
    ensures AdjacentRejected(RefinedFrom(p, bandOf, st), bandOf)
    decreases |p| - st
  {
    if st < |p| {
      var k := RefineEnd(p, bandOf(p[st].value), st + 1);
      assert RefinedFrom(p, bandOf, st) == [PackedSample(p[st].start, p[k - 1].end, p[st].value)] + RefinedFrom(p, bandOf, k);
      RefinedFromAdjacentRejected(p, bandOf, k);
    }
  }

  /** No two neighbouring output ranges could have been combined. */
  lemma RefinedAdjacentRejected(p: seq<PackedSample<real>>, percent: U8)
    ensures AdjacentRejected(Refined(p, percent), PercentBand(percent))
  {
    RefinedFromAdjacentRejected(p, PercentBand(percent), 0);
  }

  /** The indices of the input ranges that open an output range in the refinement of `p[st..]`. */
  function Openers(p: seq<PackedSample<real>>, bandOf: real -> Band, st: nat): (idx: seq<nat>)
    requires st <= |p|
    decreases |p| - st
  {
    if st == |p| then []
    else [st] + Openers(p, bandOf, RefineEnd(p, bandOf(p[st].value), st + 1))
  }

  /**
   * Output range `m` starts and takes its value from input range `idx[m]`,
   * the opener indices increase, and output range `m` ends where the input
   * range just before the next opener ends.
   */
  ghost predicate OpenedBy(r: seq<PackedSample<real>>, p: seq<PackedSample<real>>, idx: seq<nat>, st: nat)
  {
    && |idx| == |r|
    && (forall m | 0 <= m < |r| :: st <= idx[m] < |p| && r[m].start == p[idx[m]].start && r[m].value == p[idx[m]].value)
    && Increasing(idx)
    && (forall m1, m2 | 0 <= m1 && m2 == m1 + 1 && m2 < |r| :: r[m1].end == p[idx[m2] - 1].end)
  }

  /** Putting an opener `st` in front of ranges opened from `k` on keeps the opener property. */
  lemma OpenedByCons(p: seq<PackedSample<real>>, head: PackedSample<real>, rest: seq<PackedSample<real>>,
                     tail: seq<nat>, st: nat, k: nat)
    requires st < k <= |p| && OpenedBy(rest, p, tail, k)
    requires head.start == p[st].start && head.value == p[st].value
    requires |rest| > 0 ==> tail[0] == k && head.end == p[k - 1].end
    ensures OpenedBy([head] + rest, p, [st] + tail, st)
  {
    var r, idx := [head] + rest, [st] + tail;
    forall m | 0 <= m < |r|
      ensures st <= idx[m] < |p| && r[m].start == p[idx[m]].start && r[m].value == p[idx[m]].value
    {
      if m > 0 {
        assert r[m] == rest[m - 1] && idx[m] == tail[m - 1];
      }
    }
    PrependIncreasing(st, tail);
    forall m1, m2 | 0 <= m1 && m2 == m1 + 1 && m2 < |r|
      ensures r[m1].end == p[idx[m2] - 1].end
    {
      assert idx[m2] == tail[m1];
      if m1 > 0 {
        assert r[m1] == rest[m1 - 1] && idx[m1] == tail[m1 - 1];
      }
    }
  }

  lemma {:induction false} RefinedFromOpenedBy(p: seq<PackedSample<real>>, bandOf: real -> Band, st: nat)
    requires st <= |p|
    ensures OpenedBy(RefinedFrom(p, bandOf, st), p, Openers(p, bandOf, st), st)
    ensures st < |p| ==> Openers(p, bandOf, st)[0] == st
    decreases |p| - st
  {
    if st < |p| {
      var k := RefineEnd(p, bandOf(p[st].value), st + 1);
      assert RefinedFrom(p, bandOf, st) == [PackedSample(p[st].start, p[k - 1].end, p[st].value)] + RefinedFrom(p, bandOf, k);
      assert Openers(p, bandOf, st) == [st] + Openers(p, bandOf, k);
      RefinedFromOpenedBy(p, bandOf, k);
      var head := PackedSample(p[st].start, p[k - 1].end, p[st].value);
      OpenedByCons(p, head, RefinedFrom(p, bandOf, k), Openers(p, bandOf, k), st, k);
    }
  }

  /** Refinement emits its openers in input order, each with its own start and value. */
  lemma RefinedOpenedBy(p: seq<PackedSample<real>>, percent: U8)
    ensures OpenedBy(Refined(p, percent), p, Openers(p, PercentBand(percent), 0), 0)
  {
    RefinedFromOpenedBy(p, PercentBand(percent), 0);
  }

  /** Input range `x` lies inside output range `y` and is its opener or its value is in the band around `y`'s value. */
  ghost predicate Absorbed(y: PackedSample<real>, x: PackedSample<real>, bandOf: real -> Band)
  {
    && y.start <= x.start && x.end <= y.end
    && (x.value == y.value || InBand(x.value, bandOf(y.value)))
  }

  /** Every input range from `st` on is absorbed into some range of `r`. */
  ghost predicate Covers(r: seq<PackedSample<real>>, p: seq<PackedSample<real>>, bandOf: real -> Band, st: nat)
  {
    forall j | st <= j < |p| :: exists m :: 0 <= m < |r| && Absorbed(r[m], p[j], bandOf)
  }

  /** The range opened at `st` and closed before `k`, in front of ordered ranges covering `p[k..]`, gives ordered ranges covering `p[st..]`. */
  lemma CoversCons(p: seq<PackedSample<real>>, bandOf: real -> Band, rest: seq<PackedSample<real>>, st: nat, k: nat)
    requires OrderedRanges(p) && st < k <= |p|
    requires forall j | st < j < k :: InBand(p[j].value, bandOf(p[st].value))
    requires OrderedRanges(rest) && Covers(rest, p, bandOf, k)
    requires (|rest| == 0) == (k == |p|)
    requires k < |p| ==> rest[0].start == p[k].start
    ensures var r := [PackedSample(p[st].start, p[k - 1].end, p[st].value)] + rest;
      OrderedRanges(r) && Covers(r, p, bandOf, st)
  {
    var head := PackedSample(p[st].start, p[k - 1].end, p[st].value);
    var r := [head] + rest;
    forall j | st <= j < |p|
      ensures exists m :: 0 <= m < |r| && Absorbed(r[m], p[j], bandOf)
    {
      if j < k {
        assert Absorbed(r[0], p[j], bandOf);
      } else {
        var m :| 0 <= m < |rest| && Absorbed(rest[m], p[j], bandOf);
        assert r[m + 1] == rest[m];
      }
    }
    forall i, j | 0 <= i < j < |r|
      ensures r[i].end <= r[j].start
    {
      assert r[j] == rest[j - 1];
      if i == 0 {
        if k < |p| {
          assert p[k - 1].end <= p[k].start;
          assert rest[0].start <= rest[0].end;
          assert j > 1 ==> rest[0].end <= rest[j - 1].start;
        }
      } else {
        assert r[i] == rest[i - 1];
      }
    }
  }

  /** Refining ordered ranges gives ordered ranges, and every input range is absorbed into some output range. */
  lemma {:induction false} RefinedFromCovers(p: seq<PackedSample<real>>, bandOf: real -> Band, st: nat)
    requires st <= |p| && OrderedRanges(p)
    ensures OrderedRanges(RefinedFrom(p, bandOf, st)) && Covers(RefinedFrom(p, bandOf, st), p, bandOf, st)
    decreases |p| - st
  {
    if st < |p| {
      var k := RefineEnd(p, bandOf(p[st].value), st + 1);
      assert RefinedFrom(p, bandOf, st) == [PackedSample(p[st].start, p[k - 1].end, p[st].value)] + RefinedFrom(p, bandOf, k);
      RefinedFromCovers(p, bandOf, k);
      if k < |p| {
        RefinedFromBounds(p, bandOf, k);
      }
      CoversCons(p, bandOf, RefinedFrom(p, bandOf, k), st, k);
    }
  }

  /** Refinement of ordered ranges is ordered and absorbs every input range into an output range. */
  lemma RefinedCovers(p: seq<PackedSample<real>>, percent: U8)
    requires OrderedRanges(p)
    ensures OrderedRanges(Refined(p, percent))
    ensures Covers(Refined(p, percent), p, PercentBand(percent), 0)
  {
    RefinedFromCovers(p, PercentBand(percent), 0);
  }

  /**
   * The state of the refinement walk before range `i`: `current` is the
   * output range opened at `st` with everything up to `i` absorbed.
   */
  ghost predicate RefineState(p: seq<PackedSample<real>>, bandOf: real -> Band, merged: seq<PackedSample<real>>,
                              current: PackedSample<real>, st: nat, i: nat)
  {
    && st < i <= |p|
    && current == PackedSample(p[st].start, p[i - 1].end, p[st].value)
    && (forall j | st < j < i :: InBand(p[j].value, bandOf(p[st].value)))
    && RefinedFrom(p, bandOf, 0) == merged + RefinedFrom(p, bandOf, st)
  }

  /** The walk absorbs a next range in the band around the current value. */
  lemma RefineStepAbsorb(p: seq<PackedSample<real>>, bandOf: real -> Band, merged: seq<PackedSample<real>>,
                         current: PackedSample<real>, st: nat, i: nat)
    requires RefineState(p, bandOf, merged, current, st, i) && i < |p|
    requires InBand(p[i].value, bandOf(current.value))
    ensures RefineState(p, bandOf, merged, PackedSample(current.start, p[i].end, current.value), st, i + 1)
  {
  }

  /** The walk emits the current range when the next range is out of band, and opens a new one there. */
  lemma RefineStepEmit(p: seq<PackedSample<real>>, bandOf: real -> Band, merged: seq<PackedSample<real>>,
                       current: PackedSample<real>, st: nat, i: nat)
    requires RefineState(p, bandOf, merged, current, st, i) && i < |p|
    requires !InBand(p[i].value, bandOf(current.value))
    ensures RefineState(p, bandOf, merged + [current], p[i], i, i + 1)
  {
    var rest := RefinedFrom(p, bandOf, i);
    assert RefinedFrom(p, bandOf, st) == [current] + rest by {
      RefineClosesAt(p, bandOf, st, i);
    }
    assert merged + ([current] + rest) == (merged + [current]) + rest;
    assert p[i] == PackedSample(p[i].start, p[i].end, p[i].value);
  }

  /** At the end of the walk the current range is the last output range. */
  lemma RefineStepEnd(p: seq<PackedSample<real>>, bandOf: real -> Band, merged: seq<PackedSample<real>>,
                      current: PackedSample<real>, st: nat)
    requires RefineState(p, bandOf, merged, current, st, |p|)
    ensures RefinedFrom(p, bandOf, 0) == merged + [current]
  {
    assert RefinedFrom(p, bandOf, st) == [current] + RefinedFrom(p, bandOf, |p|) by {
      RefineClosesAt(p, bandOf, st, |p|);
    }
    assert RefinedFrom(p, bandOf, |p|) == [];
    assert [current] + [] == [current];
  }

  /** Pairwise refinement of packed ranges; empty input is returned unchanged. */
  method MeanRefinePacks(packs: seq<PackedSample<real>>, percent: U8) returns (merged: seq<PackedSample<real>>)
    ensures merged == Refined(packs, percent)
    ensures |packs| == 0 ==> merged == packs
  {
    if |packs| == 0 {
      return packs;
    }
    ghost var bandOf := PercentBand(percent);
    merged := [];
    var current := packs[0];
    ghost var st := 0;
    for i := 1 to |packs|
      invariant RefineState(packs, bandOf, merged, current, st, i)
    {
      var next := packs[i];
      var avg := current.value;
      var band := BandAround(avg, percent);
      PercentBandAt(percent, avg);
      if next.value >= band.lower && next.value <= band.upper {
        RefineStepAbsorb(packs, bandOf, merged, current, st, i);
        current := PackedSample(current.start, next.end, avg);
      } else {
        RefineStepEmit(packs, bandOf, merged, current, st, i);
        merged := merged + [current];
        current := next;
        st := i;
      }
    }
    RefineStepEnd(packs, bandOf, merged, current, st);
    merged := merged + [current];
  }
}
