/**
 * The packer object (`TimeSeriesDataPacker`): configuration, strategy
 * selection and the pack pipeline. Packing rejects a zero window before
 * touching anything, sorts the samples stably by timestamp, cuts them into
 * windows, folds the strategy list over each window from left to right,
 * concatenates the per-window results, merges once, and stores the
 * configuration, the sorted samples and the result in its fields.
 *
 * The strategy step and the final merge have no body in the library; they are
 * parameters here (`apply` and `merge`), and nothing is assumed about them.
 */
module Packer {
  import opened Types
  import opened Helpers

  /** `TSPackStrategyType`. */
  datatype StrategyType = SimilarValuesStrategy | MeanStrategy(valuesCompressionPercent: U8)

  /** `TSPackAttributes`. */
  datatype PackAttributes = PackAttributes(strategyTypes: seq<StrategyType>, microsecondsTimeWindow: U64)

  /** `TSPackError`. */
  datatype PackError = InvalidWindow

  // ---------------------------------------------------------------------------
  // Stable sort by timestamp
  // ---------------------------------------------------------------------------

  /** `x` placed before the first element of `r` whose timestamp is not smaller. */
  function Insert<V>(x: Sample<V>, r: seq<Sample<V>>): (res: seq<Sample<V>>)
    ensures |res| == |r| + 1
  {
    if |r| == 0 || r[0].ts >= x.ts then [x] + r else [r[0]] + Insert(x, r[1..])
  }

  /** A stable sort by timestamp: the library's `sort_by` on `ts`. */
  function SortByTimestamp<V>(s: seq<Sample<V>>): (r: seq<Sample<V>>)
    ensures |r| == |s|
  {
    if |s| == 0 then [] else Insert(s[0], SortByTimestamp(s[1..]))
  }

  /** Inserting adds exactly `x` to the samples. */
  lemma {:induction false} InsertPermutes<V>(x: Sample<V>, r: seq<Sample<V>>)
    ensures multiset(Insert(x, r)) == multiset(r) + multiset{x}
  {
    if |r| > 0 && r[0].ts < x.ts {
      InsertPermutes(x, r[1..]);
      assert r == [r[0]] + r[1..];
      assert Insert(x, r) == [r[0]] + Insert(x, r[1..]);
    }
  }

  /** Sorting is a permutation: every sample is kept, as often as it occurs. */
  lemma {:induction false} SortByTimestampPermutes<V>(s: seq<Sample<V>>)
    ensures multiset(SortByTimestamp(s)) == multiset(s)
  {
    if |s| > 0 {
      var rest := SortByTimestamp(s[1..]);
      assert SortByTimestamp(s) == Insert(s[0], rest);
      assert multiset(Insert(s[0], rest)) == multiset(rest) + multiset{s[0]} by {
        InsertPermutes(s[0], rest);
      }
      assert multiset(rest) == multiset(s[1..]) by {
        SortByTimestampPermutes(s[1..]);
      }
      assert multiset(s) == multiset(s[1..]) + multiset{s[0]} by {
        assert s == [s[0]] + s[1..];
      }
    }
  }

  /** A bound below `x` and below every element of `r` is below every element of `Insert(x, r)`. */
  lemma {:induction false} InsertLowerBound<V>(x: Sample<V>, r: seq<Sample<V>>, lo: real)
    requires lo <= x.ts
    requires forall k | 0 <= k < |r| :: lo <= r[k].ts
    ensures forall k | 0 <= k < |Insert(x, r)| :: lo <= Insert(x, r)[k].ts
  {
    if |r| > 0 && r[0].ts < x.ts {
      var tail := Insert(x, r[1..]);
      assert Insert(x, r) == [r[0]] + tail;
      InsertLowerBound(x, r[1..], lo);
      assert forall k | 0 < k < |tail| + 1 :: ([r[0]] + tail)[k] == tail[k - 1];
    } else {
      assert Insert(x, r) == [x] + r;
      assert forall k | 0 < k < |r| + 1 :: ([x] + r)[k] == r[k - 1];
    }
  }

  lemma {:induction false} InsertSorted<V>(x: Sample<V>, r: seq<Sample<V>>)
    requires SortedByTs(r)
    ensures SortedByTs(Insert(x, r))
  {
    if |r| > 0 && r[0].ts < x.ts {
      var tail := Insert(x, r[1..]);
      var res := [r[0]] + tail;
      assert Insert(x, r) == res;
      assert SortedByTs(r[1..]) by {
        forall i, j | 0 <= i < j < |r[1..]|
          ensures r[1..][i].ts <= r[1..][j].ts
        {
          assert r[1..][i] == r[i + 1] && r[1..][j] == r[j + 1];
        }
      }
      InsertSorted(x, r[1..]);
      assert forall k | 0 <= k < |r[1..]| :: r[0].ts <= r[1..][k].ts by {
        forall k | 0 <= k < |r[1..]|
          ensures r[0].ts <= r[1..][k].ts
        {
          assert r[1..][k] == r[k + 1];
        }
      }
      InsertLowerBound(x, r[1..], r[0].ts);
      forall i, j | 0 <= i < j < |res|
        ensures res[i].ts <= res[j].ts
      {
        assert res[j] == tail[j - 1];
        if i > 0 {
          assert res[i] == tail[i - 1];
        }
      }
    } else {
      var res := [x] + r;
      assert Insert(x, r) == res;
      forall i, j | 0 <= i < j < |res|
        ensures res[i].ts <= res[j].ts
      {
        assert res[j] == r[j - 1];
        if i > 0 {
          assert res[i] == r[i - 1];
        } else {
          assert r[0].ts <= r[j - 1].ts;
        }
      }
    }
  }

  /** The sorted samples are in timestamp order. */
  lemma {:induction false} SortByTimestampSorted<V>(s: seq<Sample<V>>)
    ensures SortedByTs(SortByTimestamp(s))
  {
    if |s| > 0 {
      SortByTimestampSorted(s[1..]);
      InsertSorted(s[0], SortByTimestamp(s[1..]));
    }
  }

  /** The samples with timestamp `t`, in order. */
  function WithTs<V>(s: seq<Sample<V>>, t: real): (r: seq<Sample<V>>)
    ensures |r| <= |s|
  {
    if |s| == 0 then [] else (if s[0].ts == t then [s[0]] else []) + WithTs(s[1..], t)
  }

  /** The samples with timestamp `t` of `[y] + q`: `y` if it has that timestamp, then those of `q`. */
  lemma WithTsCons<V>(y: Sample<V>, q: seq<Sample<V>>, t: real)
    ensures WithTs([y] + q, t) == (if y.ts == t then [y] else []) + WithTs(q, t)
  {
    assert ([y] + q)[1..] == q;
  }

  /** Two prefixes of which one is empty can be put in front of `w` in either order. */
  lemma SwapAroundEmpty<T>(a: seq<T>, b: seq<T>, w: seq<T>)
    requires a == [] || b == []
    ensures a + (b + w) == b + (a + w)
  {
    if a == [] {
      assert a + (b + w) == b + w == b + (a + w);
    } else {
      assert a + (b + w) == a + w == b + (a + w);
    }
  }

  /** Inserting ahead of `r[0]` puts `x` ahead of every sample of `r` with timestamp `t`. */
  lemma InsertWithTsFront<V>(x: Sample<V>, r: seq<Sample<V>>, t: real)
    requires |r| == 0 || r[0].ts >= x.ts
    ensures WithTs(Insert(x, r), t) == (if x.ts == t then [x] else []) + WithTs(r, t)
  {
    assert Insert(x, r) == [x] + r;
    WithTsCons(x, r, t);
  }

  /** Inserting past `r[0]` keeps `r[0]` first; at most one of `r[0]` and `x` can have timestamp `t`. */
  lemma InsertWithTsPast<V>(x: Sample<V>, r: seq<Sample<V>>, t: real)
    requires |r| > 0 && r[0].ts < x.ts
    requires WithTs(Insert(x, r[1..]), t) == (if x.ts == t then [x] else []) + WithTs(r[1..], t)
    ensures WithTs(Insert(x, r), t) == (if x.ts == t then [x] else []) + WithTs(r, t)
  {
    var xs := if x.ts == t then [x] else [];
    var head := if r[0].ts == t then [r[0]] else [];
    var w := WithTs(r[1..], t);
    assert WithTs(Insert(x, r), t) == head + (xs + w) by {
      assert Insert(x, r) == [r[0]] + Insert(x, r[1..]);
      WithTsCons(r[0], Insert(x, r[1..]), t);
    }
    assert WithTs(r, t) == head + w by {
      assert r == [r[0]] + r[1..];
      WithTsCons(r[0], r[1..], t);
    }
    assert head == [] || xs == [];
    SwapAroundEmpty(head, xs, w);
  }

  lemma {:induction false} InsertWithTs<V>(x: Sample<V>, r: seq<Sample<V>>, t: real)
    ensures WithTs(Insert(x, r), t) == (if x.ts == t then [x] else []) + WithTs(r, t)
  {
    if |r| > 0 && r[0].ts < x.ts {
      InsertWithTs(x, r[1..], t);
      InsertWithTsPast(x, r, t);
    } else {
      InsertWithTsFront(x, r, t);
    }
  }

  /** The sort is stable: the samples sharing any one timestamp keep their input order. */
  lemma {:induction false} SortByTimestampStable<V>(s: seq<Sample<V>>, t: real)
    ensures WithTs(SortByTimestamp(s), t) == WithTs(s, t)
  {
    if |s| > 0 {
      SortByTimestampStable(s[1..], t);
      InsertWithTs(s[0], SortByTimestamp(s[1..]), t);
    }
  }

  // ---------------------------------------------------------------------------
  // The pipeline as functions
  // ---------------------------------------------------------------------------

  /** The strategies applied to `rep` one after another, from the first to the last. */
  function ApplyStrategies<V>(rep: Representation<V>, strategies: seq<StrategyType>,
                              apply: (Representation<V>, StrategyType) -> Representation<V>): Representation<V>
    decreases |strategies|
  {
    if |strategies| == 0 then rep else ApplyStrategies(apply(rep, strategies[0]), strategies[1..], apply)
  }

  /** Applying `a` and then `b` is applying `a + b`. */
  lemma {:induction false} ApplyStrategiesAppend<V>(rep: Representation<V>, a: seq<StrategyType>, b: seq<StrategyType>,
                                                    apply: (Representation<V>, StrategyType) -> Representation<V>)
    ensures ApplyStrategies(rep, a + b, apply) == ApplyStrategies(ApplyStrategies(rep, a, apply), b, apply)
    decreases |a|
  {
    if |a| > 0 {
      assert (a + b)[0] == a[0] && (a + b)[1..] == a[1..] + b;
      ApplyStrategiesAppend(apply(rep, a[0]), a[1..], b, apply);
    } else {
      assert a + b == b;
    }
  }

  /** One window packed: its raw samples through every strategy, then finalized to ranges. */
  function PackWindow<V>(window: seq<Sample<V>>, strategies: seq<StrategyType>,
                         apply: (Representation<V>, StrategyType) -> Representation<V>): seq<PackedSample<V>>
  {
    FinalizeToPacked(ApplyStrategies(Raw(window), strategies, apply))
  }

  /** The per-window results, concatenated in window order. */
  function PackedAll<V>(windows: seq<seq<Sample<V>>>, strategies: seq<StrategyType>,
                        apply: (Representation<V>, StrategyType) -> Representation<V>): seq<PackedSample<V>>
  {
    if |windows| == 0 then [] else PackWindow(windows[0], strategies, apply) + PackedAll(windows[1..], strategies, apply)
  }

  /** Packing `a + b` window by window is packing `a`, then `b`. */
  lemma {:induction false} PackedAllAppend<V>(a: seq<seq<Sample<V>>>, b: seq<seq<Sample<V>>>, strategies: seq<StrategyType>,
                                                apply: (Representation<V>, StrategyType) -> Representation<V>)
    ensures PackedAll(a + b, strategies, apply) == PackedAll(a, strategies, apply) + PackedAll(b, strategies, apply)
  {
    if |a| > 0 {
      assert (a + b)[0] == a[0] && (a + b)[1..] == a[1..] + b;
      PackedAllAppend(a[1..], b, strategies, apply);
    } else {
      assert a + b == b;
    }
  }

  lemma DegeneratesAppend<V>(a: seq<Sample<V>>, b: seq<Sample<V>>)
    ensures Degenerates(a + b) == Degenerates(a) + Degenerates(b)
  {
  }

  /** With no strategies, each sample of each window becomes its own degenerate range. */
  lemma {:induction false} PackedAllWithoutStrategies<V>(windows: seq<seq<Sample<V>>>,
                                                         apply: (Representation<V>, StrategyType) -> Representation<V>)
    ensures PackedAll(windows, [], apply) == Degenerates(Concat(windows))
  {
    if |windows| > 0 {
      PackedAllWithoutStrategies(windows[1..], apply);
      DegeneratesAppend(windows[0], Concat(windows[1..]));
    }
  }

  /** One more strategy: applying the first `j + 1` strategies is applying the `j`-th to the result of the first `j`. */
  lemma ApplyStrategiesStep<V>(rep: Representation<V>, strategies: seq<StrategyType>, j: nat,
                               apply: (Representation<V>, StrategyType) -> Representation<V>)
    requires j < |strategies|
    ensures ApplyStrategies(rep, strategies[..j + 1], apply) == apply(ApplyStrategies(rep, strategies[..j], apply), strategies[j])
  {
    assert strategies[..j + 1] == strategies[..j] + [strategies[j]];
    ApplyStrategiesAppend(rep, strategies[..j], [strategies[j]], apply);
  }

  /** One more window: packing the first `k + 1` windows is packing the first `k`, then window `k`. */
  lemma PackedAllStep<V>(windows: seq<seq<Sample<V>>>, k: nat, strategies: seq<StrategyType>,
                         apply: (Representation<V>, StrategyType) -> Representation<V>)
    requires k < |windows|
    ensures PackedAll(windows[..k + 1], strategies, apply) == PackedAll(windows[..k], strategies, apply) + PackWindow(windows[k], strategies, apply)
  {
    assert windows[..k + 1] == windows[..k] + [windows[k]];
    PackedAllAppend(windows[..k], [windows[k]], strategies, apply);
  }

  /** What a successful `pack` returns, before and after the merge. */
  function Unmerged<V>(samples: seq<Sample<V>>, attributes: PackAttributes,
                       apply: (Representation<V>, StrategyType) -> Representation<V>): seq<PackedSample<V>>
  {
    PackedAll(Windows(SortByTimestamp(samples), WindowSeconds(attributes.microsecondsTimeWindow)),
              attributes.strategyTypes, apply)
  }

  /** Without samples there are no windows, so the merge is given nothing. */
  lemma UnmergedEmpty<V>(attributes: PackAttributes, apply: (Representation<V>, StrategyType) -> Representation<V>)
    ensures Unmerged([], attributes, apply) == []
  {
  }

  /** Without strategies, the merge is given every sample, sorted, as its own degenerate range. */
  lemma UnmergedWithoutStrategies<V>(samples: seq<Sample<V>>, microsecondsTimeWindow: U64,
                                     apply: (Representation<V>, StrategyType) -> Representation<V>)
    ensures Unmerged(samples, PackAttributes([], microsecondsTimeWindow), apply) == Degenerates(SortByTimestamp(samples))
  {
    var sorted := SortByTimestamp(samples);
    var len := WindowSeconds(microsecondsTimeWindow);
    PackedAllWithoutStrategies(Windows(sorted, len), apply);
    WindowsConcat(sorted, len);
  }

  // ---------------------------------------------------------------------------
  // The packer object
  // ---------------------------------------------------------------------------

  class TimeSeriesDataPacker<V> {
    var attributes: Option<PackAttributes>
    var originalSamples: seq<Sample<V>>
    var packedSamples: seq<PackedSample<V>>

    /** `new` and `default`: no configuration, no samples, no result. */
    constructor ()
      ensures attributes == None && originalSamples == [] && packedSamples == []
    {
      attributes := None;
      originalSamples := [];
      packedSamples := [];
    }

    /**
     * `pack`. A zero window is rejected and nothing changes. Otherwise the
     * result is the merge of the per-window results, and the fields hold the
     * attributes, the sorted samples and the result.
     */
    method Pack(samples: seq<Sample<V>>, attrs: PackAttributes,
                apply: (Representation<V>, StrategyType) -> Representation<V>,
                merge: seq<PackedSample<V>> -> seq<PackedSample<V>>)
      returns (result: Result<seq<PackedSample<V>>, PackError>)
      modifies this
      ensures attrs.microsecondsTimeWindow == 0 ==>
        result == Err(InvalidWindow) && unchanged(this)
      ensures attrs.microsecondsTimeWindow > 0 ==>
        && result == Ok(merge(Unmerged(samples, attrs, apply)))
        && attributes == Some(attrs)
        && originalSamples == SortByTimestamp(samples)
        && packedSamples == result.value
    {
      if attrs.microsecondsTimeWindow == 0 {
        return Err(InvalidWindow);
      }
      var sorted := SortByTimestamp(samples);
      var windows := SplitIntoWindows(sorted, attrs.microsecondsTimeWindow);
      var packedAll: seq<PackedSample<V>> := [];
      for k := 0 to |windows|
        invariant packedAll == PackedAll(windows[..k], attrs.strategyTypes, apply)
      {
        var currentRepresentation := Raw(windows[k]);
        for j := 0 to |attrs.strategyTypes|
          invariant currentRepresentation == ApplyStrategies(Raw(windows[k]), attrs.strategyTypes[..j], apply)
        {
          ApplyStrategiesStep(Raw(windows[k]), attrs.strategyTypes, j, apply);
          currentRepresentation := apply(currentRepresentation, attrs.strategyTypes[j]);
        }
        assert attrs.strategyTypes[..|attrs.strategyTypes|] == attrs.strategyTypes;
        var packed := FinalizeToPacked(currentRepresentation);
        PackedAllStep(windows, k, attrs.strategyTypes, apply);
        packedAll := packedAll + packed;
      }
      assert windows[..|windows|] == windows;
      var merged := merge(packedAll);
      attributes := Some(attrs);
      originalSamples := sorted;
      packedSamples := merged;
      result := Ok(merged);
    }
  }
}
