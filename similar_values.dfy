/**
 * Similar-values packing (`similar_values_pack`): consecutive samples whose
 * value is tolerance-equal to the value of the sample that opened the run
 * collapse into one range from the run's first to its last timestamp,
 * valued at the opening sample's value.
 *
 * Values are reals or NaN; NaN is tolerance-equal to NaN and to nothing else.
 */
module SimilarValues {
  import opened Types

  /** A floating-point value: a number, or NaN. */
  datatype Float = Num(r: real) | NaN

  function Abs(x: real): real
  {
    if x < 0.0 then -x else x
  }

  /** Tolerance equality: both NaN, or both numbers at most `eps` apart (`approx_equal`). */
  predicate ApproxEqual(a: Float, b: Float, eps: real)
  {
    if a.NaN? && b.NaN? then true
    else if a.NaN? || b.NaN? then false
    else Abs(a.r - b.r) <= eps
  }

  /** Tolerance equality is reflexive for a non-negative tolerance, NaN included. */
  lemma ApproxEqualReflexive(a: Float, eps: real)
    requires 0.0 <= eps
    ensures ApproxEqual(a, a, eps)
  {
  }

  /** Tolerance equality does not depend on the order of its arguments. */
  lemma ApproxEqualSymmetric(a: Float, b: Float, eps: real)
    ensures ApproxEqual(a, b, eps) == ApproxEqual(b, a, eps)
  {
  }

  /** A NaN is never tolerance-equal to a number, however large the tolerance. */
  lemma ApproxEqualNaN(x: real, eps: real)
    ensures !ApproxEqual(NaN, Num(x), eps) && !ApproxEqual(Num(x), NaN, eps)
  {
  }

  /** The first index at or after `i` whose value is not tolerance-equal to `s[st]`'s, or `|s|`. */
  function RunEnd(s: seq<Sample<Float>>, eps: real, st: nat, i: nat): (k: nat)
    requires st < i <= |s|
    ensures i <= k <= |s|
    ensures forall j | i <= j < k :: ApproxEqual(s[j].value, s[st].value, eps)
    ensures k < |s| ==> !ApproxEqual(s[k].value, s[st].value, eps)
    decreases |s| - i
  {
    if i == |s| || !ApproxEqual(s[i].value, s[st].value, eps) then i else RunEnd(s, eps, st, i + 1)
  }

  /**
   * The runs of `s[st..]`: the first run is `s[st]` and every following
   * sample tolerance-equal to it; the rest are the runs of what remains.
   */
  function RunsFrom(s: seq<Sample<Float>>, eps: real, st: nat): (r: seq<PackedSample<Float>>)
    requires st <= |s|
    ensures |r| <= |s| - st
    ensures (|r| == 0) == (st == |s|)
    ensures st < |s| ==> r[0].start == s[st].ts && r[0].value == s[st].value
    ensures st < |s| ==> r[|r| - 1].end == s[|s| - 1].ts
    decreases |s| - st
  {
    if st == |s| then []
    else
      var k := RunEnd(s, eps, st, st + 1);
      [PackedSample(s[st].ts, s[k - 1].ts, s[st].value)] + RunsFrom(s, eps, k)
  }

  /** The ranges similar-values packing produces for `s`. */
  function Runs(s: seq<Sample<Float>>, eps: real): (r: seq<PackedSample<Float>>)
    ensures |r| <= |s|
    ensures (|r| == 0) == (|s| == 0)
    ensures |s| > 0 ==> r[0].start == s[0].ts && r[0].value == s[0].value
    ensures |s| > 0 ==> r[|r| - 1].end == s[|s| - 1].ts
  {
    RunsFrom(s, eps, 0)
  }

  /** A run opened at `st` that takes the samples up to `i` and rejects `s[i]` is one range. */
  lemma RunClosesAt(s: seq<Sample<Float>>, eps: real, st: nat, i: nat)
    requires st < i <= |s|
    requires forall j | st < j < i :: ApproxEqual(s[j].value, s[st].value, eps)
    requires i < |s| ==> !ApproxEqual(s[i].value, s[st].value, eps)
    ensures RunsFrom(s, eps, st) == [PackedSample(s[st].ts, s[i - 1].ts, s[st].value)] + RunsFrom(s, eps, i)
  {
    var e := RunEnd(s, eps, st, st + 1);
  }

  /** The value of each range after the first is not tolerance-equal to the value of the range before it. */
  ghost predicate AdjacentRejected(r: seq<PackedSample<Float>>, eps: real)
  {
    forall k0, k1 | 0 <= k0 && k1 == k0 + 1 && k1 < |r| :: !ApproxEqual(r[k1].value, r[k0].value, eps)
  }

  lemma {:induction false} RunsFromAdjacentRejected(s: seq<Sample<Float>>, eps: real, st: nat)
    requires st <= |s|
    ensures AdjacentRejected(RunsFrom(s, eps, st), eps)
    decreases |s| - st
  {
    if st < |s| {
      var e := RunEnd(s, eps, st, st + 1);
      RunsFromAdjacentRejected(s, eps, e);
      var r := RunsFrom(s, eps, st);
      var rest := RunsFrom(s, eps, e);
      assert r == [r[0]] + rest;
      forall m | 0 < m < |r|
        ensures !ApproxEqual(r[m].value, r[m - 1].value, eps)
      {
        if m > 1 {
          assert r[m] == rest[m - 1] && r[m - 1] == rest[m - 2];
        } else {
          assert r[1] == rest[0];
        }
      }
    }
  }

  /** No run was cut short: each range's value was rejected against the value of the range before it. */
  lemma RunsAdjacentRejected(s: seq<Sample<Float>>, eps: real)
    ensures AdjacentRejected(Runs(s, eps), eps)
  {
    RunsFromAdjacentRejected(s, eps, 0);
    assert Runs(s, eps) == RunsFrom(s, eps, 0);
  }

  /** Range `m` of the packing represents sample `x`: its span holds `x.ts` and its value is tolerance-equal to `x.value`. */
  ghost predicate Represents(r: PackedSample<Float>, x: Sample<Float>, eps: real)
  {
    r.start <= x.ts <= r.end && ApproxEqual(x.value, r.value, eps)
  }

  /** Every sample from `st` on is represented by some range of `r`. */
  ghost predicate RepresentsAll(r: seq<PackedSample<Float>>, s: seq<Sample<Float>>, eps: real, st: nat)
  {
    forall j | st <= j < |s| :: exists m | 0 <= m < |r| :: Represents(r[m], s[j], eps)
  }

  /** The run from `st` to `k - 1` in front of ordered ranges representing `s[k..]` gives ordered ranges representing `s[st..]`. */
  lemma RepresentsCons(s: seq<Sample<Float>>, eps: real, rest: seq<PackedSample<Float>>, st: nat, k: nat)
    requires SortedByTs(s) && 0.0 <= eps && st < k <= |s|
    requires forall j | st < j < k :: ApproxEqual(s[j].value, s[st].value, eps)
    requires OrderedRanges(rest) && RepresentsAll(rest, s, eps, k)
    requires (|rest| == 0) == (k == |s|)
    requires k < |s| ==> rest[0].start == s[k].ts
    ensures var r := [PackedSample(s[st].ts, s[k - 1].ts, s[st].value)] + rest;
      OrderedRanges(r) && RepresentsAll(r, s, eps, st)
  {
    var r := [PackedSample(s[st].ts, s[k - 1].ts, s[st].value)] + rest;
    forall j | st <= j < |s|
      ensures exists m | 0 <= m < |r| :: Represents(r[m], s[j], eps)
    {
      if j < k {
        ApproxEqualReflexive(s[st].value, eps);
        assert Represents(r[0], s[j], eps);
      } else {
        var m :| 0 <= m < |rest| && Represents(rest[m], s[j], eps);
        assert r[m + 1] == rest[m];
      }
    }
    forall i, j | 0 <= i < j < |r|
      ensures r[i].end <= r[j].start
    {
      assert r[j] == rest[j - 1];
      if i == 0 {
        assert s[k - 1].ts <= s[k].ts;
        assert rest[0].start <= rest[0].end;
        assert j > 1 ==> rest[0].end <= rest[j - 1].start;
      } else {
        assert r[i] == rest[i - 1];
      }
    }
    assert forall m | 0 < m < |r| :: r[m] == rest[m - 1];
  }

  lemma {:induction false} RunsFromRepresent(s: seq<Sample<Float>>, eps: real, st: nat)
    requires st <= |s| && SortedByTs(s) && 0.0 <= eps
    ensures OrderedRanges(RunsFrom(s, eps, st)) && RepresentsAll(RunsFrom(s, eps, st), s, eps, st)
    decreases |s| - st
  {
    if st < |s| {
      var k := RunEnd(s, eps, st, st + 1);
      var rest := RunsFrom(s, eps, k);
      assert RunsFrom(s, eps, st) == [PackedSample(s[st].ts, s[k - 1].ts, s[st].value)] + rest;
      RunsFromRepresent(s, eps, k);
      RepresentsCons(s, eps, rest, st, k);
    }
  }

  /**
   * For timestamp-sorted input the ranges are in order, and every sample lies
   * in the span of a range whose value is tolerance-equal to its own: packing
   * loses timestamps inside a run, but no value beyond the tolerance.
   */
  lemma RunsRepresent(s: seq<Sample<Float>>, eps: real)
    requires SortedByTs(s) && 0.0 <= eps
    ensures OrderedRanges(Runs(s, eps)) && RepresentsAll(Runs(s, eps), s, eps, 0)
  {
    RunsFromRepresent(s, eps, 0);
    assert Runs(s, eps) == RunsFrom(s, eps, 0);
  }

  /** The indices of the samples that open a run in the packing of `s[st..]`. */
  function RunOpeners(s: seq<Sample<Float>>, eps: real, st: nat): (idx: seq<nat>)
    requires st <= |s|
    decreases |s| - st
  {
    if st == |s| then [] else [st] + RunOpeners(s, eps, RunEnd(s, eps, st, st + 1))
  }

  /**
   * Range `m` starts at and takes its value from sample `idx[m]`, the opener
   * indices increase, and range `m` ends at the timestamp of the sample just
   * before the next opener.
   */
  ghost predicate RunsOpenedBy(r: seq<PackedSample<Float>>, s: seq<Sample<Float>>, idx: seq<nat>, st: nat)
  {
    && |idx| == |r|
    && (forall m | 0 <= m < |r| :: st <= idx[m] < |s| && r[m].start == s[idx[m]].ts && r[m].value == s[idx[m]].value)
    && Increasing(idx)
    && (forall m1, m2 | 0 <= m1 && m2 == m1 + 1 && m2 < |r| :: r[m1].end == s[idx[m2] - 1].ts)
  }

  /** Putting the run opened at `st` in front of runs opened from `k` on keeps the opener property. */
  lemma RunsOpenedByCons(s: seq<Sample<Float>>, head: PackedSample<Float>, rest: seq<PackedSample<Float>>,
                         tail: seq<nat>, st: nat, k: nat)
    requires st < k <= |s| && RunsOpenedBy(rest, s, tail, k)
    requires head.start == s[st].ts && head.value == s[st].value
    requires |rest| > 0 ==> tail[0] == k && head.end == s[k - 1].ts
    ensures RunsOpenedBy([head] + rest, s, [st] + tail, st)
  {
    var r, idx := [head] + rest, [st] + tail;
    forall m | 0 <= m < |r|
      ensures st <= idx[m] < |s| && r[m].start == s[idx[m]].ts && r[m].value == s[idx[m]].value
    {
      if m > 0 {
        assert r[m] == rest[m - 1] && idx[m] == tail[m - 1];
      }
    }
    PrependIncreasing(st, tail);
    forall m1, m2 | 0 <= m1 && m2 == m1 + 1 && m2 < |r|
      ensures r[m1].end == s[idx[m2] - 1].ts
    {
      assert idx[m2] == tail[m1];
      if m1 > 0 {
        assert r[m1] == rest[m1 - 1] && idx[m1] == tail[m1 - 1];
      }
    }
  }

  lemma {:induction false} RunsFromOpenedBy(s: seq<Sample<Float>>, eps: real, st: nat)
    requires st <= |s|
    ensures RunsOpenedBy(RunsFrom(s, eps, st), s, RunOpeners(s, eps, st), st)
    ensures st < |s| ==> RunOpeners(s, eps, st)[0] == st
    decreases |s| - st
  {
    if st < |s| {
      var k := RunEnd(s, eps, st, st + 1);
      var head := PackedSample(s[st].ts, s[k - 1].ts, s[st].value);
      assert RunsFrom(s, eps, st) == [head] + RunsFrom(s, eps, k);
      assert RunOpeners(s, eps, st) == [st] + RunOpeners(s, eps, k);
      RunsFromOpenedBy(s, eps, k);
      RunsOpenedByCons(s, head, RunsFrom(s, eps, k), RunOpeners(s, eps, k), st, k);
    }
  }

  /**
   * Each range's value is the value of the sample that opened its run, it
   * starts at that sample's timestamp, the openers come in input order, and
   * each range ends at the sample just before the next opener: a run is
   * never split and never skips a sample.
   */
  lemma RunsOpened(s: seq<Sample<Float>>, eps: real)
    ensures RunsOpenedBy(Runs(s, eps), s, RunOpeners(s, eps, 0), 0)
    ensures |s| > 0 ==> RunOpeners(s, eps, 0)[0] == 0
  {
    RunsFromOpenedBy(s, eps, 0);
    assert Runs(s, eps) == RunsFrom(s, eps, 0);
  }

  /** The index where the run opened by `idx[m]` stops: the next opener, or `n` after the last. */
  function NextOpener(idx: seq<nat>, m: nat, n: nat): nat
    requires m < |idx|
  {
    if m + 1 < |idx| then idx[m + 1] else n
  }

  /** Every sample after an opener and before the next one is tolerance-equal to its range's value. */
  ghost predicate RunsTakeOpenerValue(r: seq<PackedSample<Float>>, s: seq<Sample<Float>>, idx: seq<nat>, eps: real)
    requires |idx| == |r|
  {
    forall m, j | 0 <= m < |r| && idx[m] < j < NextOpener(idx, m, |s|) && j < |s| :: ApproxEqual(s[j].value, r[m].value, eps)
  }

  /** Putting the run opened at `st` in front of runs that take their openers' values keeps that property. */
  lemma TakeOpenerValueCons(s: seq<Sample<Float>>, eps: real, head: PackedSample<Float>, rest: seq<PackedSample<Float>>,
                            tail: seq<nat>, st: nat, k: nat)
    requires st < k <= |s| && |tail| == |rest| && head.value == s[st].value
    requires forall j | st < j < k :: ApproxEqual(s[j].value, s[st].value, eps)
    requires if |rest| > 0 then tail[0] == k else k == |s|
    requires RunsTakeOpenerValue(rest, s, tail, eps)
    ensures RunsTakeOpenerValue([head] + rest, s, [st] + tail, eps)
  {
    var r, idx := [head] + rest, [st] + tail;
    forall m, j | 0 <= m < |r| && idx[m] < j < NextOpener(idx, m, |s|) && j < |s|
      ensures ApproxEqual(s[j].value, r[m].value, eps)
    {
      if m > 0 {
        assert r[m] == rest[m - 1] && idx[m] == tail[m - 1];
        assert NextOpener(idx, m, |s|) == NextOpener(tail, m - 1, |s|);
      }
    }
  }

  lemma {:induction false} RunsFromTakeOpenerValue(s: seq<Sample<Float>>, eps: real, st: nat)
    requires st <= |s|
    ensures |RunOpeners(s, eps, st)| == |RunsFrom(s, eps, st)|
    ensures RunsTakeOpenerValue(RunsFrom(s, eps, st), s, RunOpeners(s, eps, st), eps)
    decreases |s| - st
  {
    if st < |s| {
      var k := RunEnd(s, eps, st, st + 1);
      var head := PackedSample(s[st].ts, s[k - 1].ts, s[st].value);
      var rest, tail := RunsFrom(s, eps, k), RunOpeners(s, eps, k);
      assert RunsFrom(s, eps, st) == [head] + rest;
      assert RunOpeners(s, eps, st) == [st] + tail;
      assert RunsTakeOpenerValue([head] + rest, s, [st] + tail, eps) by {
        assert k < |s| ==> tail[0] == k;
        RunsFromTakeOpenerValue(s, eps, k);
        TakeOpenerValueCons(s, eps, head, rest, tail, st, k);
      }
    }
  }

  /**
   * Every sample after a run's opener and before the next opener is
   * tolerance-equal to the run's value, for input in any order: each sample
   * is compared with the value that opened its run.
   */
  lemma RunsTakeOpenerValues(s: seq<Sample<Float>>, eps: real)
    ensures |RunOpeners(s, eps, 0)| == |Runs(s, eps)|
    ensures RunsTakeOpenerValue(Runs(s, eps), s, RunOpeners(s, eps, 0), eps)
  {
    RunsFromTakeOpenerValue(s, eps, 0);
    assert Runs(s, eps) == RunsFrom(s, eps, 0);
  }

  /**
   * The state of the packing scan after `i` samples: `result` holds the
   * closed runs, the open run began at `st` and has reached `prevTs`.
   */
  ghost predicate PackState(s: seq<Sample<Float>>, eps: real, result: seq<PackedSample<Float>>,
                            runStartTs: real, prevTs: real, currentValue: Float, st: nat, i: nat)
  {
    && st < i <= |s|
    && runStartTs == s[st].ts && prevTs == s[i - 1].ts && currentValue == s[st].value
    && (forall j | st < j < i :: ApproxEqual(s[j].value, s[st].value, eps))
    && Runs(s, eps) == result + RunsFrom(s, eps, st)
  }

  /** A sample tolerance-equal to the open run's value extends the run. */
  lemma PackExtends(s: seq<Sample<Float>>, eps: real, result: seq<PackedSample<Float>>,
                    runStartTs: real, prevTs: real, currentValue: Float, st: nat, i: nat)
    requires PackState(s, eps, result, runStartTs, prevTs, currentValue, st, i) && i < |s|
    requires ApproxEqual(s[i].value, currentValue, eps)
    ensures PackState(s, eps, result, runStartTs, s[i].ts, currentValue, st, i + 1)
  {
  }

  /** A sample the open run's value rejects closes the run and opens the next. */
  lemma PackCloses(s: seq<Sample<Float>>, eps: real, result: seq<PackedSample<Float>>,
                   runStartTs: real, prevTs: real, currentValue: Float, st: nat, i: nat)
    requires PackState(s, eps, result, runStartTs, prevTs, currentValue, st, i) && i < |s|
    requires !ApproxEqual(s[i].value, currentValue, eps)
    ensures PackState(s, eps, result + [PackedSample(runStartTs, prevTs, currentValue)],
                      s[i].ts, s[i].ts, s[i].value, i, i + 1)
  {
    var closed := PackedSample(runStartTs, prevTs, currentValue);
    assert closed == PackedSample(s[st].ts, s[i - 1].ts, s[st].value);
    RunClosesAt(s, eps, st, i);
    assert RunsFrom(s, eps, st) == [closed] + RunsFrom(s, eps, i);
    assert result + ([closed] + RunsFrom(s, eps, i)) == (result + [closed]) + RunsFrom(s, eps, i);
  }

  /** Once every sample is scanned, the open run is the last range. */
  lemma PackEnds(s: seq<Sample<Float>>, eps: real, result: seq<PackedSample<Float>>,
                 runStartTs: real, prevTs: real, currentValue: Float, st: nat)
    requires PackState(s, eps, result, runStartTs, prevTs, currentValue, st, |s|)
    ensures Runs(s, eps) == result + [PackedSample(runStartTs, prevTs, currentValue)]
  {
    RunClosesAt(s, eps, st, |s|);
  }

  /** Similar-values packing as a single scan over the samples. */
  method SimilarValuesPack(samples: seq<Sample<Float>>, eps: real) returns (result: seq<PackedSample<Float>>)
    ensures result == Runs(samples, eps)
  {
    if |samples| == 0 {
      return [];
    }
    result := [];
    var runStartTs := samples[0].ts;
    var prevTs := samples[0].ts;
    var currentValue := samples[0].value;
    ghost var st := 0;
    assert Runs(samples, eps) == result + RunsFrom(samples, eps, st);
    for i := 1 to |samples|
      invariant PackState(samples, eps, result, runStartTs, prevTs, currentValue, st, i)
    {
      var x := samples[i];
      if ApproxEqual(x.value, currentValue, eps) {
        PackExtends(samples, eps, result, runStartTs, prevTs, currentValue, st, i);
        prevTs := x.ts;
      } else {
        PackCloses(samples, eps, result, runStartTs, prevTs, currentValue, st, i);
        result := result + [PackedSample(runStartTs, prevTs, currentValue)];
        runStartTs := x.ts;
        prevTs := x.ts;
        currentValue := x.value;
        st := i;
      }
    }
    PackEnds(samples, eps, result, runStartTs, prevTs, currentValue, st);
    result := result + [PackedSample(runStartTs, prevTs, currentValue)];
  }

  /** Values 100, 100, 100, 101, 101, 100 at 0.0 .. 0.5 with tolerance 0 give three ranges. */
  lemma RunsExample()
    ensures Runs([Sample(0.0, Num(100.0)), Sample(0.1, Num(100.0)), Sample(0.2, Num(100.0)),
                  Sample(0.3, Num(101.0)), Sample(0.4, Num(101.0)), Sample(0.5, Num(100.0))], 0.0)
         == [PackedSample(0.0, 0.2, Num(100.0)), PackedSample(0.3, 0.4, Num(101.0)),
             PackedSample(0.5, 0.5, Num(100.0))]
  {
    var s := [Sample(0.0, Num(100.0)), Sample(0.1, Num(100.0)), Sample(0.2, Num(100.0)),
              Sample(0.3, Num(101.0)), Sample(0.4, Num(101.0)), Sample(0.5, Num(100.0))];
    var r0, r1, r2 := PackedSample(0.0, 0.2, Num(100.0)), PackedSample(0.3, 0.4, Num(101.0)),
                      PackedSample(0.5, 0.5, Num(100.0));
    assert RunEnd(s, 0.0, 5, 6) == 6;
    assert RunsFrom(s, 0.0, 5) == [r2];
    assert RunEnd(s, 0.0, 3, 4) == 5 by {
      assert ApproxEqual(s[4].value, s[3].value, 0.0);
      assert !ApproxEqual(s[5].value, s[3].value, 0.0);
    }
    assert RunsFrom(s, 0.0, 3) == [r1] + [r2];
    assert RunEnd(s, 0.0, 0, 1) == 3 by {
      assert ApproxEqual(s[1].value, s[0].value, 0.0) && ApproxEqual(s[2].value, s[0].value, 0.0);
      assert !ApproxEqual(s[3].value, s[0].value, 0.0);
    }
    assert RunsFrom(s, 0.0, 0) == [r0] + [r1, r2];
  }
}
