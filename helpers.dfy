/**
 * Windowing (`split_into_windows`) and the representation that carries a
 * window between strategies.
 *
 * A window opens at a sample and takes every following sample whose
 * timestamp lies within the window length of the opening timestamp; the
 * first sample beyond that opens the next window.
 */
module Helpers {
  import opened Types

  /** The window length in seconds for a window given in microseconds. */
  function WindowSeconds(microWindow: nat): real
  {
    microWindow as real / 1_000_000.0
  }

  /** The first index at or after `i` whose sample lies beyond `len` of `s[st]`, or `|s|`. */
  function WindowEnd<V>(s: seq<Sample<V>>, len: real, st: nat, i: nat): (k: nat)
    requires st < i <= |s|
    ensures i <= k <= |s|
    ensures forall j | i <= j < k :: s[j].ts - s[st].ts <= len
    ensures k < |s| ==> s[k].ts - s[st].ts > len
    decreases |s| - i
  {
    if i == |s| || s[i].ts - s[st].ts > len then i else WindowEnd(s, len, st, i + 1)
  }

  /**
   * The windows of `s[st..]`: the first holds `s[st]` and every following
   * sample within `len` of it; the rest are the windows of what remains.
   */
  function WindowsFrom<V>(s: seq<Sample<V>>, len: real, st: nat): (ws: seq<seq<Sample<V>>>)
    requires st <= |s|
    ensures forall k | 0 <= k < |ws| :: |ws[k]| > 0
    ensures |ws| <= |s| - st
    ensures (|ws| == 0) == (st == |s|)
    decreases |s| - st
  {
    if st == |s| then []
    else
      var k := WindowEnd(s, len, st, st + 1);
      [s[st..k]] + WindowsFrom(s, len, k)
  }

  /** The windows of a whole sample sequence. */
  function Windows<V>(s: seq<Sample<V>>, len: real): (ws: seq<seq<Sample<V>>>)
    ensures forall k | 0 <= k < |ws| :: |ws[k]| > 0
    ensures (|ws| == 0) == (|s| == 0)
  {
    WindowsFrom(s, len, 0)
  }

  /** Concatenating the windows in order gives back the samples from `st` on. */
  lemma {:induction false} WindowsFromConcat<V>(s: seq<Sample<V>>, len: real, st: nat)
    requires st <= |s|
    ensures Concat(WindowsFrom(s, len, st)) == s[st..]
    decreases |s| - st
  {
    if st < |s| {
      var k := WindowEnd(s, len, st, st + 1);
      var ws := WindowsFrom(s, len, st);
      WindowsFromConcat(s, len, k);
      assert ws[1..] == WindowsFrom(s, len, k);
      assert s[st..k] + s[k..] == s[st..];
    }
  }

  /** Concatenating the windows in order gives exactly the input: nothing dropped, duplicated or reordered. */
  lemma WindowsConcat<V>(s: seq<Sample<V>>, len: real)
    ensures Concat(Windows(s, len)) == s
  {
    WindowsFromConcat(s, len, 0);
    assert s[0..] == s;
  }

  /** Every sample of a window is within `len` of the window's first timestamp. */
  lemma {:induction false} WindowsFromWithinBound<V>(s: seq<Sample<V>>, len: real, st: nat)
    requires 0.0 <= len && st <= |s|
    ensures var ws := WindowsFrom(s, len, st);
      forall k, j | 0 <= k < |ws| && 0 <= j < |ws[k]| :: ws[k][j].ts - ws[k][0].ts <= len
    decreases |s| - st
  {
    if st < |s| {
      var k := WindowEnd(s, len, st, st + 1);
      WindowsFromWithinBound(s, len, k);
      var ws: seq<seq<Sample<V>>> := WindowsFrom(s, len, st);
      assert ws == [s[st..k]] + WindowsFrom(s, len, k);
      forall m, j | 0 <= m < |ws| && 0 <= j < |ws[m]|
        ensures ws[m][j].ts - ws[m][0].ts <= len
      {
        if m > 0 {
          assert ws[m] == WindowsFrom(s, len, k)[m - 1];
        } else {
          assert ws[0][j] == s[st + j] && ws[0][0] == s[st];
        }
      }
    }
  }

  /** Every sample of a window is within `len` of the window's first timestamp. */
  lemma WindowsWithinBound<V>(s: seq<Sample<V>>, len: real)
    requires 0.0 <= len
    ensures var ws := Windows(s, len);
      forall k, j | 0 <= k < |ws| && 0 <= j < |ws[k]| :: ws[k][j].ts - ws[k][0].ts <= len
  {
    WindowsFromWithinBound(s, len, 0);
    assert Windows(s, len) == WindowsFrom(s, len, 0);
  }

  /** The first sample of every window after the first lies beyond `len` of the previous window's start. */
  lemma {:induction false} WindowsFromSeparated<V>(s: seq<Sample<V>>, len: real, st: nat)
    requires st <= |s|
    ensures var ws := WindowsFrom(s, len, st);
      forall k0, k1 | 0 <= k0 && k1 == k0 + 1 && k1 < |ws| :: ws[k1][0].ts - ws[k0][0].ts > len
    decreases |s| - st
  {
    if st < |s| {
      var k := WindowEnd(s, len, st, st + 1);
      WindowsFromSeparated(s, len, k);
      var ws: seq<seq<Sample<V>>> := WindowsFrom(s, len, st);
      var rest: seq<seq<Sample<V>>> := WindowsFrom(s, len, k);
      assert ws == [s[st..k]] + rest;
      if |rest| > 0 {
        WindowsFromConcat(s, len, k);
        assert Concat(rest) == rest[0] + Concat(rest[1..]);
        assert rest[0][0] == Concat(rest)[0] == s[k];
      }
      forall m | 0 < m < |ws|
        ensures ws[m][0].ts - ws[m - 1][0].ts > len
      {
        if m > 1 {
          assert ws[m] == rest[m - 1] && ws[m - 1] == rest[m - 2];
        }
      }
    }
  }

  /** The first sample of every window after the first lies beyond `len` of the previous window's start. */
  lemma WindowsSeparated<V>(s: seq<Sample<V>>, len: real)
    ensures var ws := Windows(s, len);
      forall k0, k1 | 0 <= k0 && k1 == k0 + 1 && k1 < |ws| :: ws[k1][0].ts - ws[k0][0].ts > len
  {
    WindowsFromSeparated(s, len, 0);
    assert Windows(s, len) == WindowsFrom(s, len, 0);
  }

  /** A window opened at `st` whose samples up to `i` are in bound, and that `s[i]` would leave, is `s[st..i]`. */
  lemma WindowClosesAt<V>(s: seq<Sample<V>>, len: real, st: nat, i: nat)
    requires st < i <= |s|
    requires forall j | st < j < i :: s[j].ts - s[st].ts <= len
    requires i < |s| ==> s[i].ts - s[st].ts > len
    ensures WindowsFrom(s, len, st) == [s[st..i]] + WindowsFrom(s, len, i)
  {
    var e := WindowEnd(s, len, st, st + 1);
  }

  /**
   * The state of the windowing scan after `i` samples: `windows` are the
   * closed windows, `current` is the open one, which began at `st`.
   */
  ghost predicate ScanState<V>(s: seq<Sample<V>>, len: real, windows: seq<seq<Sample<V>>>,
                               current: seq<Sample<V>>, windowStartTs: real, st: nat, i: nat)
  {
    && 0.0 <= len
    && st < |s| && st <= i <= |s| && (i > 0 ==> st < i)
    && current == s[st..i]
    && windowStartTs == s[st].ts
    && (forall j | st < j < i :: s[j].ts - s[st].ts <= len)
    && WindowsFrom(s, len, 0) == windows + WindowsFrom(s, len, st)
  }

  /** A sample within bound of the open window's start joins the open window. */
  lemma ScanExtends<V>(s: seq<Sample<V>>, len: real, windows: seq<seq<Sample<V>>>,
                       current: seq<Sample<V>>, windowStartTs: real, st: nat, i: nat)
    requires ScanState(s, len, windows, current, windowStartTs, st, i) && i < |s|
    requires s[i].ts - windowStartTs <= len
    ensures ScanState(s, len, windows, current + [s[i]], windowStartTs, st, i + 1)
  {
    assert s[st..i + 1] == s[st..i] + [s[i]];
  }

  /** A sample beyond the open window's start closes the open window and opens the next. */
  lemma ScanCloses<V>(s: seq<Sample<V>>, len: real, windows: seq<seq<Sample<V>>>,
                      current: seq<Sample<V>>, windowStartTs: real, st: nat, i: nat)
    requires ScanState(s, len, windows, current, windowStartTs, st, i) && i < |s|
    requires s[i].ts - windowStartTs > len
    ensures |current| > 0
    ensures ScanState(s, len, windows + [current], [s[i]], s[i].ts, i, i + 1)
  {
    WindowClosesAt(s, len, st, i);
    assert windows + ([current] + WindowsFrom(s, len, i))
        == (windows + [current]) + WindowsFrom(s, len, i);
    assert s[i..i + 1] == [s[i]];
  }

  /** Once every sample is scanned, the open window is the last window. */
  lemma ScanEnds<V>(s: seq<Sample<V>>, len: real, windows: seq<seq<Sample<V>>>,
                    current: seq<Sample<V>>, windowStartTs: real, st: nat)
    requires ScanState(s, len, windows, current, windowStartTs, st, |s|)
    ensures |current| > 0
    ensures Windows(s, len) == windows + [current]
  {
    WindowClosesAt(s, len, st, |s|);
  }

  /**
   * Windowing as a single scan. `current` collects the open window;
   * a sample beyond the open window's start closes it and opens a new one.
   */
  method SplitIntoWindows<V>(samples: seq<Sample<V>>, microWindow: nat) returns (windows: seq<seq<Sample<V>>>)
    ensures windows == Windows(samples, WindowSeconds(microWindow))
    ensures |samples| == 0 ==> windows == []
    ensures Concat(windows) == samples
    ensures forall k | 0 <= k < |windows| :: |windows[k]| > 0
  {
    if |samples| == 0 {
      return [];
    }
    windows := [];
    var current: seq<Sample<V>> := [];
    var windowStartTs := samples[0].ts;
    var len := WindowSeconds(microWindow);
    ghost var st := 0;
    for i := 0 to |samples|
      invariant ScanState(samples, len, windows, current, windowStartTs, st, i)
    {
      var x := samples[i];
      if x.ts - windowStartTs <= len {
        ScanExtends(samples, len, windows, current, windowStartTs, st, i);
        current := current + [x];
      } else {
        ScanCloses(samples, len, windows, current, windowStartTs, st, i);
        if |current| > 0 {
          windows := windows + [current];
          current := [];
        }
        windowStartTs := x.ts;
        current := current + [x];
        st := i;
      }
    }
    ScanEnds(samples, len, windows, current, windowStartTs, st);
    if |current| > 0 {
      windows := windows + [current];
    }
    WindowsConcat(samples, len);
  }

  /** Timestamps 0.00, 0.05, 0.10, 0.15, 0.21 with a 100 000 microsecond window give windows of 3 and 2 samples. */
  lemma WindowsExample()
    ensures var s := [Sample(0.00, 1.0), Sample(0.05, 1.0), Sample(0.10, 2.0),
                      Sample(0.15, 2.0), Sample(0.21, 3.0)];
            var ws := Windows(s, WindowSeconds(100_000));
            |ws| == 2 && |ws[0]| == 3 && |ws[1]| == 2
  {
    var s := [Sample(0.00, 1.0), Sample(0.05, 1.0), Sample(0.10, 2.0),
              Sample(0.15, 2.0), Sample(0.21, 3.0)];
    var len := WindowSeconds(100_000);
    assert len == 0.1;
    assert WindowEnd(s, len, 0, 1) == 3;
    assert WindowEnd(s, len, 3, 4) == 5;
    assert WindowsFrom(s, len, 3) == [s[3..5]];
    assert WindowsFrom(s, len, 0) == [s[0..3], s[3..5]];
  }

  /** The form a window takes between strategies: still raw samples, or packed ranges. */
  datatype Representation<V> = Raw(samples: seq<Sample<V>>) | Packed(ranges: seq<PackedSample<V>>)

  /** The ranges a window ends up as: raw samples each become a degenerate range. */
  function FinalizeToPacked<V>(rep: Representation<V>): (r: seq<PackedSample<V>>)
    ensures rep.Packed? ==> r == rep.ranges
    ensures rep.Raw? ==> |r| == |rep.samples|
    ensures rep.Raw? ==> forall i | 0 <= i < |r| ::
      r[i] == PackedSample(rep.samples[i].ts, rep.samples[i].ts, rep.samples[i].value)
  {
    match rep
    case Raw(s) => Degenerates(s)
    case Packed(p) => p
  }
}
