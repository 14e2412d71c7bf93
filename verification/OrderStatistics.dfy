/** What the frame-time statistics compute from a window of values, and what is true of the result.
    `float` and `double` are modelled as `real`. */
module OrderStatistics {
  import opened Arithmetic
  import opened Common

  datatype SeriesStatistics = SeriesStatistics(
    current: real, average: real, minimum: real, maximum: real,
    median: real, percentile95: real, percentile99: real,
    low1PercentFps: real, low01PercentFps: real,
    sampleCount: nat, windowSeconds: real,
    pacingDeviation: real, pacingDeviationRatio: real,
    shortIntervals: nat, longIntervals: nat)

  function NoStatistics(windowSeconds: real): SeriesStatistics {
    SeriesStatistics(0.0, 0.0, 0.0, 0.0, 0.0, 0.0, 0.0, 0.0, 0.0, 0, windowSeconds, 0.0, 0.0, 0, 0)
  }

  // ---------------------------------------------------------------------------------------
  // Sorting
  // ---------------------------------------------------------------------------------------

  ghost predicate IsSorted(s: seq<real>) {
    forall i, j | 0 <= i < j < |s| :: s[i] <= s[j]
  }

  function Insert(x: real, s: seq<real>): (r: seq<real>)
    ensures |r| == |s| + 1
  {
    if s == [] || s[|s| - 1] <= x then s + [x] else Insert(x, s[..|s| - 1]) + [s[|s| - 1]]
  }

  function Sorted(s: seq<real>): (r: seq<real>)
    ensures |r| == |s|
  {
    if s == [] then [] else Insert(s[|s| - 1], Sorted(s[..|s| - 1]))
  }

  lemma {:induction false} InsertKeepsElements(x: real, s: seq<real>)
    ensures multiset(Insert(x, s)) == multiset(s) + multiset{x}
  {
    if s != [] && s[|s| - 1] > x {
      InsertKeepsElements(x, s[..|s| - 1]);
      assert s == s[..|s| - 1] + [s[|s| - 1]];
    }
  }

  lemma {:induction false} InsertKeepsOrder(x: real, s: seq<real>)
    requires IsSorted(s)
    ensures IsSorted(Insert(x, s))
  {
    if s != [] && s[|s| - 1] > x {
      var front, last := s[..|s| - 1], s[|s| - 1];
      InsertKeepsOrder(x, front);
      InsertKeepsElements(x, front);
      var r := Insert(x, front);
      forall i | 0 <= i < |r|
        ensures r[i] <= last
      {
        assert r[i] in multiset(r);
        assert r[i] == x || r[i] in front;
      }
    }
  }

  /** `Sorted` rearranges its argument in ascending order, as `std::sort` promises. */
  lemma {:induction false} SortedIsSorted(s: seq<real>)
    ensures IsSorted(Sorted(s)) && multiset(Sorted(s)) == multiset(s)
  {
    if s != [] {
      var front, last := s[..|s| - 1], s[|s| - 1];
      SortedIsSorted(front);
      InsertKeepsOrder(last, Sorted(front));
      InsertKeepsElements(last, Sorted(front));
      assert s == front + [last];
    }
  }

  // ---------------------------------------------------------------------------------------
  // The pieces of the summary
  // ---------------------------------------------------------------------------------------

  function Ceiling(x: real): int {
    -((-x).Floor)
  }

  /** The nearest-rank index the source picks for a fraction of `n` sorted values. */
  function PercentileIndex(n: nat, fraction: real): (index: nat)
    requires n > 0 && 0.0 <= fraction
    ensures index < n
  {
    assert fraction * n as real >= 0.0;
    var rank := Ceiling(fraction * n as real);
    if rank == 0 then 0 else Min(rank - 1, n - 1)
  }

  function Tail(n: nat, fraction: real): nat
    requires 0.0 <= fraction
  {
    assert fraction * n as real >= 0.0;
    (fraction * n as real).Floor
  }

  function TailMean(s: seq<real>, tail: nat): real
    requires 0 < tail <= |s|
  {
    Sum(s[|s| - tail..]) / tail as real
  }

  function TailFps(s: seq<real>, tail: nat): real
    requires tail <= |s|
  {
    if tail == 0 then 0.0
    else if TailMean(s, tail) > 0.0 then 1000.0 / TailMean(s, tail)
    else 0.0
  }

  function Lowest(s: seq<real>): real
    requires s != []
  {
    if |s| == 1 then s[0] else MinReal(Lowest(s[..|s| - 1]), s[|s| - 1])
  }

  function Highest(s: seq<real>): real
    requires s != []
  {
    if |s| == 1 then s[0] else MaxReal(Highest(s[..|s| - 1]), s[|s| - 1])
  }

  /** The total absolute deviation of `s` about `centre`. */
  function Deviation(s: seq<real>, centre: real): real {
    if s == [] then 0.0 else Deviation(s[..|s| - 1], centre) + Abs(s[|s| - 1] - centre)
  }

  function CountBelow(s: seq<real>, x: real): nat {
    if s == [] then 0 else CountBelow(s[..|s| - 1], x) + if s[|s| - 1] < x then 1 else 0
  }

  function CountAbove(s: seq<real>, x: real): nat {
    if s == [] then 0 else CountAbove(s[..|s| - 1], x) + if s[|s| - 1] > x then 1 else 0
  }

  /** Fills in what is read off the sorted values. */
  function WithOrderStatistics(r: SeriesStatistics, s: seq<real>): SeriesStatistics
    requires s != []
  {
    var n := |s|;
    TailsFit(n);
    var median := s[PercentileIndex(n, 0.5)];
    var deviation := if median > 0.0 then Deviation(s, median) / n as real else 0.0;
    r.(median := median,
       percentile95 := s[PercentileIndex(n, 0.95)],
       percentile99 := s[PercentileIndex(n, 0.99)],
       low1PercentFps := TailFps(s, Tail(n, 0.01)),
       low01PercentFps := TailFps(s, Tail(n, 0.001)),
       pacingDeviation := deviation,
       pacingDeviationRatio := if median > 0.0 then deviation / median else 0.0,
       shortIntervals := if median > 0.0 then CountBelow(s, median * 0.5) else 0,
       longIntervals := if median > 0.0 then CountAbove(s, median * 1.5) else 0)
  }

  lemma TailsFit(n: nat)
    ensures Tail(n, 0.01) == n / 100 <= n && Tail(n, 0.001) == n / 1000 <= n
  {
  }

  /** The statistics of a window of values, newest first. */
  function Summary(window: seq<real>, windowSeconds: real): SeriesStatistics {
    if window == [] then NoStatistics(windowSeconds)
    else
      WithOrderStatistics(
        NoStatistics(windowSeconds).(
          current := window[0],
          average := Sum(window) / |window| as real,
          minimum := Lowest(window),
          maximum := Highest(window),
          sampleCount := |window|),
        Sorted(window))
  }

  lemma SummaryFields(window: seq<real>, windowSeconds: real)
    ensures window == [] ==> Summary(window, windowSeconds) == NoStatistics(windowSeconds)
    ensures window != [] ==>
              var r, n, s := Summary(window, windowSeconds), |window|, Sorted(window);
              && r.low1PercentFps == TailFps(s, n / 100)
              && r.low01PercentFps == TailFps(s, n / 1000)
              && r.median == s[(n - 1) / 2]
              && (r.median > 0.0 ==> r.pacingDeviation == Deviation(s, r.median) / n as real)
              && r.shortIntervals == (if r.median > 0.0 then CountBelow(s, r.median * 0.5) else 0)
              && r.longIntervals == (if r.median > 0.0 then CountAbove(s, r.median * 1.5) else 0)
  {
    hide Sorted, PercentileIndex, Tail, TailFps, Sum, Lowest, Highest, Deviation, CountBelow, CountAbove;
    if window != [] {
      PercentileIndices(|window|);
    }
  }

  // ---------------------------------------------------------------------------------------
  // Percentiles
  // ---------------------------------------------------------------------------------------

  lemma PercentileIndices(n: nat)
    requires n > 0
    ensures PercentileIndex(n, 0.5) == (n - 1) / 2
    ensures PercentileIndex(n, 0.5) <= PercentileIndex(n, 0.95) <= PercentileIndex(n, 0.99) < n
    ensures Tail(n, 0.01) == n / 100 <= n && Tail(n, 0.001) == n / 1000 <= n
  {
    var x := n as real;
    assert Ceiling(0.5 * x) == (n + 1) / 2;
  }

  lemma {:induction false} LowestIsBound(s: seq<real>)
    requires s != []
    ensures Lowest(s) in s && Highest(s) in s
    ensures forall x | x in s :: Lowest(s) <= x <= Highest(s)
  {
    if |s| > 1 {
      LowestIsBound(s[..|s| - 1]);
      assert s == s[..|s| - 1] + [s[|s| - 1]];
    }
  }

  /** The reported extremes and percentiles are in order. */
  lemma PercentilesAreOrdered(window: seq<real>, windowSeconds: real)
    ensures var r := Summary(window, windowSeconds);
            r.minimum <= r.median <= r.percentile95 <= r.percentile99 <= r.maximum
  {
    if window == [] {
      return;
    }
    var s := Sorted(window);
    SortedIsSorted(window);
    LowestIsBound(window);
    PercentileIndices(|window|);
    var i, j := PercentileIndex(|window|, 0.5), PercentileIndex(|window|, 0.99);
    assert s[i] in multiset(s) && s[j] in multiset(s);
    assert s[i] in window && s[j] in window;
  }

  lemma {:induction false} CountsFit(s: seq<real>, x: real, i: nat)
    requires IsSorted(s) && i < |s|
    ensures x <= s[i] ==> CountBelow(s, x) <= i
    ensures x >= s[i] ==> CountAbove(s, x) <= |s| - 1 - i
    decreases |s|
  {
    var front := s[..|s| - 1];
    if i < |s| - 1 {
      CountsFit(front, x, i);
    } else {
      CountIsBounded(front, x);
      if x >= s[i] {
        NothingAbove(front, x);
      }
    }
  }

  lemma {:induction false} CountIsBounded(s: seq<real>, x: real)
    ensures CountBelow(s, x) <= |s|
  {
    if s != [] {
      CountIsBounded(s[..|s| - 1], x);
    }
  }

  lemma {:induction false} NothingAbove(s: seq<real>, x: real)
    requires forall k | 0 <= k < |s| :: s[k] <= x
    ensures CountAbove(s, x) == 0
  {
    if s != [] {
      NothingAbove(s[..|s| - 1], x);
    }
  }

  /** Fewer than half of the intervals count as short and at most half as long. */
  lemma IrregularIntervalsAreFew(window: seq<real>, windowSeconds: real)
    ensures var r, n := Summary(window, windowSeconds), |window|;
            && (n > 0 ==> r.shortIntervals <= (n + 1) / 2 - 1)
            && r.longIntervals <= n / 2
  {
    SummaryFields(window, windowSeconds);
    SortedIsSorted(window);
    hide Summary, Sorted, IsSorted, CountBelow, CountAbove;
    var s, i := Sorted(window), (|window| - 1) / 2;
    if window != [] && s[i] > 0.0 {
      CountsFit(s, s[i] * 0.5, i);
      CountsFit(s, s[i] * 1.5, i);
    }
  }

  // ---------------------------------------------------------------------------------------
  // The reported values, on the window itself
  // ---------------------------------------------------------------------------------------

  /** The counting folds count. */
  lemma {:induction false} BelowIsSize(s: seq<real>, x: real)
    ensures CountBelow(s, x) == |set k: nat | k < |s| && s[k] < x|
  {
    var below := set k: nat | k < |s| && s[k] < x;
    if s == [] {
      assert below == {};
    } else {
      var front, last: nat := s[..|s| - 1], |s| - 1;
      BelowIsSize(front, x);
      var below' := set k: nat | k < |front| && front[k] < x;
      assert below == if s[last] < x then below' + {last} else below';
    }
  }

  lemma {:induction false} AboveIsSize(s: seq<real>, x: real)
    ensures CountAbove(s, x) == |set k: nat | k < |s| && s[k] > x|
  {
    var above := set k: nat | k < |s| && s[k] > x;
    if s == [] {
      assert above == {};
    } else {
      var front, last: nat := s[..|s| - 1], |s| - 1;
      AboveIsSize(front, x);
      var above' := set k: nat | k < |front| && front[k] > x;
      assert above == if s[last] > x then above' + {last} else above';
    }
  }

  lemma {:induction false} InsertCounts(v: real, s: seq<real>, x: real)
    ensures CountBelow(Insert(v, s), x) == CountBelow(s, x) + if v < x then 1 else 0
    ensures CountAbove(Insert(v, s), x) == CountAbove(s, x) + if v > x then 1 else 0
  {
    if s == [] || s[|s| - 1] <= v {
      assert (s + [v])[..|s|] == s;
    } else {
      var front, last := s[..|s| - 1], s[|s| - 1];
      InsertCounts(v, front, x);
      assert (Insert(v, front) + [last])[..|s|] == Insert(v, front);
    }
  }

  /** Sorting does not change what is counted. */
  lemma {:induction false} SortedCounts(s: seq<real>, x: real)
    ensures CountBelow(Sorted(s), x) == CountBelow(s, x)
    ensures CountAbove(Sorted(s), x) == CountAbove(s, x)
  {
    if s != [] {
      SortedCounts(s[..|s| - 1], x);
      InsertCounts(s[|s| - 1], Sorted(s[..|s| - 1]), x);
    }
  }

  /** `v` is a value of the window, at least `percent` per cent of the values are at or below it, and fewer
      are below it. */
  ghost predicate IsNearestRank(window: seq<real>, percent: nat, v: real) {
    && v in window
    && 100 * |set k: nat | k < |window| && window[k] <= v| >= percent * |window|
    && 100 * |set k: nat | k < |window| && window[k] < v| < percent * |window|
  }

  lemma {:induction false} AtOrBelow(s: seq<real>, x: real)
    ensures |set k: nat | k < |s| && s[k] <= x| == |s| - CountAbove(s, x)
  {
    var within := set k: nat | k < |s| && s[k] <= x;
    if s == [] {
      assert within == {};
    } else {
      var front, last: nat := s[..|s| - 1], |s| - 1;
      AtOrBelow(front, x);
      var within' := set k: nat | k < |front| && front[k] <= x;
      assert within == if s[last] <= x then within' + {last} else within';
    }
  }

  /** The value at sorted place `i` has the rank of that place. */
  lemma RankOfPlace(window: seq<real>, percent: nat, i: nat)
    requires i < |window| && 100 * i < percent * |window| <= 100 * (i + 1)
    ensures IsNearestRank(window, percent, Sorted(window)[i])
  {
    var s := Sorted(window);
    var v := s[i];
    SortedIsSorted(window);
    assert v in multiset(s);
    CountsFit(s, v, i);
    SortedCounts(window, v);
    BelowIsSize(window, v);
    AtOrBelow(window, v);
    hide Sorted, CountBelow, CountAbove, IsSorted;
  }

  lemma RankIndices(n: nat)
    requires n > 0
    ensures 100 * PercentileIndex(n, 0.5) < 50 * n <= 100 * (PercentileIndex(n, 0.5) + 1)
    ensures 100 * PercentileIndex(n, 0.95) < 95 * n <= 100 * (PercentileIndex(n, 0.95) + 1)
    ensures 100 * PercentileIndex(n, 0.99) < 99 * n <= 100 * (PercentileIndex(n, 0.99) + 1)
  {
    RankIndex(n, 50, 0.5);
    RankIndex(n, 95, 0.95);
    RankIndex(n, 99, 0.99);
  }

  lemma RankIndex(n: nat, percent: nat, fraction: real)
    requires n > 0 && 0 < percent < 100 && fraction * 100.0 == percent as real
    ensures 100 * PercentileIndex(n, fraction) < percent * n <= 100 * (PercentileIndex(n, fraction) + 1)
  {
    var x := fraction * n as real;
    assert x * 100.0 == (percent * n) as real;
    assert 0.0 < x < n as real;
  }

  /** Each reported percentile is the nearest rank of its per cent. */
  lemma PercentilesAreNearestRanks(window: seq<real>, windowSeconds: real)
    requires window != []
    ensures var r := Summary(window, windowSeconds);
            && IsNearestRank(window, 50, r.median)
            && IsNearestRank(window, 95, r.percentile95)
            && IsNearestRank(window, 99, r.percentile99)
  {
    var n := |window|;
    RankIndices(n);
    hide PercentileIndex, IsNearestRank, Sorted, Tail, TailFps, Sum, Lowest, Highest, Deviation, CountBelow, CountAbove;
    RankOfPlace(window, 50, PercentileIndex(n, 0.5));
    RankOfPlace(window, 95, PercentileIndex(n, 0.95));
    RankOfPlace(window, 99, PercentileIndex(n, 0.99));
  }

  /** A nearest rank is unique, so a percentile cannot be any other value. */
  lemma NearestRankIsUnique(window: seq<real>, percent: nat, v: real, v': real)
    requires IsNearestRank(window, percent, v) && IsNearestRank(window, percent, v')
    ensures v == v'
  {
    if v < v' {
      RanksAreApart(window, v, v');
    } else if v' < v {
      RanksAreApart(window, v', v);
    }
  }

  lemma RanksAreApart(window: seq<real>, v: real, v': real)
    requires v < v'
    ensures |set k: nat | k < |window| && window[k] <= v| <= |set k: nat | k < |window| && window[k] < v'|
  {
    SubsetIsNoLarger(set k: nat | k < |window| && window[k] <= v, set k: nat | k < |window| && window[k] < v');
  }

  lemma {:induction false} SubsetIsNoLarger(s: set<nat>, t: set<nat>)
    requires s <= t
    ensures |s| <= |t|
  {
    if s != {} {
      var x :| x in s;
      SubsetIsNoLarger(s - {x}, t - {x});
    }
  }

  /** An empty window reports nothing but its length. */
  lemma NothingIsReported(windowSeconds: real)
    ensures Summary([], windowSeconds)
            == SeriesStatistics(0.0, 0.0, 0.0, 0.0, 0.0, 0.0, 0.0, 0.0, 0.0, 0, windowSeconds, 0.0, 0.0, 0, 0)
  {
  }

  lemma WindowFields(window: seq<real>, windowSeconds: real)
    requires window != []
    ensures var r := Summary(window, windowSeconds);
            && r.current == window[0] && r.sampleCount == |window| && r.windowSeconds == windowSeconds
            && r.average == Sum(window) / |window| as real
            && r.minimum == Lowest(window) && r.maximum == Highest(window)
  {
    hide PercentileIndex, Sorted, Tail, TailFps, Sum, Lowest, Highest, Deviation, CountBelow, CountAbove;
  }

  /** The newest value, the mean and the extremes of a window. */
  lemma SummaryDescribesWindow(window: seq<real>, windowSeconds: real)
    requires window != []
    ensures var r, n := Summary(window, windowSeconds), |window|;
            && r.current == window[0] && r.sampleCount == n && r.windowSeconds == windowSeconds
            && r.average * n as real == Sum(window)
            && r.minimum in window && r.maximum in window
            && (forall x | x in window :: r.minimum <= x <= r.maximum)
  {
    hide *;
    WindowFields(window, windowSeconds);
    LowestIsBound(window);
    DivideThenMultiply(Sum(window), |window| as real);
  }

  lemma PacingFields(window: seq<real>, windowSeconds: real)
    requires window != []
    ensures var r, s := Summary(window, windowSeconds), Sorted(window);
            if r.median > 0.0 then
              && r.pacingDeviationRatio == r.pacingDeviation / r.median
              && r.shortIntervals == CountBelow(s, r.median * 0.5)
              && r.longIntervals == CountAbove(s, r.median * 1.5)
            else r.pacingDeviation == r.pacingDeviationRatio == 0.0 && r.shortIntervals == r.longIntervals == 0
  {
    hide PercentileIndex, Sorted, Tail, TailFps, Sum, Lowest, Highest, Deviation, CountBelow, CountAbove;
  }

  /** The ratio is the deviation in medians; the irregular intervals are those under a half and over one and
      a half medians. Without a positive median there is neither. */
  lemma PacingDescribesWindow(window: seq<real>, windowSeconds: real)
    requires window != []
    ensures var r, n := Summary(window, windowSeconds), |window|;
            if r.median > 0.0 then
              && r.pacingDeviationRatio * r.median == r.pacingDeviation
              && r.shortIntervals == |set k: nat | k < n && window[k] < r.median * 0.5|
              && r.longIntervals == |set k: nat | k < n && window[k] > r.median * 1.5|
            else r.pacingDeviation == r.pacingDeviationRatio == 0.0 && r.shortIntervals == r.longIntervals == 0
  {
    hide Summary, Sorted, CountBelow, CountAbove;
    var r := Summary(window, windowSeconds);
    PacingFields(window, windowSeconds);
    SortedCounts(window, r.median * 0.5);
    SortedCounts(window, r.median * 1.5);
    BelowIsSize(window, r.median * 0.5);
    AboveIsSize(window, r.median * 1.5);
    if r.median > 0.0 {
      DivideThenMultiply(r.pacingDeviation, r.median);
    }
  }

  // ---------------------------------------------------------------------------------------
  // Tail averages
  // ---------------------------------------------------------------------------------------

  lemma {:induction false} SumPrepend(x: real, s: seq<real>)
    ensures Sum([x] + s) == x + Sum(s)
  {
    if s == [] {
      assert [x] + s == [x];
      assert Sum([x]) == Sum([x][..0]) + x;
    } else {
      var t := [x] + s;
      assert t[..|t| - 1] == [x] + s[..|s| - 1];
      SumPrepend(x, s[..|s| - 1]);
    }
  }

  lemma {:induction false} SumAtLeast(s: seq<real>, low: real)
    requires forall k | 0 <= k < |s| :: s[k] >= low
    ensures Sum(s) >= |s| as real * low
  {
    if s != [] {
      SumAtLeast(s[..|s| - 1], low);
      OneMore(|s| - 1, low);
    }
  }

  /** A longer tail of a sorted sequence has a smaller mean. */
  lemma {:induction false} LongerTailIsLower(s: seq<real>, short: nat, long: nat)
    requires IsSorted(s) && 0 < short <= long <= |s|
    ensures TailMean(s, long) <= TailMean(s, short)
    decreases long
  {
    if short < long {
      LongerTailIsLower(s, short, long - 1);
      TailMeanFalls(s, long - 1);
    }
  }

  lemma TailMeanFalls(s: seq<real>, k: nat)
    requires IsSorted(s) && 0 < k < |s|
    ensures TailMean(s, k + 1) <= TailMean(s, k)
  {
    var x, rest := s[|s| - k - 1], s[|s| - k..];
    assert s[|s| - (k + 1)..] == [x] + rest;
    SumPrepend(x, rest);
    SumAtLeast(rest, x);
    MeanFalls(x, Sum(rest), k);
  }

  lemma QuotientAtLeast(sum: real, n: real, low: real)
    requires n > 0.0 && sum >= n * low
    ensures sum / n >= low
  {
    var q := sum / n;
    assert q * n == sum;
    if q < low {
      assert (low - q) * n > 0.0;
    }
  }

  lemma MeanFalls(x: real, sum: real, k: nat)
    requires k > 0 && sum >= k as real * x
    ensures (x + sum) / (k + 1) as real <= sum / k as real
  {
    var mean := sum / k as real;
    assert mean * k as real == sum;
    QuotientAtLeast(sum, k as real, x);
    OneMore(k, mean);
    CrossMultiply(mean, x + sum, (k + 1) as real);
  }

  lemma ReciprocalFalls(a: real, b: real)
    requires 0.0 < a <= b
    ensures 1000.0 / b <= 1000.0 / a
  {
    var q := 1000.0 / a;
    assert q * a == 1000.0;
    assert q * (b - a) >= 0.0;
    CrossMultiply(q, 1000.0, b);
  }

  /** The 0.1% low is at most the 1% low, exactly when the shorter tail is empty, its mean is not
      positive, or the mean of the longer tail is positive. */
  lemma LowsAreOrdered(window: seq<real>, windowSeconds: real)
    ensures var r := Summary(window, windowSeconds);
            var n, s := |window|, Sorted(window);
            r.low01PercentFps <= r.low1PercentFps
            <==> n < 1000 || TailMean(s, n / 1000) <= 0.0 || TailMean(s, n / 100) > 0.0
  {
    SummaryFields(window, windowSeconds);
    SortedIsSorted(window);
    hide Summary, Sorted, TailMean;
    var n, s := |window|, Sorted(window);
    FpsIsNotNegative(s, n / 100);
    if n >= 1000 {
      FpsOfMeans(s, n / 1000, n / 100);
    }
  }

  /** The low over a share of the largest values is their rate: as many frames as they are, in the time they
      take. It is zero when there are none, or when they take no time. */
  lemma LowsAreRates(window: seq<real>, windowSeconds: real)
    requires window != []
    ensures var r, n, s := Summary(window, windowSeconds), |window|, Sorted(window);
            && IsRate(r.low1PercentFps, s[n - n / 100..])
            && IsRate(r.low01PercentFps, s[n - n / 1000..])
  {
    hide Summary, Sorted, TailFps, IsRate;
    SummaryFields(window, windowSeconds);
    TailFpsIsRate(Sorted(window), |window| / 100);
    TailFpsIsRate(Sorted(window), |window| / 1000);
  }

  predicate IsRate(fps: real, milliseconds: seq<real>) {
    if Sum(milliseconds) > 0.0 then fps * Sum(milliseconds) == 1000.0 * |milliseconds| as real
    else fps == 0.0
  }

  lemma TailFpsIsRate(s: seq<real>, tail: nat)
    requires tail <= |s|
    ensures IsRate(TailFps(s, tail), s[|s| - tail..])
  {
    var top := s[|s| - tail..];
    var sum := Sum(top);
    hide Sum;
    if tail == 0 {
      EmptyTotal();
    } else {
      RateOfMean(sum, tail as real);
    }
  }

  lemma EmptyTotal()
    ensures Sum([]) == 0.0
  {
  }

  lemma RateOfMean(sum: real, n: real)
    requires n > 0.0
    ensures sum / n > 0.0 <==> sum > 0.0
    ensures sum > 0.0 ==> 1000.0 / (sum / n) * sum == 1000.0 * n
  {
    var mean := sum / n;
    DivideThenMultiply(sum, n);
    if mean <= 0.0 {
      ProductNotNegative(-mean, n);
    } else {
      DivideThenMultiply(1000.0, mean);
      RateTimesSum(1000.0 / mean, mean, n);
    }
  }

  lemma RateTimesSum(fps: real, mean: real, n: real)
    requires fps * mean == 1000.0
    ensures fps * (mean * n) == 1000.0 * n
  {
  }

  lemma FpsIsNotNegative(s: seq<real>, tail: nat)
    requires tail <= |s|
    ensures TailFps(s, tail) >= 0.0
    ensures tail > 0 ==> (TailFps(s, tail) > 0.0 <==> TailMean(s, tail) > 0.0)
  {
    if tail > 0 && TailMean(s, tail) > 0.0 {
      PositiveQuotient(TailMean(s, tail));
    }
  }

  lemma PositiveQuotient(x: real)
    requires x > 0.0
    ensures 1000.0 / x > 0.0
  {
  }

  lemma FpsOfMeans(s: seq<real>, short: nat, long: nat)
    requires IsSorted(s) && 0 < short <= long <= |s|
    ensures TailFps(s, short) <= TailFps(s, long) <==> TailMean(s, short) <= 0.0 || TailMean(s, long) > 0.0
  {
    FpsIsNotNegative(s, short);
    FpsIsNotNegative(s, long);
    LongerTailIsLower(s, short, long);
    if TailMean(s, long) > 0.0 {
      ReciprocalFalls(TailMean(s, long), TailMean(s, short));
    }
  }

  lemma InsertAtEnd(x: real, s: seq<real>)
    requires s == [] || s[|s| - 1] <= x
    ensures Insert(x, s) == s + [x]
  {
  }

  lemma SortedStep(s: seq<real>)
    ensures Sorted(s) == if s == [] then [] else Insert(s[|s| - 1], Sorted(s[..|s| - 1]))
  {
  }

  lemma {:induction false} SortedStays(s: seq<real>)
    requires IsSorted(s)
    ensures Sorted(s) == s
  {
    hide Sorted, Insert;
    SortedStep(s);
    if s != [] {
      SortedStays(s[..|s| - 1]);
      InsertAtEnd(s[|s| - 1], s[..|s| - 1]);
    }
  }

  /** `n` equal values. */
  function Repeated(x: real, n: nat): (s: seq<real>)
    ensures |s| == n && forall k | 0 <= k < n :: s[k] == x
  {
    seq(n, _ => x)
  }

  lemma {:induction false} SumRepeated(x: real, n: nat)
    ensures Sum(Repeated(x, n)) == n as real * x
  {
    if n > 0 {
      assert Repeated(x, n)[..n - 1] == Repeated(x, n - 1);
      SumRepeated(x, n - 1);
      OneMore(n - 1, x);
    }
  }

  /** A window where the lows are out of order: one positive value above 999 negative ones. */
  lemma LowsOutOfOrder(windowSeconds: real)
    ensures var r := Summary(Repeated(-1.0, 999) + [1.0], windowSeconds);
            r.low1PercentFps == 0.0 && r.low01PercentFps == 1000.0
  {
    var s := Repeated(-1.0, 999) + [1.0];
    SpikeTails();
    SummaryFields(s, windowSeconds);
    SortedStays(s);
    hide Summary, Sorted, Repeated, Sum;
  }

  lemma SpikeTails()
    ensures var s := Repeated(-1.0, 999) + [1.0];
            IsSorted(s) && Sum(s[999..]) == 1.0 && Sum(s[990..]) == -8.0
  {
    var s := Repeated(-1.0, 999) + [1.0];
    hide Repeated;
    assert s[999..] == [] + [1.0] && Sum([]) == 0.0;
    assert s[990..][..9] == Repeated(-1.0, 9);
    SumRepeated(-1.0, 9);
  }

  /** The 1% low never exceeds the rate of the median interval. */
  lemma LowIsBelowMedianRate(window: seq<real>, windowSeconds: real)
    ensures var r := Summary(window, windowSeconds);
            r.median > 0.0 ==> r.low1PercentFps <= 1000.0 / r.median
  {
    SummaryFields(window, windowSeconds);
    SortedIsSorted(window);
    hide Summary, Sorted, TailMean;
    var r, n, s := Summary(window, windowSeconds), |window|, Sorted(window);
    if r.median > 0.0 {
      PositiveQuotient(r.median);
      if n >= 100 {
        MeanAtLeast(s, n / 100, r.median);
        ReciprocalFalls(r.median, TailMean(s, n / 100));
      }
    }
  }

  lemma MeanAtLeast(s: seq<real>, tail: nat, low: real)
    requires 0 < tail <= |s| && forall k | |s| - tail <= k < |s| :: s[k] >= low
    ensures TailMean(s, tail) >= low
  {
    SumAtLeast(s[|s| - tail..], low);
    var sum := Sum(s[|s| - tail..]);
    QuotientAtLeast(sum, tail as real, low);
  }

  // ---------------------------------------------------------------------------------------
  // Pacing deviation
  // ---------------------------------------------------------------------------------------

  /** The total deviation is the sum of the distances from the centre. */
  lemma {:induction false} DeviationIsSum(s: seq<real>, centre: real)
    ensures Deviation(s, centre) == Sum(seq(|s|, k requires 0 <= k < |s| => Abs(s[k] - centre)))
  {
    var distances := seq(|s|, k requires 0 <= k < |s| => Abs(s[k] - centre));
    if s != [] {
      var front := s[..|s| - 1];
      DeviationIsSum(front, centre);
      assert distances[..|s| - 1] == seq(|front|, k requires 0 <= k < |front| => Abs(front[k] - centre));
    }
  }

  lemma {:induction false} DeviationPrepend(x: real, s: seq<real>, centre: real)
    ensures Deviation([x] + s, centre) == Abs(x - centre) + Deviation(s, centre)
  {
    var t := [x] + s;
    if s == [] {
      assert t[..0] == [];
    } else {
      assert t[..|t| - 1] == [x] + s[..|s| - 1];
      DeviationPrepend(x, s[..|s| - 1], centre);
    }
  }

  lemma DeviationPeel(s: seq<real>, centre: real)
    requires |s| >= 2
    ensures Deviation(s, centre)
            == Abs(s[0] - centre) + Deviation(s[1..|s| - 1], centre) + Abs(s[|s| - 1] - centre)
  {
    assert s[..|s| - 1] == [s[0]] + s[1..|s| - 1];
    DeviationPrepend(s[0], s[1..|s| - 1], centre);
  }

  /** The lower median of a sorted sequence minimises the total absolute deviation. */
  lemma {:induction false} MedianMinimises(s: seq<real>, centre: real)
    requires IsSorted(s) && s != []
    ensures Deviation(s, s[(|s| - 1) / 2]) <= Deviation(s, centre)
    decreases |s|
  {
    var median := s[(|s| - 1) / 2];
    if |s| == 1 {
      assert s[..0] == [];
    } else {
      var inner := s[1..|s| - 1];
      DeviationPeel(s, median);
      DeviationPeel(s, centre);
      assert s[0] <= median <= s[|s| - 1];
      if |s| > 2 {
        assert inner[(|inner| - 1) / 2] == median;
        MedianMinimises(inner, centre);
      }
    }
  }

  lemma {:induction false} InsertAddsDeviation(x: real, s: seq<real>, centre: real)
    ensures Deviation(Insert(x, s), centre) == Deviation(s, centre) + Abs(x - centre)
  {
    var r := Insert(x, s);
    if s == [] || s[|s| - 1] <= x {
      assert r[..|r| - 1] == s;
    } else {
      InsertAddsDeviation(x, s[..|s| - 1], centre);
      assert r[..|r| - 1] == Insert(x, s[..|s| - 1]);
    }
  }

  lemma {:induction false} SortingKeepsDeviation(s: seq<real>, centre: real)
    ensures Deviation(Sorted(s), centre) == Deviation(s, centre)
  {
    if s != [] {
      SortingKeepsDeviation(s[..|s| - 1], centre);
      InsertAddsDeviation(s[|s| - 1], Sorted(s[..|s| - 1]), centre);
    }
  }

  /** With a positive median, the reported deviation is the mean absolute deviation of the window
      about its median, and no other centre has a smaller one. */
  lemma PacingDeviationIsMinimal(window: seq<real>, windowSeconds: real, centre: real)
    requires window != [] && Summary(window, windowSeconds).median > 0.0
    ensures var r, n := Summary(window, windowSeconds), |window| as real;
            r.pacingDeviation == Deviation(window, r.median) / n <= Deviation(window, centre) / n
  {
    SummaryFields(window, windowSeconds);
    SortedIsSorted(window);
    hide *;
    var r, s := Summary(window, windowSeconds), Sorted(window);
    MedianMinimises(s, centre);
    SortingKeepsDeviation(window, centre);
    SortingKeepsDeviation(window, r.median);
    DivideMonotone(Deviation(window, r.median), Deviation(window, centre), |window| as real);
  }
}
