/** The frame-time ring buffer, against the plain log it stands for, and its window reader.
    `float` and `double` are modelled as `real`. */
module FrameTimeSeries {
  import opened Common
  import opened OrderStatistics

  const CAPACITY: nat := 16384

  /** A pushed value: `push` drops the ones that are infinite or not a number. */
  datatype Reading = Finite(milliseconds: real) | NonFinite

  datatype Sample = Sample(value: real, timestamp: real)

  /** The last `n` elements of a log, or all of it when it is shorter. */
  function Last<T>(log: seq<T>, n: nat): (tail: seq<T>)
    ensures |tail| == Min(|log|, n)
  {
    if |log| <= n then log else log[|log| - n..]
  }

  /** The length of the longest suffix of the log whose timestamps are all at or after `cutoff`. */
  function FreshCount(log: seq<Sample>, cutoff: real): (n: nat)
    ensures n <= |log|
    ensures forall k | |log| - n <= k < |log| :: log[k].timestamp >= cutoff
    ensures n < |log| ==> log[|log| - n - 1].timestamp < cutoff
  {
    if log == [] || log[|log| - 1].timestamp < cutoff then 0
    else FreshCount(log[..|log| - 1], cutoff) + 1
  }

  /** No other suffix is all fresh and preceded by a stale sample, or by nothing. */
  lemma {:induction false} FreshIsLongest(log: seq<Sample>, cutoff: real, n: nat)
    requires n <= |log|
    requires forall k | |log| - n <= k < |log| :: log[k].timestamp >= cutoff
    requires n < |log| ==> log[|log| - n - 1].timestamp < cutoff
    ensures n == FreshCount(log, cutoff)
  {
    if n > 0 {
      assert log[|log| - 1].timestamp >= cutoff;
      FreshIsLongest(log[..|log| - 1], cutoff, n - 1);
    }
  }

  /** The fresh values of a log, newest first. */
  function Window(log: seq<Sample>, cutoff: real): (values: seq<real>)
    ensures |values| == FreshCount(log, cutoff)
    ensures forall k | 0 <= k < |values| :: values[k] == log[|log| - 1 - k].value
  {
    seq(FreshCount(log, cutoff), k requires 0 <= k < FreshCount(log, cutoff) => log[|log| - 1 - k].value)
  }

  /** Where the sample pushed `step` pushes before the newest one is stored. */
  function Slot(next: nat, step: nat): (index: nat)
    requires next < CAPACITY && step < CAPACITY
    ensures index == if step < next then next - 1 - step else next + CAPACITY - 1 - step
    ensures index < CAPACITY
  {
    (next + CAPACITY - 1 - step) % CAPACITY
  }

  class FrameTimeSeries {
    const samples: array<Sample>
    var next: nat
    var count: nat

    /** Every finite sample pushed since the last clear, oldest first. */
    ghost var Log: seq<Sample>

    ghost predicate Valid()
      reads this, samples
    {
      && samples.Length == CAPACITY
      && next < CAPACITY
      && count == Min(|Log|, CAPACITY)
      && (forall step | 0 <= step < count :: samples[Slot(next, step)] == Log[|Log| - 1 - step])
    }

    /** What the buffer denotes, oldest first. */
    ghost function Contents(): seq<Sample>
      reads this, samples
      requires Valid()
    {
      seq(count, k requires 0 <= k < count && Valid() reads this, samples => samples[Slot(next, count - 1 - k)])
    }

    lemma ContentsAreLogTail()
      requires Valid()
      ensures Contents() == Last(Log, CAPACITY) == if |Log| <= 16384 then Log else Log[|Log| - 16384..]
    {
    }

    constructor ()
      ensures Valid() && Log == [] && next == 0 && fresh(samples)
    {
      samples := new Sample[CAPACITY](_ => Sample(0.0, 0.0));
      next, count := 0, 0;
      Log := [];
    }

    method Push(value: Reading, timestamp: real)
      requires Valid()
      modifies this, samples
      ensures Valid()
      ensures Log == if value.Finite? then old(Log) + [Sample(value.milliseconds, timestamp)] else old(Log)
      ensures value.NonFinite? ==> Contents() == old(Contents())
    {
      if value.NonFinite? {
        return;
      }
      samples[next] := Sample(value.milliseconds, timestamp);
      next := (next + 1) % CAPACITY;
      if count < CAPACITY {
        count := count + 1;
      }
      Log := Log + [Sample(value.milliseconds, timestamp)];
      forall step | 0 <= step < count
        ensures samples[Slot(next, step)] == Log[|Log| - 1 - step]
      {
        if step > 0 {
          assert Slot(next, step) == Slot(old(next), step - 1) != old(next);
        }
      }
    }

    method Clear()
      requires Valid()
      modifies this
      ensures Valid() && Log == [] && next == 0 && Contents() == []
    {
      next := 0;
      count := 0;
      Log := [];
    }

    method Size() returns (size: nat)
      requires Valid()
      ensures size == |Last(Log, CAPACITY)|
    {
      size := count;
    }

    lemma CountIsTail()
      requires Valid()
      ensures count == |Last(Log, CAPACITY)| && samples.Length == CAPACITY && next < CAPACITY
    {
    }

    lemma StoredAt(step: nat)
      requires Valid() && step < |Last(Log, CAPACITY)|
      ensures count == |Last(Log, CAPACITY)| && samples.Length == CAPACITY && next < CAPACITY
      ensures Slot(next, step) == (next + CAPACITY - 1 - step) % CAPACITY
      ensures samples[Slot(next, step)] == Last(Log, CAPACITY)[count - 1 - step]
    {
    }

    /** The scan of `recent`: newest first, stopping at the first sample older than the cutoff. */
    method CopyNewest(out: array<real>, limit: nat, cutoff: real) returns (written: nat)
      requires Valid() && limit <= out.Length && out as object != samples
      modifies out
      ensures Valid()
      ensures var tail := Last(Log, CAPACITY);
              && written == Min(FreshCount(tail, cutoff), limit)
              && (forall k | 0 <= k < written :: out[k] == tail[|tail| - 1 - k].value)
      ensures forall k | written <= k < out.Length :: out[k] == old(out[k])
    {
      hide *;
      CountIsTail();
      written := 0;
      var step := 0;
      ghost var tail := Last(Log, CAPACITY);
      while step < count && written < limit
        invariant Valid() && count == |tail|
        invariant written == step <= count && written <= limit
        invariant forall k | 0 <= k < step :: out[k] == tail[count - 1 - k].value
        invariant step <= FreshCount(tail, cutoff)
        invariant forall k | step <= k < out.Length :: out[k] == old(out[k])
      {
        StoredAt(step);
        var index := (next + CAPACITY - 1 - step) % CAPACITY;
        if samples[index].timestamp < cutoff {
          break;
        }
        out[written] := samples[index].value;
        written := written + 1;
        step := step + 1;
      }
    }

    /** Writes the newest fresh values, at most `limit` of them, oldest first; a null buffer gets nothing. */
    method Recent(out: array?<real>, limit: nat, now: real, windowSeconds: real) returns (written: nat)
      requires Valid()
      requires out != null ==> limit <= out.Length && out as object != samples
      modifies out
      ensures Valid()
      ensures out == null ==> written == 0
      ensures out != null ==>
                var tail := Last(Log, CAPACITY);
                && written == Min(FreshCount(tail, now - windowSeconds), limit)
                && (forall k | 0 <= k < written :: out[k] == tail[|tail| - written + k].value)
                && (forall k | written <= k < out.Length :: out[k] == old(out[k]))
    {
      if out == null || limit == 0 || count == 0 {
        return 0;
      }
      var cutoff := now - windowSeconds;
      written := CopyNewest(out, limit, cutoff);
      Reverse(out, written);
    }

    /** The gathering loop of `statistics`: fills the scratch array newest first. */
    method Gather(scratch: array<real>, cutoff: real)
      returns (gathered: nat, total: real, minimum: real, maximum: real)
      requires Valid() && scratch.Length == CAPACITY && scratch as object != samples
      modifies scratch
      ensures Valid() && gathered <= CAPACITY
      ensures var window := Window(Last(Log, CAPACITY), cutoff);
              && scratch[..gathered] == window && total == Sum(window)
              && (gathered > 0 ==> minimum == Lowest(window) && maximum == Highest(window))
    {
      hide *;
      CountIsTail();
      gathered, total, minimum, maximum := 0, 0.0, 0.0, 0.0;
      ghost var window := Window(Last(Log, CAPACITY), cutoff);
      EmptySum();
      assert scratch[..0] == [];
      for step := 0 to count
        invariant Valid() && gathered == step <= |window|
        invariant scratch[..gathered] == window[..gathered]
        invariant total == Sum(scratch[..gathered])
        invariant gathered > 0 ==>
            minimum == Lowest(scratch[..gathered]) && maximum == Highest(scratch[..gathered])
      {
        StoredAt(step);
        var index := (next + CAPACITY - 1 - step) % CAPACITY;
        if samples[index].timestamp < cutoff {
          break;
        }
        var value := samples[index].value;
        if gathered == 0 {
          minimum, maximum := value, value;
        } else {
          minimum, maximum := MinReal(minimum, value), MaxReal(maximum, value);
        }
        Extended(scratch[..gathered], value);
        scratch[gathered] := value;
        assert scratch[..gathered + 1] == scratch[..gathered] + [value];
        total := total + value;
        gathered := gathered + 1;
      }
      assert window[..|window|] == window;
    }

    /** `scratch` is the thread-local array that the values are sorted in. */
    method Statistics(now: real, windowSeconds: real, scratch: array<real>) returns (result: SeriesStatistics)
      requires Valid() && scratch.Length == CAPACITY && scratch as object != samples
      modifies scratch
      ensures Valid()
      ensures result == Summary(Window(Last(Log, CAPACITY), now - windowSeconds), windowSeconds)
    {
      hide Valid, Window, Sorted, Sum, Lowest, Highest;
      hide PercentileIndex, Tail, TailFps, Deviation, CountBelow, CountAbove;
      result := NoStatistics(windowSeconds);
      var cutoff := now - windowSeconds;
      var gathered, total, minimum, maximum := Gather(scratch, cutoff);
      if gathered == 0 {
        return;
      }
      result := result.(current := scratch[0], sampleCount := gathered, average := total / gathered as real,
                        minimum := minimum, maximum := maximum);
      Sort(scratch, gathered);
      result := SortedStatistics(result, scratch, gathered);
    }
  }

  /** The part of `statistics` that works on the sorted values. */
  method SortedStatistics(partial: SeriesStatistics, a: array<real>, n: nat) returns (result: SeriesStatistics)
    requires 0 < n <= a.Length && partial.pacingDeviation == partial.pacingDeviationRatio == 0.0
    requires partial.shortIntervals == partial.longIntervals == 0
    ensures result == WithOrderStatistics(partial, a[..n])
  {
    hide Deviation, CountBelow, CountAbove, TailFps, PercentileIndex, Tail;
    PercentileIndices(n);
    var median := a[PercentileIndex(n, 0.5)];
    result := partial.(median := median,
                       percentile95 := a[PercentileIndex(n, 0.95)],
                       percentile99 := a[PercentileIndex(n, 0.99)]);
    var low1 := TailAverageFps(a, n, Tail(n, 0.01));
    var low01 := TailAverageFps(a, n, Tail(n, 0.001));
    result := result.(low1PercentFps := low1, low01PercentFps := low01);
    if median > 0.0 {
      var total, short, long := Deviations(a, n, median);
      var deviation := total / n as real;
      result := result.(shortIntervals := short, longIntervals := long, pacingDeviation := deviation,
                        pacingDeviationRatio := deviation / median);
    }
  }

  lemma EmptySum()
    ensures Sum([]) == 0.0
  {
  }

  /** How the folds over a sequence grow with one more element. */
  lemma Extended(s: seq<real>, x: real)
    ensures Sum(s + [x]) == Sum(s) + x
    ensures s == [] ==> Lowest(s + [x]) == x && Highest(s + [x]) == x
    ensures s != [] ==>
              && Lowest(s + [x]) == MinReal(Lowest(s), x)
              && Highest(s + [x]) == MaxReal(Highest(s), x)
  {
    assert (s + [x])[..|s|] == s;
  }

  lemma ExtendedCounts(s: seq<real>, x: real, centre: real, low: real, high: real)
    ensures Deviation(s + [x], centre) == Deviation(s, centre) + Abs(x - centre)
    ensures CountBelow(s + [x], low) == CountBelow(s, low) + if x < low then 1 else 0
    ensures CountAbove(s + [x], high) == CountAbove(s, high) + if x > high then 1 else 0
  {
    assert (s + [x])[..|s|] == s;
  }

  /** `std::sort` on the first `n` cells. */
  method Sort(a: array<real>, n: nat)
    requires n <= a.Length
    modifies a
    ensures a[..n] == Sorted(old(a[..n]))
  {
    var sorted := Sorted(a[..n]);
    for i := 0 to n
      invariant forall k | 0 <= k < i :: a[k] == sorted[k]
    {
      a[i] := sorted[i];
    }
  }

  /** The `tail_average_fps` loop over the `tail` largest of `n` sorted values. */
  method TailAverageFps(a: array<real>, n: nat, tail: nat) returns (fps: real)
    requires tail <= n <= a.Length
    ensures fps == TailFps(a[..n], tail)
  {
    if tail == 0 {
      return 0.0;
    }
    var sum := 0.0;
    for i := n - tail to n
      invariant sum == Sum(a[n - tail..i])
    {
      Extended(a[n - tail..i], a[i]);
      assert a[n - tail..i + 1] == a[n - tail..i] + [a[i]];
      sum := sum + a[i];
    }
    assert a[..n][n - tail..] == a[n - tail..n];
    var mean := sum / tail as real;
    fps := if mean > 0.0 then 1000.0 / mean else 0.0;
  }

  /** The loop that totals the absolute deviation and counts the irregular intervals. */
  method Deviations(a: array<real>, n: nat, median: real) returns (total: real, short: nat, long: nat)
    requires n <= a.Length && median > 0.0
    ensures total == Deviation(a[..n], median)
    ensures short == CountBelow(a[..n], median * 0.5) && long == CountAbove(a[..n], median * 1.5)
  {
    total, short, long := 0.0, 0, 0;
    var shortThreshold, longThreshold := median * 0.5, median * 1.5;
    for i := 0 to n
      invariant total == Deviation(a[..i], median)
      invariant short == CountBelow(a[..i], shortThreshold) && long == CountAbove(a[..i], longThreshold)
    {
      ExtendedCounts(a[..i], a[i], median, shortThreshold, longThreshold);
      assert a[..i + 1] == a[..i] + [a[i]];
      total := total + Abs(a[i] - median);
      if a[i] < shortThreshold {
        short := short + 1;
      } else if a[i] > longThreshold {
        long := long + 1;
      }
    }
  }

  /** `std::reverse` on the first `n` cells. */
  method Reverse(a: array<real>, n: nat)
    requires n <= a.Length
    modifies a
    ensures forall k | 0 <= k < n :: a[k] == old(a[n - 1 - k])
    ensures forall k | n <= k < a.Length :: a[k] == old(a[k])
  {
    var i := 0;
    while i < n / 2
      invariant i <= n / 2
      invariant forall k | 0 <= k < i :: a[k] == old(a[n - 1 - k]) && a[n - 1 - k] == old(a[k])
      invariant forall k | i <= k < n - i :: a[k] == old(a[k])
      invariant forall k | n <= k < a.Length :: a[k] == old(a[k])
    {
      a[i], a[n - 1 - i] := a[n - 1 - i], a[i];
      i := i + 1;
    }
  }
}
