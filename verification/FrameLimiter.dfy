/** The base frame limiter: a deadline pacer that runs against a counter it does not control.
    Sleeping, yielding and pausing change nothing but the next counter reading, so the wait loop
    is modelled by its readings. `float` and `long double` are modelled as `real`. */
module FrameLimiter {
  import opened Arithmetic
  import opened Common

  /** The reading of each successive query of the performance counter; `None` is a failed query. */
  type Clock = nat -> Option<int>

  ghost predicate Reaches(clock: Clock, t: nat, bound: real) {
    exists u: nat :: u >= t && (clock(u) == None || clock(u).value as real >= bound)
  }

  /** Query `u` is the first one from `t` on that fails or reads at least `target`. */
  ghost predicate FirstReaching(clock: Clock, t: nat, u: nat, target: real) {
    && t <= u
    && (clock(u).Some? ==> clock(u).value as real >= target)
    && forall v | t <= v < u :: clock(v).Some? && (clock(v).value as real) < target
  }

  lemma {:induction false} FirstOf(clock: Clock, t: nat, stop: nat, target: real) returns (u: nat)
    requires t <= stop && (clock(stop) == None || clock(stop).value as real >= target)
    ensures FirstReaching(clock, t, u, target)
    decreases stop - t
  {
    if clock(t) == None || clock(t).value as real >= target {
      u := t;
    } else {
      u := FirstOf(clock, t + 1, stop, target);
    }
  }

  /** A waiting loop has a last query exactly when the counter does not stall below the target for ever. */
  lemma WaitEnds(clock: Clock, t: nat, target: real)
    ensures Reaches(clock, t, target) <==> exists u: nat :: FirstReaching(clock, t, u, target)
  {
    if Reaches(clock, t, target) {
      var stop: nat :| stop >= t && (clock(stop) == None || clock(stop).value as real >= target);
      var u := FirstOf(clock, t, stop, target);
    }
  }

  /** A counter whose queries succeed, with positive readings that never fall and pass any bound. */
  ghost predicate IsSteady(clock: Clock) {
    && (forall t: nat :: clock(t).Some? && clock(t).value > 0)
    && (forall t: nat, u: nat :: t <= u ==> clock(t).Some? && clock(u).Some? && clock(t).value <= clock(u).value)
    && (forall t: nat, bound: real :: Reaches(clock, t, bound))
  }

  const CENSUS_WINDOW: nat := 600

  function Interval(frequency: int, fps: nat): (ticks: real)
    requires frequency > 0 && fps > 0
    ensures ticks > 0.0
    ensures ticks * fps as real == frequency as real
  {
    DivideThenMultiply(frequency as real, fps as real);
    frequency as real / fps as real
  }

  /** The two fields that decide when a frame is released. */
  datatype Pacer = Pacer(deadline: real, limit: nat) {
    /** Whether a call that first reads `now` starts a new cadence instead of waiting. */
    predicate Anchors(interval: real, fps: nat, now: real) {
      limit != fps || deadline == 0.0 || now > deadline + interval + interval
    }
  }

  /** What one unbypassed call sees: its first reading and the last one before it returns. */
  datatype Call = Call(now: real, released: real)

  /** One call takes the pacer from `before` to `after`. */
  predicate Paces(interval: real, fps: nat, before: Pacer, call: Call, after: Pacer) {
    if before.Anchors(interval, fps, call.now) then
      after == Pacer(call.now, fps) && call.released == call.now
    else
      var target := before.deadline + interval;
      && after == Pacer(target, fps)
      && call.released >= target && call.released >= call.now
      && (call.now >= target ==> call.released == call.now)
  }

  class BaseFrameLimiter {
    const frequency: int
    var deadlineTicks: real
    var activeLimit: nat
    var lastWait: real
    var waitAccumulator: real
    var waitSamples: nat
    var averageWait: real
    var worstWait: real

    /** The waits, in milliseconds, since the census last started over. */
    ghost var Waits: seq<real>

    ghost predicate Valid()
      reads this
    {
      && waitAccumulator == Sum(Waits)
      && waitSamples == |Waits| < CENSUS_WINDOW
      && (forall w | w in Waits :: w <= worstWait)
    }

    ghost function State(): Pacer
      reads this
    {
      Pacer(deadlineTicks, activeLimit)
    }

    ghost predicate Idle()
      reads this
    {
      && State() == Pacer(0.0, 0)
      && lastWait == averageWait == worstWait == 0.0
      && Waits == []
    }

    constructor (frequency: int)
      ensures Valid() && Idle() && this.frequency == frequency
    {
      this.frequency := frequency;
      deadlineTicks, activeLimit := 0.0, 0;
      lastWait, waitAccumulator, waitSamples, averageWait, worstWait := 0.0, 0.0, 0, 0.0, 0.0;
      Waits := [];
    }

    method Reset()
      modifies this
      ensures Valid() && Idle() && activeLimit == 0 && Waits == []
      ensures deadlineTicks == lastWait == averageWait == worstWait == 0.0
    {
      deadlineTicks := 0.0;
      activeLimit := 0;
      lastWait := 0.0;
      waitAccumulator := 0.0;
      waitSamples := 0;
      averageWait := 0.0;
      worstWait := 0.0;
      Waits := [];
    }

    /** The tail of `wait`: a paced call contributes `waited` milliseconds to the census. */
    method Record(waited: real)
      requires Valid()
      modifies this`lastWait, this`waitAccumulator, this`waitSamples, this`averageWait, this`worstWait, this`Waits
      ensures Valid() && lastWait == waited
      ensures worstWait == if |old(Waits)| + 1 >= 600 then 0.0 else MaxReal(old(worstWait), waited)
      ensures averageWait * (|old(Waits)| + 1) as real == Sum(old(Waits) + [waited])
      ensures Waits == if |old(Waits)| + 1 >= 600 then [] else old(Waits) + [waited]
    {
      ghost var extended := Waits + [waited];
      assert extended[..|extended| - 1] == Waits;
      lastWait := waited;
      waitAccumulator := waitAccumulator + waited;
      waitSamples := waitSamples + 1;
      averageWait := waitAccumulator / waitSamples as real;
      DivideThenMultiply(waitAccumulator, waitSamples as real);
      worstWait := MaxReal(worstWait, waited);
      Waits := extended;
      if waitSamples >= CENSUS_WINDOW {
        waitAccumulator := 0.0;
        waitSamples := 0;
        worstWait := 0.0;
        Waits := [];
      }
    }

    /** The waiting loop: re-reads the counter until it fails or reaches the target. */
    method Spin(clock: Clock, t: nat, target: real) returns (last: nat)
      requires clock(t).Some? && Reaches(clock, t, target)
      ensures FirstReaching(clock, t, last, target)
    {
      last := t;
      var counter := clock(t);
      ghost var stop: nat :| stop >= t && (clock(stop) == None || clock(stop).value as real >= target);
      while counter.Some? && (counter.value as real) < target
        invariant t <= last <= stop && counter == clock(last)
        invariant forall v | t <= v < last :: clock(v).Some? && (clock(v).value as real) < target
        decreases stop - last
      {
        last := last + 1;
        counter := clock(last);
      }
    }

    /** The call does not wait, or waits for a deadline that the counter reaches unless it fails. */
    ghost predicate Returns(fps: nat, bypass: bool, clock: Clock, t: nat)
      reads this
    {
      || bypass || fps == 0 || frequency <= 0 || clock(t) == None
      || State().Anchors(Interval(frequency, fps), fps, clock(t).value as real)
      || Reaches(clock, t, deadlineTicks + Interval(frequency, fps))
    }

    /** `t` numbers the next counter query; the result numbers the one after the last made here. */
    method Wait(fps: nat, bypass: bool, clock: Clock, t: nat) returns (t': nat)
      requires Valid() && Returns(fps, bypass, clock, t)
      modifies this
      ensures Valid()
      ensures bypass || fps == 0 || frequency <= 0 ==> t' == t && Idle()
      ensures !(bypass || fps == 0 || frequency <= 0) ==>
                && t < t'
                && (clock(t' - 1) == None ==> Idle())
                && (clock(t) == None ==> t' == t + 1)
                && (clock(t).Some? && clock(t' - 1).Some? ==>
                      Paces(Interval(frequency, fps), fps, old(State()),
                            Call(clock(t).value as real, clock(t' - 1).value as real), State()))
                && (clock(t).Some? ==>
                      var interval, now := Interval(frequency, fps), clock(t).value as real;
                      if old(State()).Anchors(interval, fps, now) then
                        t' == t + 1 && unchanged(`lastWait, `averageWait, `worstWait, `Waits)
                      else
                        && FirstReaching(clock, t, t' - 1, old(deadlineTicks) + interval)
                        && (clock(t' - 1).Some? ==>
                              && (deadlineTicks - old(deadlineTicks)) * fps as real == frequency as real
                              && lastWait == (clock(t' - 1).value as real - now) / frequency as real * 1000.0
                              && worstWait == (if |old(Waits)| + 1 >= CENSUS_WINDOW then 0.0
                                               else MaxReal(old(worstWait), lastWait))
                              && averageWait * (|old(Waits)| + 1) as real == Sum(old(Waits) + [lastWait])
                              && Waits == if |old(Waits)| + 1 >= CENSUS_WINDOW then [] else old(Waits) + [lastWait]))
      ensures !(bypass || fps == 0 || frequency <= 0) && clock(t).Some? ==>
                var now := clock(t).value as real;
                if old(activeLimit) != fps || old(deadlineTicks) == 0.0
                   || (now - old(deadlineTicks)) * fps as real > (2 * frequency) as real
                then t' == t + 1 && activeLimit == fps && deadlineTicks == now
                else clock(t' - 1).Some? ==>
                       && activeLimit == fps && deadlineTicks != old(deadlineTicks)
                       && clock(t' - 1).value as real >= deadlineTicks
                       && forall u | t <= u < t' - 1 :: clock(u).Some? && (clock(u).value as real) < deadlineTicks
    {
      hide Sum, Reaches;
      if bypass || fps == 0 || frequency <= 0 {
        Reset();
        return t;
      }
      var counter := clock(t);
      t' := t + 1;
      if counter == None {
        Reset();
        return;
      }
      var now := counter.value as real;
      var interval := frequency as real / fps as real;
      assert interval == Interval(frequency, fps);
      if activeLimit != fps || deadlineTicks == 0.0 {
        activeLimit := fps;
        deadlineTicks := now;
        return;
      }
      var target := deadlineTicks + interval;
      LateInFrames(now - deadlineTicks, frequency, fps);
      if now > target + interval {
        deadlineTicks := now;
        return;
      }
      var last := Spin(clock, t, target);
      t' := last + 1;
      if clock(last) == None {
        Reset();
        return;
      }
      deadlineTicks := target;
      Record((clock(last).value as real - now) / frequency as real * 1000.0);
    }

    /** One unbypassed call on a steady counter, as a step of a run. */
    method PaceFrame(fps: nat, clock: Clock, t: nat) returns (t': nat, ghost call: Call)
      requires Valid() && fps > 0 && frequency > 0 && IsSteady(clock)
      modifies this
      ensures Valid() && t < t' && clock(t).Some? && clock(t' - 1).Some?
      ensures call == Call(clock(t).value as real, clock(t' - 1).value as real)
      ensures Paces(Interval(frequency, fps), fps, old(State()), call, State())
    {
      hide Paces, Valid, Interval, Reaches, FirstReaching, Sum;
      t' := Wait(fps, false, clock, t);
      call := Call(clock(t).value as real, clock(t' - 1).value as real);
    }

    /** `n` frames in a row, each paced by one call; the ghost results are the run that they make, and no
        two of its releases are closer than the rate bound says: `j - i - 2` frames at `fps` a second. */
    method PaceFrames(n: nat, fps: nat, clock: Clock, t: nat)
      returns (t': nat, ghost pacers: seq<Pacer>, ghost calls: seq<Call>)
      requires Valid() && fps > 0 && frequency > 0 && deadlineTicks >= 0.0 && IsSteady(clock)
      modifies this
      ensures Valid() && t' >= t + n
      ensures |calls| == n && IsRun(Interval(frequency, fps), fps, pacers, calls)
      ensures pacers[0] == old(State()) && pacers[n] == State()
      ensures forall i, j | 0 <= i <= j < n ::
                (calls[j].released - calls[i].released) * fps as real >= ((j - i - 2) * frequency) as real
    {
      hide Paces, Valid, Interval, IsRun, IsSteady, Reaches;
      t', pacers, calls := t, [State()], [];
      ghost var interval := Interval(frequency, fps);
      NoCalls(interval, fps, State());
      for k := 0 to n
        invariant Valid() && t' >= t + k
        invariant |calls| == k && |pacers| == k + 1 && IsRun(interval, fps, pacers, calls)
        invariant pacers[0] == old(State()) && pacers[k] == State()
        invariant k > 0 ==> t' > 0 && clock(t' - 1).Some? && calls[k - 1].released == clock(t' - 1).value as real
      {
        ghost var call: Call;
        ghost var before := t';
        t', call := PaceFrame(fps, clock, t');
        SteadyOrder(clock, before);
        OneMoreCall(interval, fps, pacers, calls, State(), call);
        pacers, calls := pacers + [State()], calls + [call];
      }
      RateInFrames(frequency, fps, pacers, calls);
    }
  }

  // ---------------------------------------------------------------------------------------
  // Whole runs
  // ---------------------------------------------------------------------------------------

  /** Consecutive calls at one limit, on a positive counter that never runs backwards, with any
      work between the calls and any oversleep inside them. `pacers[k]` precedes `calls[k]`. */
  ghost predicate IsRun(interval: real, fps: nat, pacers: seq<Pacer>, calls: seq<Call>) {
    && interval > 0.0 && fps > 0
    && |pacers| == |calls| + 1
    && pacers[0].deadline >= 0.0
    && (forall k | 0 <= k < |calls| :: calls[k].now > 0.0 && Paces(interval, fps, pacers[k], calls[k], pacers[k + 1]))
    && (forall k | 0 <= k < |calls| - 1 :: calls[k].released <= calls[k + 1].now)
  }

  /** Later than two intervals, in frames and ticks. */
  lemma LateInFrames(distance: real, frequency: int, fps: nat)
    requires frequency > 0 && fps > 0
    ensures distance > Interval(frequency, fps) + Interval(frequency, fps)
            <==> distance * fps as real > (2 * frequency) as real
  {
    var interval, f := Interval(frequency, fps), fps as real;
    assert (interval + interval) * f == (2 * frequency) as real;
    ComparesScaled(distance, interval + interval, f);
  }

  lemma ComparesScaled(x: real, y: real, f: real)
    requires f > 0.0
    ensures x > y <==> x * f > y * f
  {
    if x <= y {
      ScaleBoth(y, x, f);
    } else {
      assert (x - y) * f > 0.0;
    }
  }

  /** A distance in intervals, in frames and ticks. */
  lemma InFrames(distance: real, n: int, frequency: int, fps: nat)
    requires frequency > 0 && fps > 0 && distance >= n as real * Interval(frequency, fps)
    ensures distance * fps as real >= (n * frequency) as real
  {
    var interval, f := Interval(frequency, fps), fps as real;
    ScaleBoth(distance, n as real * interval, f);
    assert n as real * interval * f == n as real * (interval * f);
    assert (n * frequency) as real == n as real * frequency as real;
  }

  lemma ScaleBoth(x: real, y: real, f: real)
    requires x >= y && f >= 0.0
    ensures x * f >= y * f
  {
  }

  /** The rate bound of a run, in frames and ticks. */
  lemma RateInFrames(frequency: int, fps: nat, pacers: seq<Pacer>, calls: seq<Call>)
    requires frequency > 0 && fps > 0 && IsRun(Interval(frequency, fps), fps, pacers, calls)
    ensures forall i, j | 0 <= i <= j < |calls| ::
              (calls[j].released - calls[i].released) * fps as real >= ((j - i - 2) * frequency) as real
  {
    hide *;
    forall i, j | 0 <= i <= j < |calls|
      ensures (calls[j].released - calls[i].released) * fps as real >= ((j - i - 2) * frequency) as real
    {
      RateBound(Interval(frequency, fps), fps, pacers, calls, i, j);
      InFrames(calls[j].released - calls[i].released, j - i - 2, frequency, fps);
    }
  }

  lemma NoCalls(interval: real, fps: nat, pacer: Pacer)
    requires interval > 0.0 && fps > 0 && pacer.deadline >= 0.0
    ensures IsRun(interval, fps, [pacer], [])
  {
  }

  lemma SteadyOrder(clock: Clock, t: nat)
    requires IsSteady(clock)
    ensures clock(t).Some? && clock(t).value > 0
    ensures t > 0 ==> clock(t - 1).Some? && clock(t - 1).value <= clock(t).value
  {
  }

  lemma OneMoreCall(interval: real, fps: nat, pacers: seq<Pacer>, calls: seq<Call>, pacer: Pacer, call: Call)
    requires IsRun(interval, fps, pacers, calls) && |pacers| == |calls| + 1
    requires call.now > 0.0 && Paces(interval, fps, pacers[|calls|], call, pacer)
    requires calls != [] ==> calls[|calls| - 1].released <= call.now
    ensures IsRun(interval, fps, pacers + [pacer], calls + [call])
  {
    hide Paces;
  }

  lemma {:induction false} DeadlinesArePositive(interval: real, fps: nat, pacers: seq<Pacer>, calls: seq<Call>, k: nat)
    requires IsRun(interval, fps, pacers, calls) && 0 < k <= |calls|
    ensures pacers[k].deadline > 0.0 && pacers[k].limit == fps
  {
    assert Paces(interval, fps, pacers[k - 1], calls[k - 1], pacers[k]);
    if k > 1 {
      DeadlinesArePositive(interval, fps, pacers, calls, k - 1);
    }
  }

  /** From the first call on, every call moves the deadline by at least one interval. */
  lemma DeadlineAdvances(interval: real, fps: nat, pacers: seq<Pacer>, calls: seq<Call>, k: nat)
    requires IsRun(interval, fps, pacers, calls) && 0 < k < |calls|
    ensures pacers[k + 1].deadline >= pacers[k].deadline + interval
    ensures calls[k - 1].released <= pacers[k + 1].deadline + interval
  {
    DeadlinesArePositive(interval, fps, pacers, calls, k);
    assert Paces(interval, fps, pacers[k], calls[k], pacers[k + 1]);
    assert calls[k - 1].released <= calls[k - 1 + 1].now;
  }

  lemma {:induction false} DeadlinesSpread(interval: real, fps: nat, pacers: seq<Pacer>, calls: seq<Call>,
                                           i: nat, j: nat)
    requires IsRun(interval, fps, pacers, calls) && 0 < i <= j <= |calls|
    ensures pacers[j].deadline - pacers[i].deadline >= (j - i) as real * interval
    decreases j
  {
    if i < j {
      DeadlinesSpread(interval, fps, pacers, calls, i, j - 1);
      DeadlineAdvances(interval, fps, pacers, calls, j - 1);
      OneMore(j - 1 - i, interval);
    }
  }

  lemma ReleasedAtDeadline(interval: real, fps: nat, pacers: seq<Pacer>, calls: seq<Call>, j: nat)
    requires IsRun(interval, fps, pacers, calls) && j < |calls|
    ensures calls[j].released >= pacers[j + 1].deadline
  {
    assert Paces(interval, fps, pacers[j], calls[j], pacers[j + 1]);
  }

  lemma Chain(released: real, deadline: real, base: real, earlier: real, n: int, m: int, interval: real)
    requires released >= deadline && deadline - base >= m as real * interval && earlier <= base + interval
    requires m == n + 1
    ensures released - earlier >= n as real * interval
  {
    OneMore(n, interval);
  }

  /** No schedule of oversleeping releases frames faster than the limit, up to two intervals. */
  lemma RateBound(interval: real, fps: nat, pacers: seq<Pacer>, calls: seq<Call>, i: nat, j: nat)
    requires IsRun(interval, fps, pacers, calls) && i <= j < |calls|
    ensures calls[j].released - calls[i].released >= (j - i - 2) as real * interval
  {
    hide *;
    if i < j {
      RunShape(interval, fps, pacers, calls);
      DeadlineAdvances(interval, fps, pacers, calls, i + 1);
      DeadlinesSpread(interval, fps, pacers, calls, i + 2, j + 1);
      ReleasedAtDeadline(interval, fps, pacers, calls, j);
      Chain(calls[j].released, pacers[j + 1].deadline, pacers[i + 2].deadline, calls[i].released,
            j - i - 2, j + 1 - (i + 2), interval);
    } else {
      RunShape(interval, fps, pacers, calls);
      TwoFewer(interval, j - i - 2);
    }
  }

  lemma RunShape(interval: real, fps: nat, pacers: seq<Pacer>, calls: seq<Call>)
    requires IsRun(interval, fps, pacers, calls)
    ensures |pacers| == |calls| + 1 && interval > 0.0
  {
  }

  lemma TwoFewer(interval: real, n: int)
    requires interval > 0.0 && n == -2
    ensures n as real * interval < 0.0
  {
  }

  /** Without a re-anchor the deadlines stay on the grid of the first one: there is no drift. */
  lemma {:induction false} NoDrift(interval: real, fps: nat, pacers: seq<Pacer>, calls: seq<Call>, i: nat, j: nat)
    requires IsRun(interval, fps, pacers, calls) && i <= j <= |calls|
    requires forall k | i <= k < j :: !pacers[k].Anchors(interval, fps, calls[k].now)
    ensures pacers[j].deadline == pacers[i].deadline + (j - i) as real * interval
    decreases j
  {
    if i < j {
      NoDrift(interval, fps, pacers, calls, i, j - 1);
      assert Paces(interval, fps, pacers[j - 1], calls[j - 1], pacers[j - 1 + 1]);
      OneMore(j - 1 - i, interval);
    }
  }

  function Grid(k: nat, interval: real): real {
    1.0 + k as real * interval
  }

  /** A run whose second call oversleeps by two intervals and whose later calls never idle. */
  function TightCall(k: nat, interval: real): Call {
    if k == 0 then Call(Grid(0, interval), Grid(0, interval))
    else if k == 1 then Call(Grid(0, interval), Grid(3, interval))
    else if k <= 3 then Call(Grid(3, interval), Grid(3, interval))
    else Call(Grid(k - 1, interval), Grid(k, interval))
  }

  function TightPacer(k: nat, interval: real, fps: nat): Pacer {
    if k == 0 then Pacer(0.0, 0) else Pacer(Grid(k - 1, interval), fps)
  }

  lemma {:induction false} GridStep(k: nat, interval: real)
    requires interval > 0.0
    ensures Grid(k, interval) >= 1.0
    ensures Grid(k + 1, interval) == Grid(k, interval) + interval
  {
    OneMore(k, interval);
    if k > 0 {
      GridStep(k - 1, interval);
    }
  }

  lemma TightStep(k: nat, interval: real, fps: nat)
    requires interval > 0.0 && fps > 0
    ensures TightCall(k, interval).now > 0.0
    ensures TightCall(k, interval).released <= TightCall(k + 1, interval).now
    ensures Paces(interval, fps, TightPacer(k, interval, fps), TightCall(k, interval), TightPacer(k + 1, interval, fps))
  {
    hide Grid;
    GridStep(0, interval);
    GridStep(1, interval);
    GridStep(2, interval);
    if k > 0 {
      GridStep(k - 1, interval);
    }
    if k > 1 {
      GridStep(k - 2, interval);
    }
  }

  /** The rate bound is tight: one oversleep by two intervals lets later frames catch up on it. */
  lemma RateBoundIsTight(interval: real, fps: nat, n: nat)
    requires interval > 0.0 && fps > 0
    ensures exists pacers: seq<Pacer>, calls: seq<Call> ::
              && IsRun(interval, fps, pacers, calls) && |calls| == n + 4
              && calls[n + 3].released - calls[1].released == n as real * interval
  {
    hide *;
    var calls := seq(n + 4, k requires k >= 0 => TightCall(k, interval));
    var pacers := seq(n + 5, k requires k >= 0 => TightPacer(k, interval, fps));
    forall k: nat {
      TightStep(k, interval, fps);
    }
    TightRun(interval, fps, pacers, calls);
    TightGain(interval, n);
  }

  lemma TightRun(interval: real, fps: nat, pacers: seq<Pacer>, calls: seq<Call>)
    requires interval > 0.0 && fps > 0 && |calls| > 0 && |pacers| == |calls| + 1
    requires forall k | 0 <= k < |pacers| :: pacers[k] == TightPacer(k, interval, fps)
    requires forall k | 0 <= k < |calls| :: calls[k] == TightCall(k, interval)
    ensures IsRun(interval, fps, pacers, calls)
  {
    hide Paces;
    forall k: nat {
      TightStep(k, interval, fps);
    }
  }

  lemma TightGain(interval: real, n: nat)
    ensures TightCall(n + 3, interval).released - TightCall(1, interval).released == n as real * interval
  {
    OneMore(n, interval);
    OneMore(n + 1, interval);
    OneMore(n + 2, interval);
  }
}
