/** The debounce of the presented-frame multiplier, against the history of its observations. */
module FramePacing {
  import opened Common

  const STABILITY_FRAMES: nat := 30

  /** The observations that count: frames that presented nothing are dropped. */
  function NonZero(observations: seq<nat>): seq<nat> {
    if observations == [] then []
    else
      var front, last := NonZero(observations[..|observations| - 1]), observations[|observations| - 1];
      if last == 0 then front else front + [last]
  }

  /** The observations before `end` finish with a run of enough equal values. */
  predicate QualifiesAt(h: seq<nat>, end: nat) {
    STABILITY_FRAMES <= end <= |h| && forall k | end - STABILITY_FRAMES <= k < end :: h[k] == h[end - 1]
  }

  /** The value of the latest sufficient run, 0 when there is none. */
  function StableValue(h: seq<nat>): nat {
    if h == [] then 0
    else if QualifiesAt(h, |h|) then h[|h| - 1]
    else StableValue(h[..|h| - 1])
  }

  /** How often the stable value changed while the history grew to `h`. */
  function Changes(h: seq<nat>): nat {
    if h == [] then 0
    else Changes(h[..|h| - 1]) + if StableValue(h) != StableValue(h[..|h| - 1]) then 1 else 0
  }

  /** `StableValue` is the last value of the run that ends latest, and 0 when there is none. */
  lemma {:induction false} StableValueIsLatestRun(h: seq<nat>, end: nat)
    requires end <= |h| && forall later | end < later <= |h| :: !QualifiesAt(h, later)
    ensures QualifiesAt(h, end) ==> StableValue(h) == h[end - 1]
    ensures end == 0 ==> StableValue(h) == 0
  {
    if end < |h| {
      var front := h[..|h| - 1];
      assert forall e | 0 <= e <= |front| :: QualifiesAt(front, e) == QualifiesAt(h, e);
      StableValueIsLatestRun(front, end);
    }
  }

  /** The length of the run of equal values that the history ends with. */
  function TrailingRun(h: seq<nat>): (n: nat)
    ensures n <= |h|
  {
    if h == [] then 0
    else if |h| == 1 || h[|h| - 2] != h[|h| - 1] then 1
    else TrailingRun(h[..|h| - 1]) + 1
  }

  lemma {:induction false} TrailingRunIsRun(h: seq<nat>, n: nat)
    ensures n <= TrailingRun(h) <==> n <= |h| && forall k | |h| - n <= k < |h| :: h[k] == h[|h| - 1]
  {
    if h != [] && n > 1 {
      TrailingRunIsRun(h[..|h| - 1], n - 1);
    }
  }

  /** Thirty equal observations make their value the stable one, and fewer do not. */
  lemma {:induction false} ThirtyDecide(h: seq<nat>, value: nat)
    requires forall k | 0 <= k < |h| :: h[k] == value
    ensures StableValue(h) == if |h| >= 30 then value else 0
  {
    if h != [] {
      ThirtyDecide(h[..|h| - 1], value);
    }
  }

  /** How one more counted observation extends the history. */
  lemma OneMoreObservation(h: seq<nat>, x: nat)
    ensures var grown := h + [x];
            && TrailingRun(grown) == (if h != [] && h[|h| - 1] == x then TrailingRun(h) + 1 else 1)
            && StableValue(grown) == (if TrailingRun(grown) >= STABILITY_FRAMES then x else StableValue(h))
            && Changes(grown) == Changes(h) + if StableValue(grown) != StableValue(h) then 1 else 0
  {
    var grown := h + [x];
    assert grown[..|grown| - 1] == h;
    TrailingRunIsRun(grown, STABILITY_FRAMES);
  }

  lemma {:induction false} CountedAppend(observations: seq<nat>, x: nat)
    ensures NonZero(observations + [x]) == if x == 0 then NonZero(observations) else NonZero(observations) + [x]
  {
    assert (observations + [x])[..|observations|] == observations;
  }

  /** Dropping the zeros drops nothing else. */
  lemma {:induction false} ZerosAreDropped(observations: seq<nat>)
    ensures multiset(NonZero(observations)) == multiset(observations)[0 := 0]
  {
    if observations != [] {
      var front, last := observations[..|observations| - 1], observations[|observations| - 1];
      ZerosAreDropped(front);
      assert observations == front + [last];
    }
  }

  /** Observation `k` changed the stable value. */
  predicate ChangedAt(h: seq<nat>, k: nat)
    requires k < |h|
  {
    StableValue(h[..k + 1]) != StableValue(h[..k])
  }

  /** The count of changes is the number of observations that changed the stable value. */
  lemma {:induction false} ChangesAreCounted(h: seq<nat>)
    ensures Changes(h) == |set k: nat | k < |h| && ChangedAt(h, k)|
  {
    hide ChangedAt, StableValue;
    var changes := set k: nat | k < |h| && ChangedAt(h, k);
    if h == [] {
      assert changes == {};
    } else {
      var front, last: nat := h[..|h| - 1], |h| - 1;
      ChangesAreCounted(front);
      EarlierChanges(h);
      var changes' := set k: nat | k < |front| && ChangedAt(front, k);
      assert changes - {last} == changes';
      assert last in changes <==> ChangedAt(h, last);
    }
  }

  lemma EarlierChanges(h: seq<nat>)
    requires h != []
    ensures var front := h[..|h| - 1];
            && (forall k | 0 <= k < |front| :: ChangedAt(front, k) == ChangedAt(h, k))
            && Changes(h) == Changes(front) + if ChangedAt(h, |h| - 1) then 1 else 0
  {
    var front := h[..|h| - 1];
    hide StableValue;
    assert h[..|h| - 1 + 1] == h;
    forall k | 0 <= k < |front|
      ensures ChangedAt(front, k) == ChangedAt(h, k)
    {
      assert front[..k] == h[..k] && front[..k + 1] == h[..k + 1];
    }
  }

  lemma WrappedSuccessor(n: nat)
    ensures (n % UINT32_SIZE + 1) % UINT32_SIZE == (n + 1) % UINT32_SIZE
  {
  }

  class MultiplierTracker {
    var candidate: nat
    var streak: nat
    var stable: nat
    var transitions: nat

    /** Every observation since the last reset. */
    ghost var History: seq<nat>

    ghost predicate Valid()
      reads this
    {
      var h := NonZero(History);
      && candidate == (if h == [] then 0 else h[|h| - 1])
      && streak == Min(TrailingRun(h), STABILITY_FRAMES)
      && stable == StableValue(h)
      && transitions == Changes(h) % UINT32_SIZE
    }

    constructor ()
      ensures Valid() && History == []
    {
      candidate, streak, stable, transitions := 0, 0, 0, 0;
      History := [];
    }

    method Observe(presented: nat) returns (changed: bool)
      requires Valid()
      modifies this
      ensures Valid() && History == old(History) + [presented]
      ensures changed <==> stable != old(stable)
    {
      ghost var h := NonZero(History);
      CountedAppend(History, presented);
      OneMoreObservation(h, presented);
      WrappedSuccessor(Changes(h));
      hide NonZero, TrailingRun, StableValue, Changes;
      History := History + [presented];
      if presented == 0 {
        return false;
      }
      if presented == candidate {
        if streak < STABILITY_FRAMES {
          streak := streak + 1;
        }
      } else {
        candidate := presented;
        streak := 1;
      }
      if streak >= STABILITY_FRAMES && stable != candidate {
        stable := candidate;
        transitions := (transitions + 1) % UINT32_SIZE;
        return true;
      }
      return false;
    }

    method Reset()
      modifies this
      ensures Valid() && History == []
    {
      candidate := 0;
      streak := 0;
      stable := 0;
      transitions := 0;
      History := [];
    }
  }
}
