/** The command-slot protocol that the FidelityFX and XeSS upscalers share: four allocator and
    list pairs guarded by one fence. The GPU is an in-order queue that retires work at any time. */
module CommandSlots {
  import opened Common

  const SLOT_COUNT: nat := 4

  datatype Op = Run(slot: nat) | Signal(value: nat)

  /** Where the single-threaded evaluation stands. */
  datatype Phase = Between | Recording(slot: nat) | Executed(slot: nat)

  /** `ops` is everything ever queued, of which the GPU has finished the first `retired`. */
  datatype World = World(ops: seq<Op>, retired: nat, fences: seq<nat>, nextFence: nat, nextSlot: nat, phase: Phase)

  const INITIAL: World := World([], 0, [0, 0, 0, 0], 1, 0, Between)

  datatype Event =
    | GpuRetires(upTo: nat)
    | Acquire
    | Abandon         // the allocator or list reset, the dispatch or the close failed
    | Execute
    | SignalSucceeds
    | SignalFails

  /** The fence after these operations: the last value signalled, 0 before any. */
  function FenceValue(ops: seq<Op>): nat {
    if ops == [] then 0
    else
      match ops[|ops| - 1]
      case Signal(value) => value
      case Run(_) => FenceValue(ops[..|ops| - 1])
  }

  /** `GetCompletedValue`. */
  function Completed(w: World): nat
    requires w.retired <= |w.ops|
  {
    FenceValue(w.ops[..w.retired])
  }

  predicate IsFree(fence: nat, completed: nat) {
    fence == 0 || completed >= fence
  }

  /** The first free slot among those `offset` or more places after `start`. */
  function FindSlot(fences: seq<nat>, completed: nat, start: nat, offset: nat): (slot: Option<nat>)
    requires |fences| == SLOT_COUNT && offset <= SLOT_COUNT
    ensures slot.Some? ==> slot.value < SLOT_COUNT && IsFree(fences[slot.value], completed)
    decreases SLOT_COUNT - offset
  {
    if offset == SLOT_COUNT then None
    else
      var index := (start + offset) % SLOT_COUNT;
      if IsFree(fences[index], completed) then Some(index) else FindSlot(fences, completed, start, offset + 1)
  }

  predicate WellFormed(w: World) {
    && w.retired <= |w.ops|
    && |w.fences| == SLOT_COUNT
    && (w.phase != Between ==> w.phase.slot < SLOT_COUNT)
  }

  function Step(w: World, e: Event): (w': World)
    requires WellFormed(w)
    ensures WellFormed(w')
  {
    match (e, w.phase)
    case (GpuRetires(n), _) => if w.retired <= n <= |w.ops| then w.(retired := n) else w
    case (Acquire, Between) =>
      (match FindSlot(w.fences, Completed(w), w.nextSlot, 0)
       case Some(slot) => w.(phase := Recording(slot), nextSlot := (slot + 1) % SLOT_COUNT)
       case None => w)
    case (Abandon, Recording(_)) => w.(phase := Between)
    case (Execute, Recording(slot)) =>
      w.(ops := w.ops + [Run(slot)], fences := w.fences[slot := w.nextFence], nextFence := w.nextFence + 1,
         phase := Executed(slot))
    case (SignalSucceeds, Executed(slot)) => w.(ops := w.ops + [Signal(w.fences[slot])], phase := Between)
    case (SignalFails, Executed(_)) => w.(phase := Between)
    case _ => w
  }

  function After(events: seq<Event>): (w: World)
    ensures WellFormed(w)
  {
    if events == [] then INITIAL else Step(After(events[..|events| - 1]), events[|events| - 1])
  }

  // ---------------------------------------------------------------------------------------
  // Safety over every run
  // ---------------------------------------------------------------------------------------

  /** The GPU has finished every list submitted from this slot. */
  ghost predicate IsIdle(w: World, slot: nat) {
    forall p | 0 <= p < |w.ops| && w.ops[p] == Run(slot) :: p < w.retired
  }

  /** Nothing submitted is unfinished. */
  ghost predicate NothingInFlight(w: World) {
    forall p | 0 <= p < |w.ops| && w.ops[p].Run? :: p < w.retired
  }

  ghost predicate SignalsIncrease(ops: seq<Op>, bound: nat) {
    && (forall q | 0 <= q < |ops| && ops[q].Signal? :: 0 < ops[q].value < bound)
    && (forall p, q | 0 <= p < q < |ops| && ops[p].Signal? && ops[q].Signal? :: ops[p].value < ops[q].value)
  }

  /** Every list was submitted by a known slot, after all signals below that slot's fence value. */
  ghost predicate FencesGuard(ops: seq<Op>, fences: seq<nat>) {
    && (forall p | 0 <= p < |ops| && ops[p].Run? :: ops[p].slot < |fences| && fences[ops[p].slot] > 0)
    && (forall p, q | 0 <= q < p < |ops| && ops[p].Run? && ops[q].Signal? && ops[p].slot < |fences| ::
          ops[q].value < fences[ops[p].slot])
  }

  ghost predicate FencesAreFresh(fences: seq<nat>, nextFence: nat) {
    && (forall i | 0 <= i < |fences| :: fences[i] < nextFence)
    && (forall i, j | 0 <= i < j < |fences| && fences[i] > 0 :: fences[i] != fences[j])
  }

  ghost predicate Inv(w: World) {
    && WellFormed(w)
    && SignalsIncrease(w.ops, w.nextFence)
    && FencesGuard(w.ops, w.fences)
    && FencesAreFresh(w.fences, w.nextFence)
    && (w.phase.Recording? ==> IsIdle(w, w.phase.slot))
    && (w.phase.Executed? ==>
          w.fences[w.phase.slot] == w.nextFence - 1 > 0 && SignalsIncrease(w.ops, w.nextFence - 1))
  }

  lemma {:induction false} FenceValueWasSignalled(ops: seq<Op>)
    ensures FenceValue(ops) > 0 ==> Signal(FenceValue(ops)) in ops
  {
    if ops != [] && ops[|ops| - 1].Run? {
      FenceValueWasSignalled(ops[..|ops| - 1]);
    }
  }

  /** The fence never passes a slot's value while a list from that slot is unfinished. */
  lemma FreeSlotIsIdle(w: World, slot: nat)
    requires WellFormed(w) && FencesGuard(w.ops, w.fences) && slot < SLOT_COUNT
    requires IsFree(w.fences[slot], Completed(w))
    ensures IsIdle(w, slot)
  {
    var done := w.ops[..w.retired];
    FenceValueWasSignalled(done);
    if w.fences[slot] > 0 {
      var q :| 0 <= q < |done| && done[q] == Signal(Completed(w));
      assert w.ops[q] == done[q];
    }
  }

  lemma SubmissionKeepsGuards(w: World, slot: nat)
    requires Inv(w) && w.phase == Recording(slot)
    ensures Inv(Step(w, Execute))
  {
    var w' := Step(w, Execute);
    assert forall p | 0 <= p < |w.ops| :: w'.ops[p] == w.ops[p];
  }

  lemma SignalKeepsGuards(w: World, slot: nat)
    requires Inv(w) && w.phase == Executed(slot)
    ensures Inv(Step(w, SignalSucceeds))
  {
    var w' := Step(w, SignalSucceeds);
    assert forall p | 0 <= p < |w.ops| :: w'.ops[p] == w.ops[p];
  }

  lemma StepKeepsInv(w: World, e: Event)
    requires Inv(w)
    ensures Inv(Step(w, e))
  {
    match (e, w.phase)
    case (Acquire, Between) =>
      var slot := FindSlot(w.fences, Completed(w), w.nextSlot, 0);
      if slot.Some? {
        FreeSlotIsIdle(w, slot.value);
      }
    case (Execute, Recording(slot)) => SubmissionKeepsGuards(w, slot);
    case (SignalSucceeds, Executed(slot)) => SignalKeepsGuards(w, slot);
    case _ =>
  }

  lemma {:induction false} RunKeepsInv(events: seq<Event>)
    ensures Inv(After(events))
  {
    if events != [] {
      RunKeepsInv(events[..|events| - 1]);
      StepKeepsInv(After(events[..|events| - 1]), events[|events| - 1]);
    }
  }

  /** In every interleaving of GPU progress with evaluations that may fail anywhere, the slot being
      recorded holds no unfinished list, from the moment it is acquired. */
  lemma RecordedSlotIsIdle(events: seq<Event>)
    ensures After(events).phase.Recording? ==> IsIdle(After(events), After(events).phase.slot)
  {
    RunKeepsInv(events);
  }

  predicate Probe(fences: seq<nat>, completed: nat, start: nat, k: nat)
    requires |fences| == SLOT_COUNT
  {
    IsFree(fences[(start + k) % SLOT_COUNT], completed)
  }

  /** The slot found is the first free one in cyclic order; without one, none of the places is free. */
  lemma {:induction false} FindSlotProbesOn(fences: seq<nat>, completed: nat, start: nat, offset: nat)
    requires |fences| == SLOT_COUNT && offset <= SLOT_COUNT
    ensures FindSlot(fences, completed, start, offset) == None
            <==> forall k | offset <= k < SLOT_COUNT :: !Probe(fences, completed, start, k)
    ensures FindSlot(fences, completed, start, offset).Some? ==>
              exists k | offset <= k < SLOT_COUNT ::
                && FindSlot(fences, completed, start, offset).value == (start + k) % SLOT_COUNT
                && Probe(fences, completed, start, k)
                && forall earlier | offset <= earlier < k :: !Probe(fences, completed, start, earlier)
    decreases SLOT_COUNT - offset
  {
    if offset < SLOT_COUNT {
      FindSlotProbesOn(fences, completed, start, offset + 1);
      assert Probe(fences, completed, start, offset) == IsFree(fences[(start + offset) % SLOT_COUNT], completed);
    }
  }

  lemma FindSlotTriesAll(fences: seq<nat>, completed: nat, start: nat)
    requires |fences| == SLOT_COUNT
    ensures FindSlot(fences, completed, start, 0) == None
            <==> forall i | 0 <= i < SLOT_COUNT :: !IsFree(fences[i], completed)
  {
    FindSlotProbesOn(fences, completed, start, 0);
    forall i | 0 <= i < SLOT_COUNT
      ensures exists k :: 0 <= k < SLOT_COUNT && Probe(fences, completed, start, k) == IsFree(fences[i], completed)
    {
      var k := (i - start) % SLOT_COUNT;
      assert (start + k) % SLOT_COUNT == i;
      assert Probe(fences, completed, start, k) == IsFree(fences[i], completed);
    }
  }

  ghost function Outstanding(fences: seq<nat>, completed: nat): set<nat> {
    set i | 0 <= i < |fences| && fences[i] > completed :: fences[i]
  }

  /** Acquisition fails exactly when four different fence values are outstanding. */
  lemma NoSlotMeansFourOutstanding(events: seq<Event>)
    ensures var w := After(events);
            FindSlot(w.fences, Completed(w), w.nextSlot, 0) == None
            <==> |Outstanding(w.fences, Completed(w))| == SLOT_COUNT
  {
    RunKeepsInv(events);
    hide After, Completed, FindSlot;
    var w := After(events);
    FindSlotTriesAll(w.fences, Completed(w), w.nextSlot);
    FourOutstanding(w.fences, Completed(w), w.nextFence);
  }

  lemma FourOutstanding(f: seq<nat>, completed: nat, nextFence: nat)
    requires |f| == SLOT_COUNT && FencesAreFresh(f, nextFence)
    ensures |Outstanding(f, completed)| == SLOT_COUNT <==> forall i | 0 <= i < SLOT_COUNT :: !IsFree(f[i], completed)
  {
    if forall i | 0 <= i < SLOT_COUNT :: f[i] > completed {
      assert Outstanding(f, completed) == {f[0], f[1], f[2], f[3]};
    } else {
      var i :| 0 <= i < SLOT_COUNT && f[i] <= completed;
      OthersAreThree(f, completed, i);
    }
  }

  lemma OthersAreThree(f: seq<nat>, completed: nat, i: nat)
    requires |f| == SLOT_COUNT && i < SLOT_COUNT && f[i] <= completed
    ensures |Outstanding(f, completed)| < SLOT_COUNT
  {
    var s := Outstanding(f, completed);
    var a, b, c := f[(i + 1) % 4], f[(i + 2) % 4], f[(i + 3) % 4];
    assert s <= {a, b, c};
    SubsetIsSmaller(s, {a, b, c});
  }

  lemma {:induction false} SubsetIsSmaller(s: set<nat>, t: set<nat>)
    requires s <= t
    ensures |s| <= |t|
  {
    if s != {} {
      var x :| x in s;
      SubsetIsSmaller(s - {x}, t - {x});
    }
  }

  /** A completed value only grows: it is what makes the fence test stable under GPU progress. */
  lemma CompletedNeverFalls(w: World, e: Event)
    requires Inv(w)
    ensures Completed(Step(w, e)) >= Completed(w)
  {
    StepKeepsInv(w, e);
    var w' := Step(w, e);
    StepExtends(w, e);
    PrefixIncreases(w'.ops, w'.retired, w'.nextFence);
    hide FenceValue, Step, FindSlot, Inv, SignalsIncrease;
    var after := w'.ops[..w'.retired];
    PrefixOfPrefix(w.ops, w'.ops, w.retired, w'.retired);
    LongerPrefixSignalsMore(after, w.retired, w'.nextFence);
  }

  lemma PrefixOfPrefix(ops: seq<Op>, longer: seq<Op>, n: nat, m: nat)
    requires ops <= longer && n <= |ops| && n <= m <= |longer|
    ensures longer[..m][..n] == ops[..n]
  {
  }

  lemma PrefixIncreases(ops: seq<Op>, n: nat, bound: nat)
    requires n <= |ops| && SignalsIncrease(ops, bound)
    ensures SignalsIncrease(ops[..n], bound)
  {
  }

  lemma StepExtends(w: World, e: Event)
    requires WellFormed(w)
    ensures w.ops <= Step(w, e).ops && w.retired <= Step(w, e).retired
  {
  }

  lemma {:induction false} LongerPrefixSignalsMore(ops: seq<Op>, n: nat, bound: nat)
    requires n <= |ops| && SignalsIncrease(ops, bound)
    ensures FenceValue(ops[..n]) <= FenceValue(ops)
  {
    if n == |ops| {
      assert ops[..n] == ops;
    } else {
      var front := ops[..|ops| - 1];
      LongerPrefixSignalsMore(front, n, bound);
      assert front[..n] == ops[..n];
      FenceValueWasSignalled(front);
    }
  }

  function {:induction false} LargestFence(fences: seq<nat>): (largest: nat)
    ensures forall i | 0 <= i < |fences| :: fences[i] <= largest
    ensures largest == 0 || largest in fences
  {
    if fences == [] then 0 else Max(LargestFence(fences[..|fences| - 1]), fences[|fences| - 1])
  }

  /** The test of `wait_for_idle`: the largest submitted fence value covers all slots. */
  lemma LargestFenceCoversAll(w: World)
    requires Inv(w) && IsFree(LargestFence(w.fences), Completed(w))
    ensures NothingInFlight(w)
  {
    forall p | 0 <= p < |w.ops| && w.ops[p].Run?
      ensures p < w.retired
    {
      FreeSlotIsIdle(w, w.ops[p].slot);
    }
  }

  lemma {:induction false} FenceCoversSignals(ops: seq<Op>, bound: nat, q: nat)
    requires SignalsIncrease(ops, bound) && q < |ops| && ops[q].Signal?
    ensures FenceValue(ops) >= ops[q].value
  {
    if q < |ops| - 1 && ops[|ops| - 1].Run? {
      FenceCoversSignals(ops[..|ops| - 1], bound, q);
    }
  }

  /** Once the GPU has finished everything, the test recognises it exactly when some signal reached the
      largest slot value: not after a last submission whose signal failed. */
  lemma IdleIsRecognised(events: seq<Event>)
    ensures var w, largest := After(events), LargestFence(After(events).fences);
            w.retired == |w.ops| ==>
              (IsFree(largest, Completed(w)) <==>
                 largest == 0 || exists q :: 0 <= q < |w.ops| && w.ops[q].Signal? && w.ops[q].value >= largest)
  {
    RunKeepsInv(events);
    var w, largest := After(events), LargestFence(After(events).fences);
    if w.retired == |w.ops| {
      assert w.ops[..w.retired] == w.ops;
      FenceValueWasSignalled(w.ops);
      forall q | 0 <= q < |w.ops| && w.ops[q].Signal?
        ensures Completed(w) >= w.ops[q].value
      {
        FenceCoversSignals(w.ops, w.nextFence, q);
      }
    }
  }

  lemma AfterOneMore(events: seq<Event>, e: Event)
    ensures After(events + [e]) == Step(After(events), e)
  {
    assert (events + [e])[..|events|] == events;
  }

  /** One submission, a failed signal, and all work done: nothing is in flight, and the test says no. */
  lemma FailedSignalHidesIdle()
    ensures var w := After([Acquire, Execute, SignalFails, GpuRetires(1)]);
            NothingInFlight(w) && !IsFree(LargestFence(w.fences), Completed(w))
  {
    hide After, FindSlot;
    AfterOneMore([], Acquire);
    AfterOneMore([Acquire], Execute);
    AfterOneMore([Acquire, Execute], SignalFails);
    AfterOneMore([Acquire, Execute, SignalFails], GpuRetires(1));
    assert [] + [Acquire] == [Acquire] && [Acquire] + [Execute] == [Acquire, Execute];
    assert [Acquire, Execute] + [SignalFails] == [Acquire, Execute, SignalFails];
    assert [Acquire, Execute, SignalFails] + [GpuRetires(1)] == [Acquire, Execute, SignalFails, GpuRetires(1)];
    StartsAtFirstSlot();
    var w := World([Run(0)], 1, [1, 0, 0, 0], 2, 1, Between);
    assert After([Acquire, Execute, SignalFails, GpuRetires(1)]) == w;
    assert w.ops[..1][..0] == [];
    assert 1 in w.fences && w.fences[0] == 1;
  }

  lemma StartsAtFirstSlot()
    ensures After([]) == INITIAL && FindSlot([0, 0, 0, 0], 0, 0, 0) == Some(0)
  {
  }

  // ---------------------------------------------------------------------------------------
  // The upscaler state
  // ---------------------------------------------------------------------------------------

  datatype Outcome = NoSlot | NotSubmitted | Submitted(slot: nat, synchronized: bool)

  /** What the foreign calls of one evaluation report: the allocator's reset, the recording from the list's
      reset to its close, the signal, and the shared completion. */
  datatype Foreign = Foreign(reset: bool, recorded: bool, signalled: bool, completed: bool)

  class State {
    const slots: array<nat>   // the fence value of each slot
    var nextSlot: nat
    var nextFence: nat
    var hasContext: bool

    /** The GPU queue and the auto-reset event, which the source reaches through foreign objects. */
    var ops: seq<Op>
    var retired: nat
    var armed: Option<nat>
    var eventSet: bool

    ghost var Phase: Phase
    ghost var History: seq<Event>

    ghost function Current(): World
      reads this, slots
    {
      World(ops, retired, slots[..], nextFence, nextSlot, Phase)
    }

    ghost predicate Valid()
      reads this, slots
    {
      && slots.Length == SLOT_COUNT
      && retired <= |ops|
      && Current() == After(History)
    }

    /** The event is neither set nor waiting for a fence value: a wait cannot see a stale wake-up. */
    ghost predicate Quiet()
      reads this`armed, this`eventSet
    {
      armed == None && !eventSet
    }

    constructor ()
      ensures Valid() && Quiet() && Current() == INITIAL && hasContext && fresh(slots)
    {
      slots := new nat[SLOT_COUNT](_ => 0);
      nextSlot, nextFence, hasContext := 0, 1, true;
      ops, retired, armed, eventSet := [], 0, None, false;
      Phase, History := Between, [];
    }

    function CompletedValue(): nat
      reads this
      requires retired <= |ops|
    {
      FenceValue(ops[..retired])
    }

    /** Appends one event of the protocol to the history. */
    ghost method Note(e: Event)
      requires WellFormed(After(History)) && slots.Length == SLOT_COUNT
      requires Step(After(History), e) == Current()
      modifies this`History
      ensures Valid() && History == old(History) + [e]
    {
      var events := History + [e];
      assert events[..|events| - 1] == History;
      History := events;
    }

    lemma RecordingIsSafe()
      requires Valid() && Phase.Recording?
      ensures Phase.slot < SLOT_COUNT && IsIdle(Current(), Phase.slot)
    {
      RecordedSlotIsIdle(History);
    }

    /** The GPU has finished the first `reached` operations, and sets the event if it reaches its value. */
    method GpuProgress(reached: nat)
      requires Valid()
      modifies this`retired, this`armed, this`eventSet, this`History
      ensures Valid() && Current() == Step(old(Current()), GpuRetires(reached)) && old(retired) <= retired
      ensures old(Quiet()) ==> Quiet()
      ensures old(armed).Some? ==>
                if CompletedValue() >= old(armed).value then armed == None && eventSet
                else armed == old(armed) && eventSet == old(eventSet)
    {
      if retired <= reached <= |ops| {
        retired := reached;
      }
      if armed.Some? && CompletedValue() >= armed.value {
        armed := None;
        eventSet := true;
      }
      Note(GpuRetires(reached));
    }

    method AcquireSlot() returns (slot: Option<nat>)
      requires Valid() && Phase == Between
      modifies this`nextSlot, this`Phase, this`History
      ensures Valid() && Current() == Step(old(Current()), Acquire)
      ensures slot == FindSlot(old(slots[..]), old(CompletedValue()), old(nextSlot), 0)
      ensures slot.Some? ==>
                && Phase == Recording(slot.value) && IsIdle(Current(), slot.value)
                && nextSlot == (slot.value + 1) % SLOT_COUNT
      ensures slot == None ==> Phase == Between && nextSlot == old(nextSlot)
    {
      hide After, FenceValue, IsIdle;
      var completed := CompletedValue();
      slot := None;
      for offset := 0 to SLOT_COUNT
        invariant Valid() && Phase == Between && nextSlot == old(nextSlot)
        invariant FindSlot(slots[..], completed, nextSlot, 0) == FindSlot(slots[..], completed, nextSlot, offset)
        invariant Current() == old(Current()) && slot == None && History == old(History)
      {
        var index := (nextSlot + offset) % SLOT_COUNT;
        if slots[index] == 0 || completed >= slots[index] {
          nextSlot := (index + 1) % SLOT_COUNT;
          slot := Some(index);
          Phase := Recording(index);
          break;
        }
      }
      Note(Acquire);
      RecordedSlotIsIdle(History);
    }

    /** `allocator->Reset()`: D3D12 demands that the GPU has finished the allocator's lists. */
    method ResetAllocator(slot: nat, succeeds: bool) returns (ok: bool)
      requires Valid() && IsIdle(Current(), slot)
      ensures ok == succeeds
    {
      ok := succeeds;
    }

    method Submit(slot: nat)
      requires Valid() && Phase == Recording(slot)
      modifies this`ops, this`nextFence, this`Phase, this`History, slots
      ensures Valid() && Phase == Executed(slot)
      ensures ops == old(ops) + [Run(slot)] && nextFence == old(nextFence) + 1
      ensures slot < SLOT_COUNT && slots[..] == old(slots[..])[slot := old(nextFence)]
    {
      ops := ops + [Run(slot)];
      slots[slot] := nextFence;
      nextFence := nextFence + 1;
      Phase := Executed(slot);
      Note(Execute);
    }

    method SignalFence(slot: nat, succeeds: bool)
      requires Valid() && Phase == Executed(slot)
      modifies this`ops, this`Phase, this`History
      ensures Valid() && Phase == Between && slot < SLOT_COUNT
      ensures ops == if succeeds then old(ops) + [Signal(slots[slot])] else old(ops)
    {
      if succeeds {
        ops := ops + [Signal(slots[slot])];
      }
      Phase := Between;
      Note(if succeeds then SignalSucceeds else SignalFails);
    }

    method AbandonRecording()
      requires Valid() && Phase.Recording?
      modifies this`Phase, this`History
      ensures Valid() && Phase == Between
    {
      Phase := Between;
      Note(Abandon);
    }

    /** The GPU makes some progress, as it may at any time. */
    method GpuRuns()
      requires Valid()
      modifies this`retired, this`armed, this`eventSet, this`History
      ensures Valid() && old(retired) <= retired && (old(Quiet()) ==> Quiet())
    {
      var reached: nat := *;
      GpuProgress(reached);
    }

    lemma ProgressKeepsFree(reached: nat)
      requires Valid()
      ensures var w := Step(Current(), GpuRetires(reached));
              FindSlot(w.fences, Completed(w), w.nextSlot, 0) == None ==>
                forall i | 0 <= i < SLOT_COUNT :: !IsFree(slots[i], CompletedValue())
    {
      RunKeepsInv(History);
      var w, w' := Current(), Step(Current(), GpuRetires(reached));
      CompletedNeverFalls(w, GpuRetires(reached));
      FindSlotTriesAll(w'.fences, Completed(w'), w'.nextSlot);
    }

    /** `evaluate` from the slot it acquired on: the recording is submitted exactly when the reset and the
        recording succeed, and signalled when the signal does. */
    method EvaluateIn(slot: nat, foreign: Foreign) returns (outcome: Outcome)
      requires Valid() && Phase == Recording(slot)
      modifies this`ops, this`retired, this`armed, this`eventSet, this`nextFence, this`Phase, this`History, slots
      ensures Valid() && Phase == Between && slot < SLOT_COUNT && (old(Quiet()) ==> Quiet())
      ensures if foreign.reset && foreign.recorded then
                && outcome == Submitted(slot, foreign.signalled && foreign.completed)
                && slots[..] == old(slots[..])[slot := old(nextFence)] && nextFence == old(nextFence) + 1
                && ops == old(ops) + [Run(slot)] + (if foreign.signalled then [Signal(old(nextFence))] else [])
              else
                && outcome == NotSubmitted
                && ops == old(ops) && slots[..] == old(slots[..]) && nextFence == old(nextFence)
    {
      hide *;
      GpuRuns();
      RecordingIsSafe();
      var reset := ResetAllocator(slot, foreign.reset);
      GpuRuns();
      if !reset || !foreign.recorded {
        AbandonRecording();
        return NotSubmitted;
      }
      Submit(slot);
      GpuRuns();
      SignalFence(slot, foreign.signalled);
      GpuRuns();
      return Submitted(slot, foreign.signalled && foreign.completed);
    }

    /** The slot and fence path of `evaluate`, with the GPU running at every point of it; `reached` tells how
        far it is when a slot is sought. Which outcome occurs, and what it leaves behind, is determined. */
    method Evaluate(reached: nat, foreign: Foreign) returns (outcome: Outcome)
      requires Valid() && Phase == Between
      modifies this, slots
      ensures Valid() && Phase == Between && hasContext == old(hasContext)
      ensures old(Quiet()) ==> Quiet()
      ensures var w := Step(old(Current()), GpuRetires(reached));
              match FindSlot(w.fences, Completed(w), w.nextSlot, 0)
              case None =>
                && outcome == NoSlot
                && ops == old(ops) && slots[..] == old(slots[..]) && nextFence == old(nextFence)
                && nextSlot == old(nextSlot)
              case Some(slot) =>
                && nextSlot == (slot + 1) % SLOT_COUNT
                && if foreign.reset && foreign.recorded then
                     && outcome == Submitted(slot, foreign.signalled && foreign.completed)
                     && slots[..] == old(slots[..])[slot := old(nextFence)] && nextFence == old(nextFence) + 1
                     && ops == old(ops) + [Run(slot)] + (if foreign.signalled then [Signal(old(nextFence))] else [])
                   else
                     && outcome == NotSubmitted
                     && ops == old(ops) && slots[..] == old(slots[..]) && nextFence == old(nextFence)
      ensures (exists i :: 0 <= i < SLOT_COUNT && IsFree(old(slots[i]), old(CompletedValue()))) ==> outcome != NoSlot
    {
      ProgressKeepsFree(reached);
      ProgressOnlyRetires(reached);
      hide *;
      GpuProgress(reached);
      var acquired := AcquireSlot();
      if acquired == None {
        return NoSlot;
      }
      outcome := EvaluateIn(acquired.value, foreign);
    }

    lemma ProgressOnlyRetires(reached: nat)
      requires Valid()
      ensures var w := Step(Current(), GpuRetires(reached));
              w.ops == ops && w.fences == slots[..] && w.nextFence == nextFence && w.nextSlot == nextSlot
    {
    }

    method LargestSubmitted() returns (finalValue: nat)
      requires slots.Length == SLOT_COUNT
      ensures finalValue == LargestFence(slots[..])
    {
      finalValue := 0;
      for i := 0 to SLOT_COUNT
        invariant finalValue == LargestFence(slots[..i])
      {
        assert slots[..i + 1][..i] == slots[..i];
        if slots[i] > finalValue {
          finalValue := slots[i];
        }
      }
      assert slots[..SLOT_COUNT] == slots[..];
    }

    /** The fence is past every slot value, at once or after the progress made during a wait. */
    ghost predicate GoesIdle(eventArmed: bool, reached: nat)
      reads this, slots
      requires Valid()
    {
      || IsFree(LargestFence(slots[..]), CompletedValue())
      || (eventArmed && IsFree(LargestFence(slots[..]), Completed(Step(Current(), GpuRetires(reached)))))
    }

    /** `eventArmed` tells whether the event exists and could be armed, `reached` how far the GPU gets before
        the wait times out. */
    method WaitForIdle(eventArmed: bool, reached: nat) returns (idle: bool)
      requires Valid() && Phase == Between && Quiet()
      modifies this`retired, this`armed, this`eventSet, this`History
      ensures Valid() && ops == old(ops) && Phase == Between && slots[..] == old(slots[..])
      ensures idle <==> old(GoesIdle(eventArmed, reached))
      ensures idle ==> NothingInFlight(Current()) && IsFree(LargestFence(slots[..]), CompletedValue()) && Quiet()
      ensures Current() == old(Current()) || (eventArmed && Current() == Step(old(Current()), GpuRetires(reached)))
    {
      hide After, FenceValue, LargestFence, NothingInFlight, Inv, WellFormed;
      RunKeepsInv(History);
      var finalValue := LargestSubmitted();
      if finalValue == 0 || CompletedValue() >= finalValue {
        LargestFenceCoversAll(Current());
        return true;
      }
      if !eventArmed {
        return false;
      }
      armed := Some(finalValue);
      GpuProgress(reached);
      if !eventSet {
        return false;
      }
      eventSet := false;
      RunKeepsInv(History);
      LargestFenceCoversAll(Current());
      return true;
    }

    /** `shutdown` followed by the destructor. A state that does not go idle is released instead,
        so the context is destroyed exactly when the first wait succeeds. */
    method Shutdown(eventArmed: bool, reached: nat) returns (released: bool)
      requires Valid() && Phase == Between && Quiet() && hasContext
      modifies this`retired, this`armed, this`eventSet, this`History, this`hasContext
      ensures hasContext == released
      ensures released <==> !old(GoesIdle(eventArmed, reached))
      ensures !hasContext ==> NothingInFlight(Current())
    {
      var idle := WaitForIdle(eventArmed, reached);
      if !idle {
        return true;
      }
      var safeToDestroy := WaitForIdle(eventArmed, reached);
      if safeToDestroy {
        hasContext := false;
      }
      return false;
    }
  }
}
