/**
 The double buffer that serves the IDs of one business tag.

 `BufferState` is the value of a buffer between two lock-protected methods; each method is
 specified by a function on it. The class `SegmentBuffer` at the end is the mutable object.
 */
module SegmentDomain {
  import opened Sequences

  datatype Error = BizTagNotExists | SegmentsNotReady | LoadFailed

  /** A range taken from the repository: the IDs [maxId - step, maxId). */
  datatype SegmentAllocation = SegmentAllocation(bizTag: string, maxId: int, step: int) {
    function StartId(): int { maxId - step }

    ghost predicate Holds(id: int) { StartId() <= id < maxId }
  }

  datatype SegmentState = SegmentState(next: int, max: int, step: int) {
    predicate Exhausted() { next >= max }

    ghost predicate Holds(id: int) { next <= id < max }

    /** The IDs still to be issued, in order. */
    function Rest(): seq<int> { Interval(next, max) }

    /** What the snapshot reports as remaining. */
    function Idle(): nat { if next < max then max - next else 0 }
  }

  const EMPTY_SEGMENT := SegmentState(0, 0, 0)

  datatype BufferValue = BufferValue(
    bizTag: string,
    segments: seq<SegmentState>,
    currentPos: int,
    nextReady: bool,
    initialized: bool,
    loadingNext: bool,
    disabled: bool,
    minStep: int)

  predicate TwoSlots(b: BufferValue) { |b.segments| == 2 && 0 <= b.currentPos < 2 }

  type BufferState = b: BufferValue | TwoSlots(b)
    witness BufferValue("", [EMPTY_SEGMENT, EMPTY_SEGMENT], 0, false, false, false, false, 0)

  function NewBuffer(bizTag: string): BufferState {
    BufferValue(bizTag, [EMPTY_SEGMENT, EMPTY_SEGMENT], 0, false, false, false, false, 0)
  }

  function Current(b: BufferState): SegmentState { b.segments[b.currentPos] }

  function Next(b: BufferState): SegmentState { b.segments[(b.currentPos + 1) % 2] }

  function Fresh(a: SegmentAllocation): SegmentState { SegmentState(a.StartId(), a.maxId, a.step) }

  // ---------- the lock-protected steps ----------

  function InitializeCurrent(b: BufferState, a: SegmentAllocation): BufferState {
    if b.disabled then b
    else b.(segments := b.segments[b.currentPos := Fresh(a)], initialized := true, minStep := a.step)
  }

  function StoreNext(b: BufferState, a: SegmentAllocation): BufferState {
    if b.disabled then b
    else b.(segments := b.segments[(b.currentPos + 1) % 2 := Fresh(a)],
            minStep := if b.minStep == 0 then a.step else b.minStep,
            nextReady := true,
            loadingNext := false)
  }

  predicate MayStartLoading(b: BufferState) { !b.disabled && !b.nextReady && !b.loadingNext }

  function StartLoadingNext(b: BufferState): BufferState {
    if MayStartLoading(b) then b.(loadingNext := true) else b
  }

  function FinishLoadingNext(b: BufferState): BufferState { b.(loadingNext := false) }

  function Deactivate(b: BufferState): BufferState {
    b.(disabled := true, initialized := false, nextReady := false, loadingNext := false,
       segments := [EMPTY_SEGMENT, EMPTY_SEGMENT])
  }

  datatype NextIdOutcome =
    | Drawn(id: int, switchedSegment: bool, shouldLoadNext: bool)
    | NotReady
    | Missing

  /** Preload once less than nine tenths of the current range is left. */
  predicate ShouldLoadNext(b: BufferState) {
    !b.nextReady && !b.loadingNext && 10 * (Current(b).max - Current(b).next) < 9 * Current(b).step
  }

  /** Takes one ID off the current slot, which must hold one. */
  function Take(b: BufferState): BufferState {
    b.(segments := b.segments[b.currentPos := Current(b).(next := Current(b).next + 1)])
  }

  function Switch(b: BufferState): BufferState {
    b.(currentPos := (b.currentPos + 1) % 2, nextReady := false)
  }

  function NextId(b: BufferState): (BufferState, NextIdOutcome) {
    if b.disabled then (b, Missing)
    else if !b.initialized then (b, NotReady)
    else if !Current(b).Exhausted() then
      (Take(b), Drawn(Current(b).next, false, ShouldLoadNext(Take(b))))
    else if !b.nextReady then (b, NotReady)
    else if Current(Switch(b)).Exhausted() then (Switch(b), NotReady)
    else (Take(Switch(b)), Drawn(Current(Switch(b)).next, true, ShouldLoadNext(Take(Switch(b)))))
  }

  // ---------- what every step keeps ----------

  /** A slot that is not in use holds nothing; without this the snapshot would over-report. */
  ghost predicate WellFormed(b: BufferState) {
    && (!b.nextReady ==> Next(b).Exhausted())
    && (!b.initialized ==> Current(b).Exhausted())
    && (b.disabled ==> !b.initialized && !b.nextReady)
  }

  datatype BufferOp =
    | OpInitialize(a: SegmentAllocation)
    | OpStore(a: SegmentAllocation)
    | OpStart
    | OpFinish
    | OpNext
    | OpDeactivate

  function Apply(b: BufferState, op: BufferOp): BufferState {
    match op
    case OpInitialize(a) => InitializeCurrent(b, a)
    case OpStore(a) => StoreNext(b, a)
    case OpStart => StartLoadingNext(b)
    case OpFinish => FinishLoadingNext(b)
    case OpNext => NextId(b).0
    case OpDeactivate => Deactivate(b)
  }

  function ApplyAll(b: BufferState, ops: seq<BufferOp>): BufferState {
    if ops == [] then b else Apply(ApplyAll(b, ops[..|ops| - 1]), ops[|ops| - 1])
  }

  // ---------- the snapshot tells the remaining capacity ----------

  datatype Snapshot = Snapshot(
    initialized: bool, currentPos: int, nextReady: bool, loadingNext: bool, minStep: int,
    currentSegment: SegmentState, nextSegment: SegmentState,
    currentIdle: nat, nextIdle: nat)

  function SnapshotOf(b: BufferState): Snapshot {
    Snapshot(b.initialized, b.currentPos, b.nextReady, b.loadingNext, b.minStep,
             Current(b), Next(b), Current(b).Idle(), Next(b).Idle())
  }

  /** `n` calls of NextID without any load in between: the buffer left and the IDs returned. */
  function Drain(b: BufferState, n: nat): (BufferState, seq<int>) {
    if n == 0 then (b, [])
    else
      var (b1, ids) := Drain(b, n - 1);
      var (b2, out) := NextId(b1);
      (b2, if out.Drawn? then ids + [out.id] else ids)
  }

  /** All IDs the buffer can still issue, in the order in which it issues them. */
  function Cached(b: BufferState): seq<int> {
    if !b.initialized then [] else Current(b).Rest() + if b.nextReady then Next(b).Rest() else []
  }

  /** One call returns the first cached ID and leaves the others, and fails only when none is cached. */
  lemma NextIdTakesFirst(b: BufferState)
    requires WellFormed(b)
    ensures WellFormed(NextId(b).0)
    ensures NextId(b).0.initialized == b.initialized && NextId(b).0.disabled == b.disabled
    ensures NextId(b).1.Drawn? <==> Cached(b) != []
    ensures NextId(b).1.Drawn? ==> Cached(b) == [NextId(b).1.id] + Cached(NextId(b).0)
    ensures NextId(b).1.Drawn? ==> (NextId(b).1.switchedSegment <==> Current(b).Exhausted())
    ensures !NextId(b).1.Drawn? ==> Cached(NextId(b).0) == []
  {
    if b.initialized {
      if !Current(b).Exhausted() {
        TakeIsHead(b);
      } else if b.nextReady {
        SwitchFacts(b);
        assert Cached(b) == Next(b).Rest();
        if !Next(b).Exhausted() {
          TakeIsHead(Switch(b));
        }
      }
    }
  }

  lemma SwitchFacts(b: BufferState)
    ensures Current(Switch(b)) == Next(b) && Next(Switch(b)) == Current(b)
  {
    assert b.currentPos == 0 || b.currentPos == 1;
  }

  lemma TakeIsHead(b: BufferState)
    requires !Current(b).Exhausted()
    ensures Next(Take(b)) == Next(b)
    ensures Current(b).Rest() == [Current(b).next] + Current(Take(b)).Rest()
  {
    IntervalHead(Current(b).next, Current(b).max);
  }

  lemma DrainStep(b: BufferState, ids: seq<int>, whole: seq<int>)
    requires WellFormed(b) && b.initialized && ids + Cached(b) == whole
    ensures var (b', out) := NextId(b);
            && WellFormed(b') && b'.initialized
            && (if out.Drawn? then ids + [out.id] + Cached(b') == whole && |Cached(b')| == |Cached(b)| - 1
                else Cached(b') == [] && Cached(b) == [])
  {
    NextIdTakesFirst(b);
    var out := NextId(b).1;
    if out.Drawn? {
      assert ids + ([out.id] + Cached(NextId(b).0)) == ids + [out.id] + Cached(NextId(b).0);
    }
  }

  /** Draining moves IDs from the front of the cached list to the caller, one per call while any is left. */
  lemma {:induction false} DrainConserves(b: BufferState, n: nat)
    requires WellFormed(b) && b.initialized
    ensures WellFormed(Drain(b, n).0) && Drain(b, n).0.initialized
    ensures Drain(b, n).1 + Cached(Drain(b, n).0) == Cached(b)
    ensures |Drain(b, n).1| == if n < |Cached(b)| then n else |Cached(b)|
  {
    hide NextId, WellFormed;
    if n > 0 {
      DrainConserves(b, n - 1);
      DrainStep(Drain(b, n - 1).0, Drain(b, n - 1).1, Cached(b));
    }
  }

  /** A draw leaves the slots as they are but for the ID taken, unless it has to switch. */
  lemma NextIdSlots(b: BufferState)
    requires WellFormed(b) && b.initialized
    ensures var b' := NextId(b).0;
            && (!Current(b).Exhausted() ==>
                  && Current(b') == Current(b).(next := Current(b).next + 1) && Next(b') == Next(b)
                  && b'.nextReady == b.nextReady && b'.currentPos == b.currentPos)
            && (Current(b).Exhausted() && !Next(b).Exhausted() ==>
                  && Current(b') == Next(b).(next := Next(b).next + 1) && !b'.nextReady
                  && b'.currentPos != b.currentPos)
  {
    SwitchFacts(b);
    if !Current(b).Exhausted() {
      assert Next(Take(b)) == Next(b);
    }
  }

  /** The first idle(current) draws come from the current slot, the next ones from the other, which becomes current. */
  lemma {:induction false} DrainSlots(b: BufferState, n: nat)
    requires WellFormed(b) && b.initialized && n <= Current(b).Idle() + Next(b).Idle()
    ensures var b' := Drain(b, n).0;
            if n <= Current(b).Idle() then
              && Current(b') == Current(b).(next := Current(b).next + n) && Next(b') == Next(b)
              && b'.nextReady == b.nextReady && b'.currentPos == b.currentPos
            else
              && !b'.nextReady && b'.currentPos != b.currentPos
              && Current(b') == Next(b).(next := Next(b).next + (n - Current(b).Idle()))
  {
    hide NextId, WellFormed, Cached;
    if n > 0 {
      DrainSlots(b, n - 1);
      DrainConserves(b, n - 1);
      NextIdSlots(Drain(b, n - 1).0);
    }
  }

  /**
   From a reachable buffer exactly Idle(current) + Idle(next) calls succeed, as reported by the
   snapshot; they return the current remainder and then the ready next range; later calls fail.
   */
  lemma SnapshotIsExactCapacity(b: BufferState, n: nat)
    requires WellFormed(b) && b.initialized
    ensures var s := SnapshotOf(b);
            && |Cached(b)| == s.currentIdle + s.nextIdle
            && Drain(b, n).1 <= Cached(b)
            && |Drain(b, n).1| == (if n < |Cached(b)| then n else |Cached(b)|)
            && (NextId(Drain(b, n).0).1.Drawn? <==> n < s.currentIdle + s.nextIdle)
            && (NextId(Drain(b, n).0).1.Drawn? ==>
                  (NextId(Drain(b, n).0).1.switchedSegment <==> n == s.currentIdle))
  {
    DrainConserves(b, n);
    NextIdTakesFirst(Drain(b, n).0);
    if n < Current(b).Idle() + Next(b).Idle() {
      DrainSlots(b, n);
    }
    hide NextId;
  }

  /** Every buffer some sequence of method calls can produce is well formed. */
  lemma {:induction false} ReachableWellFormed(bizTag: string, ops: seq<BufferOp>)
    ensures WellFormed(ApplyAll(NewBuffer(bizTag), ops))
  {
    assert WellFormed(NewBuffer(bizTag));
    if ops != [] {
      hide Apply, WellFormed;
      var front := ops[..|ops| - 1];
      ReachableWellFormed(bizTag, front);
      ApplyKeepsWellFormed(ApplyAll(NewBuffer(bizTag), front), ops[|ops| - 1]);
    }
  }

  lemma ApplyKeepsWellFormed(b: BufferState, op: BufferOp)
    requires WellFormed(b)
    ensures WellFormed(Apply(b, op))
  {
    match op
    case OpInitialize(a) => assert !b.disabled ==> Next(Apply(b, op)) == Next(b);
    case OpStore(a) => assert !b.disabled ==> Current(Apply(b, op)) == Current(b);
    case OpStart =>
    case OpFinish =>
    case OpNext => NextIdTakesFirst(b);
    case OpDeactivate =>
  }

  /** A deactivated buffer holds nothing, and no later call of any kind makes it issue an ID again. */
  lemma {:induction false} DeactivationIsFinal(b: BufferState, ops: seq<BufferOp>)
    ensures var b' := ApplyAll(Deactivate(b), ops);
            && b'.disabled && !b'.initialized && !b'.nextReady && !b'.loadingNext
            && Cached(b') == [] && NextId(b') == (b', Missing) && Current(b').Idle() + Next(b').Idle() == 0
  {
    if ops != [] {
      DeactivationIsFinal(b, ops[..|ops| - 1]);
    }
  }

  // ---------- one preload at a time ----------

  /**
   Once a load of the next range has been started, none is started and no draw asks for one until that load
   has been stored or reported as failed, whatever else happens to the buffer.
   */
  lemma {:induction false} OneLoadAtATime(b: BufferState, ops: seq<BufferOp>)
    requires MayStartLoading(b) && forall i :: 0 <= i < |ops| ==> !ops[i].OpStore? && !ops[i].OpFinish?
    ensures var b' := ApplyAll(StartLoadingNext(b), ops);
            && !MayStartLoading(b') && (b'.loadingNext || b'.disabled)
            && (NextId(b').1.Drawn? ==> !NextId(b').1.shouldLoadNext)
  {
    if ops != [] {
      var front := ops[..|ops| - 1];
      assert forall i :: 0 <= i < |front| ==> front[i] == ops[i];
      OneLoadAtATime(b, front);
      var b1 := ApplyAll(StartLoadingNext(b), front);
      if !ops[|ops| - 1].OpNext? {
        hide NextId;
      }
    }
    LoadingAsksForNone(ApplyAll(StartLoadingNext(b), ops));
  }

  lemma LoadingAsksForNone(b: BufferState)
    requires b.loadingNext || b.disabled
    ensures NextId(b).1.Drawn? ==> !NextId(b).1.shouldLoadNext
    ensures NextId(b).0.loadingNext == b.loadingNext && NextId(b).0.disabled == b.disabled
  {
  }

  /** When the load is over, the next one may start as soon as no range is ready. */
  lemma NextLoadMayStart(b: BufferState, a: SegmentAllocation)
    ensures MayStartLoading(FinishLoadingNext(b)) <==> !b.disabled && !b.nextReady
    ensures MayStartLoading(Switch(StoreNext(b, a))) <==> !b.disabled
  {
  }

  lemma StepKeepsMinStep(b: BufferState, op: BufferOp)
    requires b.minStep != 0 && !op.OpInitialize?
    ensures Apply(b, op).minStep == b.minStep
  {
    if op.OpNext? {
      assert Apply(b, op) == NextId(b).0;
    }
  }

  /** The smallest step reported is that of the first range a buffer gets, until it is initialized again. */
  lemma {:induction false} MinStepStays(b: BufferState, a: SegmentAllocation, initial: bool, ops: seq<BufferOp>)
    requires !b.disabled && a.step != 0 && (initial || b.minStep == 0)
    requires forall i :: 0 <= i < |ops| ==> !ops[i].OpInitialize?
    ensures ApplyAll(if initial then InitializeCurrent(b, a) else StoreNext(b, a), ops).minStep == a.step
  {
    hide Apply;
    if ops != [] {
      var front := ops[..|ops| - 1];
      assert forall i :: 0 <= i < |front| ==> front[i] == ops[i];
      MinStepStays(b, a, initial, front);
      var first := if initial then InitializeCurrent(b, a) else StoreNext(b, a);
      StepKeepsMinStep(ApplyAll(first, front), ops[|ops| - 1]);
    }
  }

  // ---------- the mutable object ----------

  class SegmentBuffer {
    const bizTag: string
    // The source's [2]SegmentState is a value held in the struct, hence a sequence.
    var segments: seq<SegmentState>
    var currentPos: int
    var nextReady: bool
    var initialized: bool
    var loadingNext: bool
    var disabled: bool
    var minStep: int

    ghost predicate Valid()
      reads this
    {
      |segments| == 2 && 0 <= currentPos < 2
    }

    function State(): BufferState
      requires Valid()
      reads this
    {
      BufferValue(bizTag, segments, currentPos, nextReady, initialized, loadingNext, disabled, minStep)
    }

    constructor (tag: string)
      ensures Valid() && State() == NewBuffer(tag)
    {
      bizTag := tag;
      segments := [EMPTY_SEGMENT, EMPTY_SEGMENT];
      currentPos := 0;
      nextReady, initialized, loadingNext, disabled := false, false, false, false;
      minStep := 0;
    }

    method Initialize(allocation: SegmentAllocation)
      requires Valid()
      modifies this
      ensures Valid() && State() == InitializeCurrent(old(State()), allocation)
    {
      if disabled {
        return;
      }
      segments := segments[currentPos := SegmentState(allocation.StartId(), allocation.maxId, allocation.step)];
      initialized := true;
      minStep := allocation.step;
    }

    method Store(allocation: SegmentAllocation)
      requires Valid()
      modifies this
      ensures Valid() && State() == StoreNext(old(State()), allocation)
    {
      if disabled {
        return;
      }
      var nextPos := (currentPos + 1) % 2;
      segments := segments[nextPos := SegmentState(allocation.StartId(), allocation.maxId, allocation.step)];
      if minStep == 0 {
        minStep := allocation.step;
      }
      nextReady := true;
      loadingNext := false;
    }

    method StartLoading() returns (started: bool)
      requires Valid()
      modifies this
      ensures Valid() && State() == StartLoadingNext(old(State()))
      ensures started == MayStartLoading(old(State()))
    {
      if disabled || nextReady || loadingNext {
        return false;
      }
      loadingNext := true;
      return true;
    }

    method FinishLoading()
      requires Valid()
      modifies this
      ensures Valid() && State() == FinishLoadingNext(old(State()))
    {
      loadingNext := false;
    }

    method Draw() returns (out: NextIdOutcome)
      requires Valid()
      modifies this
      ensures Valid() && (State(), out) == NextId(old(State()))
    {
      if disabled {
        return Missing;
      }
      if !initialized {
        return NotReady;
      }
      var switched := false;
      if segments[currentPos].next >= segments[currentPos].max {
        if !nextReady {
          return NotReady;
        }
        currentPos := (currentPos + 1) % 2;
        nextReady := false;
        if segments[currentPos].next >= segments[currentPos].max {
          return NotReady;
        }
        switched := true;
      }
      var current := segments[currentPos];
      segments := segments[currentPos := current.(next := current.next + 1)];
      var idle := current.max - (current.next + 1);
      out := Drawn(current.next, switched, !nextReady && !loadingNext && 10 * idle < 9 * current.step);
    }

    method Disable()
      requires Valid()
      modifies this
      ensures Valid() && State() == Deactivate(old(State()))
    {
      disabled := true;
      initialized := false;
      nextReady := false;
      loadingNext := false;
      segments := [EMPTY_SEGMENT, EMPTY_SEGMENT];
    }

    /** With a well-formed buffer the reported idle counts add up to the IDs that can still be drawn. */
    method TakeSnapshot() returns (s: Snapshot)
      requires Valid()
      ensures s == SnapshotOf(State())
      ensures s.initialized == initialized && s.currentPos == currentPos && s.minStep == minStep
      ensures s.nextReady == nextReady && s.loadingNext == loadingNext
      ensures s.currentSegment == segments[currentPos] && s.nextSegment == segments[(currentPos + 1) % 2]
      ensures WellFormed(State()) && initialized ==> s.currentIdle + s.nextIdle == |Cached(State())|
    {
      var current, next := segments[currentPos], segments[(currentPos + 1) % 2];
      var currentIdle := if current.next < current.max then current.max - current.next else 0;
      var nextIdle := if next.next < next.max then next.max - next.next else 0;
      s := Snapshot(initialized, currentPos, nextReady, loadingNext, minStep,
                    current, next, currentIdle, nextIdle);
    }
  }
}
