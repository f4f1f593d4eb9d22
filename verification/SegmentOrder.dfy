/**
 In which order one buffer issues its IDs. They rise as long as every range that is stored fits behind
 what is there, and the buffer can be made to go backwards as soon as one does not.
 */
module SegmentOrder {
  import opened Sequences
  import opened SegmentDomain
  import opened SegmentRepository
  import opened SegmentProtocol

  /** The IDs that draws on buffer `b` return in a run. */
  function IssuedBy(s0: State, evs: seq<Event>, b: nat): seq<int> {
    if evs == [] then []
    else
      var front, ev := evs[..|evs| - 1], evs[|evs| - 1];
      var s := Run(s0, front);
      IssuedBy(s0, front, b) + Adds(s, ev, b)
  }

  /** What an event adds to the IDs issued by `b`. */
  function Adds(s: State, ev: Event, b: nat): seq<int> {
    if ev == Draw(b) && b in s.buffers && NextId(s.buffers[b]).1.Drawn? then [NextId(s.buffers[b]).1.id] else []
  }

  predicate EndsBelow(issued: seq<int>, id: int) { issued == [] || issued[|issued| - 1] < id }

  /** A range for the next slot starts above all IDs issued and those left in the current slot. */
  predicate FitsNext(issued: seq<int>, was: BufferState, a: SegmentAllocation) {
    was.disabled || a.step <= 0 ||
    (EndsBelow(issued, a.StartId()) && (Current(was).Exhausted() || Current(was).max <= a.StartId()))
  }

  /** A range for the current slot starts above all IDs issued and ends below those of a ready next slot. */
  predicate FitsCurrent(issued: seq<int>, was: BufferState, a: SegmentAllocation) {
    was.disabled || a.step <= 0 ||
    (EndsBelow(issued, a.StartId()) && (!was.nextReady || Next(was).Exhausted() || a.maxId <= Next(was).next))
  }

  predicate Fits(s: State, issued: seq<int>, ev: Event, b: nat)
    requires Enabled(s, ev)
  {
    match ev
    case Store(c, l) => c == b ==> FitsNext(issued, s.buffers[b], s.inFlight[l])
    case Initialize(c, l) => c == b ==> FitsCurrent(issued, s.buffers[b], s.inFlight[l])
    case _ => true
  }

  /** Every range stored into buffer `b` fits at its time. */
  ghost predicate AlwaysFits(s0: State, evs: seq<Event>, b: nat) {
    evs == [] ||
    (var front, ev := evs[..|evs| - 1], evs[|evs| - 1];
     && AlwaysFits(s0, front, b)
     && (Enabled(Run(s0, front), ev) ==> Fits(Run(s0, front), IssuedBy(s0, front, b), ev, b)))
  }

  // ---------- what fitting ranges keep ----------

  /** Issued, then cached IDs rise; only a buffer that was initialized has issued any. */
  ghost predicate Ordered(issued: seq<int>, buffer: BufferState) {
    && WellFormed(buffer) && Rising(issued + Cached(buffer))
    && (issued != [] ==> buffer.initialized || buffer.disabled)
  }

  /** Three rising pieces rise together when the last starts above the two others. */
  lemma RisingAppend(issued: seq<int>, rest: seq<int>, more: seq<int>)
    ensures Rising(issued + (rest + more)) <==>
            && Rising(issued + rest) && Rising(more)
            && (more == [] || (EndsBelow(issued, more[0]) && EndsBelow(rest, more[0])))
  {
    RisingConcat(issued, rest + more);
    RisingConcat(rest, more);
    RisingConcat(issued, rest);
    hide Rising;
    if rest == [] {
      assert rest + more == more && issued + rest == issued;
    } else if issued != [] && Rising(issued + rest) {
      RisingEnds(rest);
    }
  }

  lemma RisingEnds(s: seq<int>)
    requires s != [] && Rising(s)
    ensures s[0] <= s[|s| - 1]
  {
  }

  lemma RangeEnds(lo: int, hi: int)
    ensures Rising(Interval(lo, hi)) && (Interval(lo, hi) == [] <==> hi <= lo)
    ensures lo < hi ==> Interval(lo, hi)[0] == lo && Interval(lo, hi)[|Interval(lo, hi)| - 1] == hi - 1
  {
  }

  /** A range behind what is left of another. */
  lemma RangeBehind(issued: seq<int>, lo: int, hi: int, first: int, end: int)
    requires Rising(issued + Interval(lo, hi))
    ensures Rising(issued + (Interval(lo, hi) + Interval(first, end))) <==>
            end <= first || (EndsBelow(issued, first) && (hi <= lo || hi <= first))
  {
    RangeEnds(lo, hi);
    RangeEnds(first, end);
    RisingAppend(issued, Interval(lo, hi), Interval(first, end));
    hide Rising, Interval;
  }

  /** A range before what is left of another. */
  lemma RangeBefore(issued: seq<int>, lo: int, hi: int, first: int, end: int)
    requires Rising(issued + Interval(lo, hi))
    ensures Rising(issued + (Interval(first, end) + Interval(lo, hi))) <==>
            end <= first || (EndsBelow(issued, first) && (hi <= lo || end <= lo))
  {
    RangeEnds(lo, hi);
    RangeEnds(first, end);
    RisingConcat(issued, Interval(lo, hi));
    RisingConcat(issued, Interval(first, end));
    RisingAppend(issued, Interval(first, end), Interval(lo, hi));
    hide Rising, Interval;
  }

  /** Storing into the next slot keeps the order exactly when the range fits. */
  lemma StoreExact(issued: seq<int>, was: BufferState, a: SegmentAllocation)
    requires Ordered(issued, was)
    ensures Ordered(issued, StoreNext(was, a)) <==> FitsNext(issued, was, a)
  {
    var b := StoreNext(was, a);
    if !was.disabled {
      hide Rising, Interval;
      assert Next(b) == Fresh(a) && Current(b) == Current(was);
      var lo, hi := Current(was).next, Current(was).max;
      if was.initialized {
        RisingAppend(issued, Current(was).Rest(), if was.nextReady then Next(was).Rest() else []);
        RangeBehind(issued, lo, hi, a.StartId(), a.maxId);
        assert Cached(b) == Interval(lo, hi) + Interval(a.StartId(), a.maxId);
      }
    }
  }

  /** Initializing the current slot keeps the order exactly when the range fits. */
  lemma InitializeExact(issued: seq<int>, was: BufferState, a: SegmentAllocation)
    requires Ordered(issued, was)
    ensures Ordered(issued, InitializeCurrent(was, a)) <==> FitsCurrent(issued, was, a)
  {
    var b := InitializeCurrent(was, a);
    if !was.disabled {
      hide Rising, Interval;
      assert Current(b) == Fresh(a) && Next(b) == Next(was);
      var lo, hi := if was.nextReady then Next(was).next else 0, if was.nextReady then Next(was).max else 0;
      var rest := Interval(lo, hi);
      NothingLeft(lo);
      assert Cached(b) == Interval(a.StartId(), a.maxId) + rest;
      CachedNextRises(issued, was, lo, hi);
      RangeBefore(issued, lo, hi, a.StartId(), a.maxId);
    }
  }

  lemma NothingLeft(lo: int)
    ensures Interval(lo, lo) == []
  {
  }

  /** What waits in the next slot is above what was issued. */
  lemma CachedNextRises(issued: seq<int>, was: BufferState, lo: int, hi: int)
    requires Ordered(issued, was) && !was.disabled
    requires if was.nextReady then lo == Next(was).next && hi == Next(was).max else lo == hi
    ensures Rising(issued + Interval(lo, hi))
  {
    var rest := Interval(lo, hi);
    RangeEnds(lo, hi);
    RisingConcat(issued, rest);
    RisingConcat(issued, Cached(was));
    RisingAppend(issued, Current(was).Rest(), rest);
    hide Rising, Interval;
    assert was.initialized ==> Cached(was) == Current(was).Rest() + rest;
    assert rest == [] || was.nextReady;
  }

  lemma DrawKeepsOrder(issued: seq<int>, was: BufferState)
    requires Ordered(issued, was)
    ensures var (b, out) := NextId(was); Ordered(if out.Drawn? then issued + [out.id] else issued, b)
  {
    NextIdTakesFirst(was);
    var (b, out) := NextId(was);
    hide NextId, WellFormed, Cached, Rising;
    if out.Drawn? {
      assert issued + ([out.id] + Cached(b)) == issued + [out.id] + Cached(b);
    } else {
      RisingConcat(issued, Cached(was));
      assert Cached(b) == [] && issued + [] == issued;
    }
  }

  lemma DisableKeepsOrder(issued: seq<int>, was: BufferState)
    requires Ordered(issued, was)
    ensures Ordered(issued, Deactivate(was))
  {
    RisingConcat(issued, Cached(was));
    hide Rising;
    assert Cached(Deactivate(was)) == [] && issued + [] == issued;
  }

  lemma FlagsKeepOrder(issued: seq<int>, was: BufferState)
    requires Ordered(issued, was)
    ensures Ordered(issued, StartLoadingNext(was)) && Ordered(issued, FinishLoadingNext(was))
  {
    hide Rising;
    assert Cached(StartLoadingNext(was)) == Cached(was) && Cached(FinishLoadingNext(was)) == Cached(was);
  }

  lemma NewIsOrdered()
    ensures Ordered([], NewBuffer(""))
  {
  }

  /** A buffer that does not exist yet has issued nothing. */
  ghost predicate OrderedIn(s: State, issued: seq<int>, b: nat) {
    if b in s.buffers then Ordered(issued, s.buffers[b]) else issued == []
  }

  /** The order survives an event exactly when what it stores fits. */
  lemma StepExact(s: State, issued: seq<int>, ev: Event, b: nat)
    requires OrderedIn(s, issued, b) && Enabled(s, ev)
    ensures OrderedIn(Do(s, ev), issued + Adds(s, ev, b), b) <==> Fits(s, issued, ev, b)
  {
    hide Ordered, FitsNext, FitsCurrent, NextId;
    assert issued + [] == issued;
    NewIsOrdered();
    if b in s.buffers {
      var was := s.buffers[b];
      DrawKeepsOrder(issued, was);
      DisableKeepsOrder(issued, was);
      FlagsKeepOrder(issued, was);
      if ev.Store? {
        StoreExact(issued, was, s.inFlight[ev.load]);
      } else if ev.Initialize? {
        InitializeExact(issued, was, s.inFlight[ev.load]);
      }
    }
  }

  lemma {:induction false} FittingKeepsOrder(s0: State, evs: seq<Event>, b: nat)
    requires b !in s0.buffers && AlwaysFits(s0, evs, b)
    ensures OrderedIn(Run(s0, evs), IssuedBy(s0, evs, b), b)
  {
    if evs != [] {
      hide OrderedIn, Do, Fits;
      var front, ev := evs[..|evs| - 1], evs[|evs| - 1];
      FittingKeepsOrder(s0, front, b);
      var s := Run(s0, front);
      if Enabled(s, ev) {
        StepExact(s, IssuedBy(s0, front, b), ev, b);
      } else {
        assert IssuedBy(s0, front, b) + [] == IssuedBy(s0, front, b);
      }
    } else {
      assert IssuedBy(s0, [], b) == [];
    }
  }

  // ---------- draining a buffer ----------

  function Draws(b: nat, n: nat): seq<Event> { if n == 0 then [] else Draws(b, n - 1) + [Draw(b)] }

  lemma DrawReturnsFirst(s0: State, evs: seq<Event>, b: nat)
    requires b in Run(s0, evs).buffers && WellFormed(Run(s0, evs).buffers[b])
    ensures var s, s' := Run(s0, evs), Run(s0, evs + [Draw(b)]);
            var cached := Cached(s.buffers[b]);
            && b in s'.buffers && WellFormed(s'.buffers[b])
            && IssuedBy(s0, evs + [Draw(b)], b) == IssuedBy(s0, evs, b) + (if cached == [] then [] else [cached[0]])
            && Cached(s'.buffers[b]) == if cached == [] then [] else cached[1..]
  {
    assert (evs + [Draw(b)])[..|evs + [Draw(b)]| - 1] == evs;
    NextIdTakesFirst(Run(s0, evs).buffers[b]);
    hide NextId, WellFormed, Cached;
  }

  /** After any run, n more draws return the first n cached IDs. */
  lemma {:induction false} DrawsReturnCached(s0: State, evs: seq<Event>, b: nat, n: nat)
    requires b in Run(s0, evs).buffers && WellFormed(Run(s0, evs).buffers[b])
    requires n <= |Cached(Run(s0, evs).buffers[b])|
    ensures var cached := Cached(Run(s0, evs).buffers[b]);
            var s' := Run(s0, evs + Draws(b, n));
            && b in s'.buffers && WellFormed(s'.buffers[b])
            && IssuedBy(s0, evs + Draws(b, n), b) == IssuedBy(s0, evs, b) + cached[..n]
            && Cached(s'.buffers[b]) == cached[n..]
  {
    hide IssuedBy, Run, WellFormed, Cached;
    var cached := Cached(Run(s0, evs).buffers[b]);
    if n == 0 {
      assert evs + Draws(b, 0) == evs;
      assert IssuedBy(s0, evs, b) + cached[..0] == IssuedBy(s0, evs, b);
    } else {
      DrawsReturnCached(s0, evs, b, n - 1);
      DrawReturnsFirst(s0, evs + Draws(b, n - 1), b);
      assert evs + Draws(b, n) == evs + Draws(b, n - 1) + [Draw(b)];
      assert cached[..n] == cached[..n - 1] + [cached[n - 1..][0]];
    }
  }

  /** Whatever the run, and whenever one stops it to draw on, the IDs of the buffer rise. */
  ghost predicate AlwaysRises(s0: State, evs: seq<Event>, b: nat) {
    forall k, n :: RisesAt(s0, evs, b, k, n)
  }

  ghost predicate RisesAt(s0: State, evs: seq<Event>, b: nat, k: int, n: nat) {
    0 <= k <= |evs| ==> Rising(IssuedBy(s0, evs[..k] + Draws(b, n), b))
  }

  lemma {:induction false} PrefixFits(s0: State, evs: seq<Event>, b: nat, k: nat)
    requires k <= |evs| && AlwaysFits(s0, evs, b)
    ensures AlwaysFits(s0, evs[..k], b)
    decreases |evs|
  {
    if k < |evs| {
      PrefixFits(s0, evs[..|evs| - 1], b, k);
      assert evs[..|evs| - 1][..k] == evs[..k];
    } else {
      assert evs[..k] == evs;
    }
  }

  lemma {:induction false} DrawsFit(s0: State, evs: seq<Event>, b: nat, n: nat)
    requires AlwaysFits(s0, evs, b)
    ensures AlwaysFits(s0, evs + Draws(b, n), b)
  {
    hide Run, IssuedBy, Enabled;
    if n == 0 {
      assert evs + [] == evs;
    } else {
      DrawsFit(s0, evs, b, n - 1);
      var before, all := evs + Draws(b, n - 1), evs + Draws(b, n);
      assert all == before + [Draw(b)];
      assert all[..|all| - 1] == before;
    }
  }

  lemma FittingRises(s0: State, evs: seq<Event>, b: nat, k: nat, n: nat)
    requires b !in s0.buffers && AlwaysFits(s0, evs, b) && k <= |evs|
    ensures Rising(IssuedBy(s0, evs[..k] + Draws(b, n), b))
  {
    PrefixFits(s0, evs, b, k);
    DrawsFit(s0, evs[..k], b, n);
    var all := evs[..k] + Draws(b, n);
    FittingKeepsOrder(s0, all, b);
    if b in Run(s0, all).buffers {
      RisingConcat(IssuedBy(s0, all, b), Cached(Run(s0, all).buffers[b]));
    }
  }

  /** If what the last event stored does not fit, drawing on makes the IDs go back. */
  lemma MisfitGoesBack(s0: State, evs: seq<Event>, b: nat)
    requires b !in s0.buffers && evs != [] && AlwaysFits(s0, evs[..|evs| - 1], b) && !AlwaysFits(s0, evs, b)
    ensures exists n :: !RisesAt(s0, evs, b, |evs|, n)
  {
    hide RisesAt, AlwaysFits, Do, Run, IssuedBy, Adds, OrderedIn, Fits, WellFormed, Cached;
    var front, ev := evs[..|evs| - 1], evs[|evs| - 1];
    var s, issued := Run(s0, front), IssuedBy(s0, front, b);
    FittingKeepsOrder(s0, front, b);
    FirstMisfit(s0, evs, b);
    MisfitStores(s, issued, ev, b);
    var buffer := Run(s0, evs).buffers[b];
    var n := |Cached(buffer)|;
    DrawsReturnCached(s0, evs, b, n);
    assert Cached(buffer)[..n] == Cached(buffer);
    assert evs[..|evs|] == evs;
    GoesBack(s0, evs, b, n);
  }

  lemma FirstMisfit(s0: State, evs: seq<Event>, b: nat)
    requires evs != [] && AlwaysFits(s0, evs[..|evs| - 1], b) && !AlwaysFits(s0, evs, b)
    ensures var front, ev := evs[..|evs| - 1], evs[|evs| - 1];
            var s, issued := Run(s0, front), IssuedBy(s0, front, b);
            && Enabled(s, ev) && !Fits(s, issued, ev, b)
            && Run(s0, evs) == Do(s, ev) && IssuedBy(s0, evs, b) == issued + Adds(s, ev, b)
  {
    hide Fits, Do, Adds;
  }

  lemma GoesBack(s0: State, evs: seq<Event>, b: nat, n: nat)
    requires !Rising(IssuedBy(s0, evs[..|evs|] + Draws(b, n), b))
    ensures !RisesAt(s0, evs, b, |evs|, n)
  {
  }

  /** Only storing can fail to fit, and it leaves the buffer well formed and initialized. */
  lemma MisfitStores(s: State, issued: seq<int>, ev: Event, b: nat)
    requires OrderedIn(s, issued, b) && Enabled(s, ev) && !Fits(s, issued, ev, b)
    ensures b in s.buffers && b in Do(s, ev).buffers && WellFormed(Do(s, ev).buffers[b])
    ensures !Rising(issued + Adds(s, ev, b) + Cached(Do(s, ev).buffers[b]))
  {
    StepExact(s, issued, ev, b);
    match ev
    case Store(c, l) => ApplyKeepsWellFormed(s.buffers[b], OpStore(s.inFlight[l]));
    case Initialize(c, l) => ApplyKeepsWellFormed(s.buffers[b], OpInitialize(s.inFlight[l]));
    case _ =>
  }

  /** The IDs of a buffer rise in every continuation by draws exactly when every range stored fits. */
  lemma {:induction false} RisesExact(s0: State, evs: seq<Event>, b: nat)
    requires b !in s0.buffers
    ensures AlwaysFits(s0, evs, b) <==> AlwaysRises(s0, evs, b)
  {
    if AlwaysFits(s0, evs, b) {
      forall k, n ensures RisesAt(s0, evs, b, k, n) {
        if 0 <= k <= |evs| {
          FittingRises(s0, evs, b, k, n);
        }
      }
    } else {
      var front := evs[..|evs| - 1];
      RisesExact(s0, front, b);
      if AlwaysFits(s0, front, b) {
        MisfitGoesBack(s0, evs, b);
      } else {
        var k, n :| !RisesAt(s0, front, b, k, n);
        assert front[..k] == evs[..k];
        assert !RisesAt(s0, evs, b, k, n);
      }
    }
  }

  // ---------- younger loads fit ----------

  /** What is stored into `b` was loaded after all that was stored before, and nothing is there to be overtaken. */
  predicate Younger(s: State, youngest: int, ev: Event, b: nat)
    requires Enabled(s, ev)
  {
    match ev
    case Store(c, l) => c == b ==> l > youngest
    case Initialize(c, l) => c == b ==> l > youngest && !s.buffers[b].initialized && !s.buffers[b].nextReady
    case _ => true
  }

  /** The load stored last into buffer `b`. */
  function LastStored(s0: State, evs: seq<Event>, b: nat): int {
    if evs == [] then -1
    else
      var front, ev := evs[..|evs| - 1], evs[|evs| - 1];
      if (ev.Store? || ev.Initialize?) && ev.buffer == b && Enabled(Run(s0, front), ev) then ev.load
      else LastStored(s0, front, b)
  }

  ghost predicate InLoadOrder(s0: State, evs: seq<Event>, b: nat) {
    evs == [] ||
    (var front, ev := evs[..|evs| - 1], evs[|evs| - 1];
     && InLoadOrder(s0, front, b)
     && (Enabled(Run(s0, front), ev) ==> Younger(Run(s0, front), LastStored(s0, front, b), ev, b)))
  }

  ghost predicate EmptyOrBelow(slot: SegmentState, v: int) { slot.Exhausted() || slot.max <= v }

  /** All that buffer `b` has issued or holds is below `v`. */
  ghost predicate AllBelow(s: State, issued: seq<int>, b: nat, v: int) {
    && (forall x :: x in issued ==> x < v)
    && (b in s.buffers ==> EmptyOrBelow(Current(s.buffers[b]), v) && EmptyOrBelow(Next(s.buffers[b]), v))
  }

  /** Ranges in flight are in load order, below the row, and the young ones above all that `b` has. */
  ghost predicate Ahead(s: State, issued: seq<int>, youngest: int, b: nat) {
    && AllBelow(s, issued, b, s.row.maxId) && youngest < s.loads
    && (forall l :: l in s.inFlight ==> l < s.loads && s.inFlight[l].step >= 0 && s.inFlight[l].maxId <= s.row.maxId)
    && (forall l :: l in s.inFlight && l > youngest ==> AllBelow(s, issued, b, s.inFlight[l].StartId()))
    && (forall l, k :: l in s.inFlight && k in s.inFlight && l < k ==> s.inFlight[l].maxId <= s.inFlight[k].StartId())
  }

  function Stored(youngest: int, ev: Event, b: nat): int {
    if (ev.Store? || ev.Initialize?) && ev.buffer == b then ev.load else youngest
  }

  /** A range that goes into a slot of `b` is below all younger ones. */
  lemma StoreStaysAhead(s: State, issued: seq<int>, youngest: int, b: nat, l: nat, current: bool)
    requires Ahead(s, issued, youngest, b) && b in s.buffers && l in s.inFlight && l > youngest
    ensures Ahead(if current then DoInitialize(s, b, l) else DoStore(s, b, l), issued, l, b)
  {
    var s' := if current then DoInitialize(s, b, l) else DoStore(s, b, l);
    var was, b', range := s.buffers[b], s'.buffers[b], Fresh(s.inFlight[l]);
    forall v | AllBelow(s, issued, b, v) && s.inFlight[l].maxId <= v ensures AllBelow(s', issued, b, v) {
      assert Current(b') == Current(was) || Current(b') == range;
      assert Next(b') == Next(was) || Next(b') == range;
    }
  }

  lemma DrawStaysAhead(s: State, issued: seq<int>, youngest: int, b: nat)
    requires Ahead(s, issued, youngest, b) && b in s.buffers
    ensures Ahead(DoDraw(s, b), issued + Adds(s, Draw(b), b), youngest, b)
  {
    var s', issued' := DoDraw(s, b), issued + Adds(s, Draw(b), b);
    var was, b' := s.buffers[b], s'.buffers[b];
    SwitchFacts(was);
    assert s'.inFlight == s.inFlight && s'.row == s.row;
    forall v | AllBelow(s, issued, b, v) ensures AllBelow(s', issued', b, v) {
      assert forall slot: SegmentState :: !slot.Exhausted() && EmptyOrBelow(slot, v) ==> slot.next < v;
    }
  }

  lemma BelowFits(s: State, issued: seq<int>, b: nat, v: int)
    requires AllBelow(s, issued, b, v) && b in s.buffers
    ensures EndsBelow(issued, v) && EmptyOrBelow(Current(s.buffers[b]), v)
  {
    assert issued != [] ==> issued[|issued| - 1] in issued;
  }

  /** Steps that store nothing into `b`, draw nothing from it and load nothing. */
  lemma OthersStayAhead(s: State, s': State, issued: seq<int>, youngest: int, b: nat)
    requires Ahead(s, issued, youngest, b) && s'.row == s.row && s'.loads == s.loads
    requires forall l :: l in s'.inFlight ==> l in s.inFlight && s'.inFlight[l] == s.inFlight[l]
    requires b in s'.buffers ==>
               var b' := s'.buffers[b];
               (b in s.buffers && Current(b') == Current(s.buffers[b]) && Next(b') == Next(s.buffers[b]))
               || (Current(b').Exhausted() && Next(b').Exhausted())
    ensures Ahead(s', issued, youngest, b)
  {
    forall v | AllBelow(s, issued, b, v) ensures AllBelow(s', issued, b, v) {
    }
  }

  lemma StepStaysAhead(s: State, issued: seq<int>, youngest: int, ev: Event, b: nat)
    requires Ahead(s, issued, youngest, b) && Enabled(s, ev) && Younger(s, youngest, ev, b)
    requires ev.LoadStatement? ==> StepOf(ev.reply) >= 0
    ensures Ahead(Do(s, ev), issued + Adds(s, ev, b), Stored(youngest, ev, b), b)
    ensures Fits(s, issued, ev, b)
  {
    assert issued + [] == issued;
    if (ev.Store? || ev.Initialize?) && ev.buffer == b {
      assert AllBelow(s, issued, b, s.inFlight[ev.load].StartId());
      hide Ahead, AllBelow, DoStore, DoInitialize;
      StoreStaysAhead(s, issued, youngest, b, ev.load, ev.Initialize?);
      BelowFits(s, issued, b, s.inFlight[ev.load].StartId());
    } else if ev == Draw(b) {
      hide Ahead, Adds, DoDraw;
      DrawStaysAhead(s, issued, youngest, b);
    } else if ev.LoadStatement? {
      hide Ahead, DoLoad;
      LoadStaysAhead(s, issued, youngest, ev.reply, b);
    } else {
      OtherStepStaysAhead(s, issued, youngest, ev, b);
    }
  }

  lemma OtherStepStaysAhead(s: State, issued: seq<int>, youngest: int, ev: Event, b: nat)
    requires Ahead(s, issued, youngest, b) && Enabled(s, ev) && !ev.LoadStatement?
    requires (ev.Store? || ev.Initialize? || ev.Draw?) ==> ev.buffer != b
    ensures Ahead(Do(s, ev), issued, youngest, b)
  {
    hide Ahead, NextId, StoreNext, InitializeCurrent;
    OthersStayAhead(s, Do(s, ev), issued, youngest, b);
  }

  lemma LoadStaysAhead(s: State, issued: seq<int>, youngest: int, reply: LoadReply, b: nat)
    requires Ahead(s, issued, youngest, b) && StepOf(reply) >= 0
    ensures Ahead(DoLoad(s, reply), issued, youngest, b)
  {
    var s' := DoLoad(s, reply);
    forall v | AllBelow(s, issued, b, v) ensures forall u :: u >= v ==> AllBelow(s', issued, b, u) {
    }
  }

  lemma {:induction false} LoadOrderFits(row: Row, evs: seq<Event>, b: nat)
    requires NoNegativeStep(Replies(evs)) && InLoadOrder(Initial(row), evs, b)
    ensures AlwaysFits(Initial(row), evs, b)
    ensures Ahead(Run(Initial(row), evs), IssuedBy(Initial(row), evs, b), LastStored(Initial(row), evs, b), b)
    ensures b !in Run(Initial(row), evs).buffers ==> IssuedBy(Initial(row), evs, b) == []
  {
    hide Ahead, Fits, Younger, Adds, Do, NoNegativeStep, Replies;
    if evs == [] {
      StartsAhead(row, b);
    } else {
      var front, ev := evs[..|evs| - 1], evs[|evs| - 1];
      FrontHasNoNegativeStep(evs);
      LoadOrderFits(row, front, b);
      var s, issued := Run(Initial(row), front), IssuedBy(Initial(row), front, b);
      AddsOnlyFromBuffer(s, ev, b);
      if Enabled(s, ev) {
        StepStaysAhead(s, issued, LastStored(Initial(row), front, b), ev, b);
      } else {
        assert issued + [] == issued;
      }
    }
  }

  lemma StartsAhead(row: Row, b: nat)
    ensures Ahead(Initial(row), [], -1, b)
  {
  }

  lemma FrontHasNoNegativeStep(evs: seq<Event>)
    requires evs != [] && NoNegativeStep(Replies(evs))
    ensures NoNegativeStep(Replies(evs[..|evs| - 1]))
    ensures evs[|evs| - 1].LoadStatement? ==> StepOf(evs[|evs| - 1].reply) >= 0
  {
    var before, all := Replies(evs[..|evs| - 1]), Replies(evs);
    assert forall i :: 0 <= i < |before| ==> before[i] == all[i];
    if evs[|evs| - 1].LoadStatement? {
      assert all[|before|] == evs[|evs| - 1].reply;
    }
  }

  lemma AddsOnlyFromBuffer(s: State, ev: Event, b: nat)
    ensures Adds(s, ev, b) != [] ==> b in s.buffers && Enabled(s, ev)
    ensures Enabled(s, ev) && b !in Do(s, ev).buffers ==> b !in s.buffers
  {
  }

  /**
   The IDs of a buffer rise if every range stored into it was loaded after all those stored before, and
   no initialization meets a buffer that is initialized or has a range ready.
   */
  lemma LoadOrderRises(row: Row, evs: seq<Event>, b: nat)
    requires NoNegativeStep(Replies(evs)) && InLoadOrder(Initial(row), evs, b)
    ensures AlwaysRises(Initial(row), evs, b) && Rising(IssuedBy(Initial(row), evs, b))
  {
    LoadOrderFits(row, evs, b);
    RisesExact(Initial(row), evs, b);
    FittingRises(Initial(row), evs, b, |evs|, 0);
    assert evs[..|evs|] + [] == evs;
  }

  // ---------- two runs that go back ----------

  /** Buffer 0 has used up its range, issuing the row's first ID, and two more ranges of one ID are in flight. */
  ghost predicate OneIssued(s: State, first: int) {
    && s.issued == [first] && UsedUp(s)
    && 1 in s.inFlight && s.inFlight[1] == SegmentAllocation("", first + 2, 1)
    && 2 in s.inFlight && s.inFlight[2] == SegmentAllocation("", first + 3, 1)
  }

  const THREE_LOADS: seq<LoadReply> := [] + [Applied(1)] + [Applied(1)] + [Applied(1)]

  lemma LoadOne(row: Row, rs: seq<LoadReply>, s: State) returns (s': State)
    requires Reached(row, rs, s)
    ensures Reached(row, rs + [Applied(1)], s') && s'.row.maxId == s.row.maxId + 1 && s'.loads == s.loads + 1
    ensures s'.inFlight == s.inFlight[s.loads := SegmentAllocation("", s.row.maxId + 1, 1)]
    ensures s'.buffers == s.buffers && s'.issued == s.issued
  {
    ReachedNext(row, rs, s, LoadStatement(Applied(1)));
    s' := Do(s, LoadStatement(Applied(1)));
  }

  lemma IssueOne(row: Row) returns (s: State)
    ensures Reached(row, THREE_LOADS, s) && OneIssued(s, row.maxId)
  {
    s := Initial(row);
    assert Replies([]) == [] && Run(s, []) == s && Reached(row, [], s);
    hide Reached, Do;
    s := LoadOne(row, [], s);
    s := LoadOne(row, [] + [Applied(1)], s);
    s := LoadOne(row, [] + [Applied(1)] + [Applied(1)], s);
    s := ServeRange(row, THREE_LOADS, s, 0, 0);
    s := DrawLast(row, s, row.maxId);
  }

  /** A draw on a buffer that has one ID in its current slot. */
  lemma DrawLast(row: Row, s: State, id: int) returns (s': State)
    requires Reached(row, THREE_LOADS, s) && Serving(s, 0, id, id + 1)
    ensures Reached(row, THREE_LOADS, s') && s'.issued == s.issued + [id] && s'.inFlight == s.inFlight
    ensures 0 in s'.buffers && Current(s'.buffers[0]).Exhausted() && Next(s'.buffers[0]) == Next(s.buffers[0])
    ensures var b, b' := s.buffers[0], s'.buffers[0];
            b'.initialized && !b'.disabled && b'.nextReady == b.nextReady
  {
    hide Reached;
    ReachedNext(row, THREE_LOADS, s, Draw(0));
    s' := Do(s, Draw(0));
    assert s'.buffers[0] == Take(s.buffers[0]);
  }

  /** A preload that is stored late, after the slow path has moved on, makes IDs go back. */
  lemma LatePreloadGoesBack(row: Row) returns (s: State)
    ensures Reached(row, THREE_LOADS, s) && s.issued == [row.maxId, row.maxId + 2, row.maxId + 1]
  {
    hide Reached;
    s := IssueOne(row);
    s := StoreAndDraw(row, s, 2);
    s := StoreAndDraw(row, s, 1);
  }

  /** Buffer 0 has nothing left and nothing ready. */
  ghost predicate UsedUp(s: State) {
    && 0 in s.buffers
    && var b := s.buffers[0]; b.initialized && !b.disabled && !b.nextReady && Current(b).Exhausted()
  }

  /** Storing a range of one ID into such a buffer, and drawing it. */
  lemma StoredIsDrawn(s: State, l: nat)
    requires UsedUp(s) && l in s.inFlight && s.inFlight[l].step == 1
    ensures 0 in DoStore(s, 0, l).buffers
    ensures var s' := DoDraw(DoStore(s, 0, l), 0);
            UsedUp(s') && s'.issued == s.issued + [s.inFlight[l].StartId()] && s'.inFlight == s.inFlight - {l}
  {
    var s1 := DoStore(s, 0, l);
    assert Current(s1.buffers[0]) == Current(s.buffers[0]) && Next(s1.buffers[0]) == Fresh(s.inFlight[l]);
    SwitchFacts(s1.buffers[0]);
  }

  lemma StoreAndDraw(row: Row, s: State, l: nat) returns (s': State)
    requires Reached(row, THREE_LOADS, s) && UsedUp(s) && l in s.inFlight && s.inFlight[l].step == 1
    ensures Reached(row, THREE_LOADS, s') && s'.issued == s.issued + [s.inFlight[l].StartId()]
    ensures s'.inFlight == s.inFlight - {l} && UsedUp(s')
  {
    StoredIsDrawn(s, l);
    hide Reached, UsedUp, DoStore, DoDraw;
    ReachedNext(row, THREE_LOADS, s, Store(0, l));
    ReachedNext(row, THREE_LOADS, DoStore(s, 0, l), Draw(0));
    s' := DoDraw(DoStore(s, 0, l), 0);
  }

  /** A second initialization that comes late overwrites the current slot while an older range is ready. */
  lemma RacingInitializationGoesBack(row: Row) returns (s: State)
    ensures Reached(row, THREE_LOADS, s) && s.issued == [row.maxId, row.maxId + 2, row.maxId + 1]
  {
    hide Reached;
    var s0 := IssueOne(row);
    s := InitializeOver(row, s0);
    hide Do, DoStore, DoInitialize;
    s := DrawLast(row, s, row.maxId + 2);
    s := SwitchAndDraw(row, s, row.maxId + 1);
  }

  lemma InitializeOver(row: Row, s: State) returns (s': State)
    requires Reached(row, THREE_LOADS, s) && OneIssued(s, row.maxId)
    ensures Reached(row, THREE_LOADS, s') && s'.issued == s.issued && Serving(s', 0, row.maxId + 2, row.maxId + 3)
    ensures s'.buffers[0].nextReady && Next(s'.buffers[0]) == Fresh(s.inFlight[1])
  {
    hide Reached;
    ReachedNext(row, THREE_LOADS, s, Store(0, 1));
    var s1 := Do(s, Store(0, 1));
    assert Next(s1.buffers[0]) == Fresh(s.inFlight[1]);
    ReachedNext(row, THREE_LOADS, s1, Initialize(0, 2));
    s' := Do(s1, Initialize(0, 2));
    assert Next(s'.buffers[0]) == Next(s1.buffers[0]) && Current(s'.buffers[0]) == Fresh(s.inFlight[2]);
  }

  lemma SwitchAndDraw(row: Row, s: State, id: int) returns (s': State)
    requires Reached(row, THREE_LOADS, s) && 0 in s.buffers
    requires var b := s.buffers[0];
             && b.initialized && !b.disabled && b.nextReady && Current(b).Exhausted()
             && Next(b).next == id && !Next(b).Exhausted()
    ensures Reached(row, THREE_LOADS, s') && s'.issued == s.issued + [id]
  {
    hide Reached;
    SwitchFacts(s.buffers[0]);
    ReachedNext(row, THREE_LOADS, s, Draw(0));
    s' := Do(s, Draw(0));
  }

  // ---------- one caller whose preloads are goroutines ----------

  /** One caller up to its first draw, which asks for a preload. */
  ghost function CallerBegins(): seq<Event> { [] + [Create(0)] + [LoadStatement(Applied(1))] + [Initialize(0, 0)] }

  /** The preload has loaded its range and not stored it when the caller draws again and finds nothing. */
  ghost function CallerWaits(): seq<Event> {
    CallerBegins() + [Draw(0)] + [Start(0)] + [LoadStatement(Applied(1))]
  }

  /** The caller loads on the spot, stores and draws; then the preload stores, and the caller draws again. */
  ghost function CallerGoesOn(): seq<Event> {
    CallerWaits() + [Draw(0)] + [LoadStatement(Applied(1))] + [Store(0, 2)] + [Draw(0)] + [Start(0)]
    + [Store(0, 1)] + [Draw(0)]
  }

  lemma RunBegins(row: Row)
    ensures var s := Run(Initial(row), CallerBegins());
            && Serving(s, 0, row.maxId, row.maxId + 1) && s.buffers[0] == Serves(row.maxId) && s.inFlight == map[]
            && s.issued == [] && s.loads == 1 && s.row.maxId == row.maxId + 1
  {
    var s0, load := Initial(row), LoadStatement(Applied(1));
    assert Run(s0, []) == s0;
    hide Run;
    RunSnoc(s0, [], Create(0));
    RunSnoc(s0, [] + [Create(0)], load);
    var s2 := Run(s0, [] + [Create(0)] + [load]);
    RunSnoc(s0, [] + [Create(0)] + [load], Initialize(0, 0));
    assert Run(s0, CallerBegins()).inFlight == map[];
  }

  /** A buffer that has just been initialized with a range of one ID. */
  function Serves(id: int): BufferState {
    InitializeCurrent(NewBuffer(""), SegmentAllocation("", id + 1, 1))
  }

  /** The buffer has used up its range, its preload is under way, and load 1 is not yet stored. */
  ghost predicate Outrun(s: State, first: int) {
    && UsedUp(s) && s.buffers[0].loadingNext && s.inFlight == map[1 := SegmentAllocation("", first + 2, 1)]
    && s.issued == [first] && s.loads == 2 && s.row.maxId == first + 2
  }

  lemma RunWaits(row: Row)
    ensures 0 in Run(Initial(row), CallerBegins()).buffers
    ensures NextId(Run(Initial(row), CallerBegins()).buffers[0]).1 == Drawn(row.maxId, false, true)
    ensures Outrun(Run(Initial(row), CallerWaits()), row.maxId)
  {
    var s0 := Initial(row);
    RunBegins(row);
    hide Run;
    RunSnoc(s0, CallerBegins(), Draw(0));
    var e1 := CallerBegins() + [Draw(0)];
    RunSnoc(s0, e1, Start(0));
    RunSnoc(s0, e1 + [Start(0)], LoadStatement(Applied(1)));
  }

  /**
   With preloads that are not carried out in line, one caller is enough to make IDs go back. Every event is
   one the caller or its preload takes: the first draw asks for the preload, the second finds nothing.
   */
  lemma OutrunPreloadGoesBack(row: Row)
    ensures var s := Run(Initial(row), CallerWaits()); 0 in s.buffers && NextId(s.buffers[0]).1 == NotReady
    ensures Run(Initial(row), CallerGoesOn()).issued == [row.maxId, row.maxId + 2, row.maxId + 1]
  {
    var s0, e0, load := Initial(row), CallerWaits(), LoadStatement(Applied(1));
    RunWaits(row);
    hide Run;
    RunSnoc(s0, e0, Draw(0));
    var s1 := Run(s0, e0 + [Draw(0)]);
    assert s1.buffers[0] == Run(s0, e0).buffers[0];
    RunSnoc(s0, e0 + [Draw(0)], load);
    var e2 := e0 + [Draw(0)] + [load];
    RunStoreAndDraw(s0, e2, 2);
    var e3 := e2 + [Store(0, 2)] + [Draw(0)];
    RunSnoc(s0, e3, Start(0));
    RunStoreAndDraw(s0, e3 + [Start(0)], 1);
  }

  lemma RunStoreAndDraw(s0: State, evs: seq<Event>, l: nat)
    requires UsedUp(Run(s0, evs)) && l in Run(s0, evs).inFlight && Run(s0, evs).inFlight[l].step == 1
    ensures var s, s' := Run(s0, evs), Run(s0, evs + [Store(0, l)] + [Draw(0)]);
            UsedUp(s') && s'.issued == s.issued + [s.inFlight[l].StartId()] && s'.inFlight == s.inFlight - {l}
  {
    StoredIsDrawn(Run(s0, evs), l);
    hide Run, DoStore, DoDraw;
    RunSnoc(s0, evs, Store(0, l));
    RunSnoc(s0, evs + [Store(0, l)], Draw(0));
  }
}
