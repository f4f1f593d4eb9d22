/**
 How often the allocator goes to the database when nothing fails and the step stays the same:
 the next range is fetched when the draw number floor(step/10)+1 of the current one is served,
 so the buffer is never found empty.
 */
module SegmentPreload {
  import opened Wrappers
  import opened Sequences
  import opened SegmentDomain
  import opened SegmentRepository
  import opened SegmentAllocator
  import opened SegmentSequential

  ghost predicate AlwaysApplies(db: Database, tag: string, step: int) {
    forall k: nat :: db(tag, k) == Applied(step)
  }

  /** `used` IDs of the current range [base, base + step) are gone; `segment` ranges came before it. */
  ghost predicate Steady(w: TagWorld, base: int, step: int, used: nat, segment: nat) {
    var b := w.buffer;
    var ahead := used > step / 10;
    && Quiet(w) && b.initialized
    && Current(b) == SegmentState(base + used, base + step, step)
    && b.nextReady == ahead
    && (ahead ==> Next(b) == SegmentState(base + step, base + 2 * step, step))
    && w.row.Some? && w.row.value.maxId == base + step + (if ahead then step else 0)
    && w.calls == segment + 1 + (if ahead then 1 else 0)
  }

  lemma PreloadOnce(db: Database, w: TagWorld, base: int, step: int, used: nat, segment: nat)
    requires step >= 1 && AlwaysApplies(db, w.tag, step)
    requires Quiet(w) && w.buffer.initialized && !w.buffer.nextReady
    requires Current(w.buffer) == SegmentState(base + used, base + step, step) && used > step / 10
    requires w.row.Some? && w.row.value.maxId == base + step && w.calls == segment + 1
    ensures Steady(Preload(db, w), base, step, used, segment)
  {
    assert MayStartLoading(w.buffer);
  }

  /** A draw succeeds at once and gives the next ID; the range changes after `step` of them. */
  lemma SteadyDraw(db: Database, w: TagWorld, base: int, step: int, used: nat, segment: nat)
    requires step >= 1 && AlwaysApplies(db, w.tag, step) && used <= step
    requires Steady(w, base, step, used, segment)
    ensures TryDraw(db, w).1.Drawn? && DrawOne(db, w).1 == Ok(base + used)
    ensures var w' := DrawOne(db, w).0;
            w'.tag == w.tag &&
            if used < step then Steady(w', base, step, used + 1, segment)
            else Steady(w', base + step, step, 1, segment + 1)
  {
    NextIdTakesFirst(w.buffer);
    var (b, out) := NextId(w.buffer);
    var w' := w.(buffer := b);
    if used < step {
      if out.shouldLoadNext {
        PreloadOnce(db, w', base, step, used + 1, segment);
      }
    } else {
      SwitchFacts(w.buffer);
      if out.shouldLoadNext {
        PreloadOnce(db, w', base + step, step, 1, segment + 1);
      }
    }
  }

  /** Which range the n-th ID comes from, counting from 0; nothing drawn yet counts as range 0. */
  function Segment(n: nat, step: int): nat
    requires step >= 1
  {
    if n == 0 then 0 else (n - 1) / step
  }

  lemma SegmentBounds(n: nat, step: int)
    requires step >= 1
    ensures Segment(n, step) * step <= n <= Segment(n, step) * step + step
    ensures n > 0 ==> Segment(n, step) * step < n
    ensures Segment(n + 1, step) ==
            if n < Segment(n, step) * step + step then Segment(n, step) else Segment(n, step) + 1
  {
    if n > 0 {
      var p := Segment(n, step);
      if n < p * step + step {
        Quotient(n, step, p);
      } else {
        assert n == (p + 1) * step;
        Quotient(n, step, p + 1);
      }
    }
  }

  lemma TimesMonotone(a: int, b: int, d: nat)
    ensures a <= b ==> a * d <= b * d
  {
  }

  lemma Quotient(n: int, d: int, q: int)
    requires d >= 1 && q * d <= n < q * d + d
    ensures n / d == q
  {
    var r := n / d;
    assert n == r * d + n % d;
    TimesMonotone(r + 1, q, d);
    TimesMonotone(q + 1, r, d);
  }

  ghost predicate SteadyAfter(w: TagWorld, start: int, step: int, n: nat)
    requires step >= 1
  {
    SegmentBounds(n, step);
    var p := Segment(n, step);
    Steady(w, start + p * step, step, n - p * step, p)
  }

  lemma SteadyStep(db: Database, w: TagWorld, start: int, step: int, n: nat)
    requires step >= 1 && AlwaysApplies(db, w.tag, step) && SteadyAfter(w, start, step, n)
    ensures TryDraw(db, w).1.Drawn?
    ensures var (w', r) := DrawOne(db, w);
            r == Ok(start + n) && w'.tag == w.tag && SteadyAfter(w', start, step, n + 1)
  {
    hide DrawOne, TryDraw, Steady;
    SegmentBounds(n, step);
    var p := Segment(n, step);
    SteadyDraw(db, w, start + p * step, step, n - p * step, p);
    assert (p + 1) * step == p * step + step;
  }

  /** Any batch, at any point of the run, draws the next integers and leaves the steady state. */
  lemma {:induction false} SteadyBatch(db: Database, w: TagWorld, start: int, step: int, n: nat, count: nat)
    requires step >= 1 && AlwaysApplies(db, w.tag, step) && SteadyAfter(w, start, step, n)
    ensures var (w', ids, failed) := DrawBatch(db, w, count);
            && failed.None? && ids == Interval(start + n, start + n + count)
            && SteadyAfter(w', start, step, n + count) && w'.tag == w.tag
  {
    hide DrawOne, TryDraw, SteadyAfter;
    if count > 0 {
      SteadyBatch(db, w, start, step, n, count - 1);
      var m := n + count - 1;
      SteadyStep(db, DrawBatch(db, w, count - 1).0, start, step, m);
      IntervalSplit(start + n, start + m, start + m + 1);
      assert Interval(start + m, start + m + 1) == [start + m];
    }
  }

  function CallsAfter(n: nat, step: int): int
    requires step >= 1
  {
    1 + (n + step - step / 10 - 1) / step
  }

  lemma CallCount(w: TagWorld, start: int, step: int, n: nat)
    requires step >= 1 && SteadyAfter(w, start, step, n)
    ensures w.calls == CallsAfter(n, step)
  {
    SegmentBounds(n, step);
    var p := Segment(n, step);
    var used := n - p * step;
    var x := n + step - step / 10 - 1;
    if used > step / 10 {
      assert (p + 1) * step == p * step + step;
      Quotient(x, step, p + 1);
    } else {
      Quotient(x, step, p);
    }
  }

  function Sum(counts: seq<nat>): nat { if counts == [] then 0 else Sum(counts[..|counts| - 1]) + counts[|counts| - 1] }

  /** A call on a steady state, or on an untouched one, for which the state is as after no ID. */
  lemma SteadyCall(db: Database, w: TagWorld, start: int, step: int, n: nat, count: nat)
    requires step >= 1 && AlwaysApplies(db, w.tag, step)
    requires var (w1, unprepared) := Prepare(db, w);
             unprepared.None? && w1.tag == w.tag && SteadyAfter(w1, start, step, n)
    ensures var (w', ids, r) := Allocate(db, w, count);
            && ids == Interval(start + n, start + n + count) && r == Ok(ids)
            && w'.tag == w.tag && SteadyAfter(w', start, step, n + count)
  {
    hide Prepare, DrawBatch, SteadyAfter;
    SteadyBatch(db, Prepare(db, w).0, start, step, n, count);
  }

  lemma SteadyIsPrepared(db: Database, w: TagWorld, start: int, step: int, n: nat)
    requires step >= 1 && SteadyAfter(w, start, step, n)
    ensures Prepare(db, w) == (w, None)
  {
  }

  lemma {:induction false} SteadySession(db: Database, tag: string, start: int, version: nat, step: int,
                                         counts: seq<nat>)
    requires step >= 1 && AlwaysApplies(db, tag, step) && counts != []
    ensures var (w, drawn) := Session(db, Untouched(tag, start, version), counts);
            && w.tag == tag && SteadyAfter(w, start, step, Sum(counts))
            && drawn == Interval(start, start + Sum(counts))
  {
    hide Prepare, SteadyAfter, Untouched, AlwaysApplies, Allocate, Interval;
    var front, count := counts[..|counts| - 1], counts[|counts| - 1];
    var w := Session(db, Untouched(tag, start, version), front).0;
    if front == [] {
      FirstLoad(db, tag, start, version, step);
    } else {
      SteadySession(db, tag, start, version, step, front);
      SteadyIsPrepared(db, w, start, step, Sum(front));
    }
    SteadyCall(db, w, start, step, Sum(front), count);
    IntervalSplit(start, start + Sum(front), start + Sum(counts));
  }

  /**
   Exact preload count. After any list of AllocateSegmentIDs calls that asked for n IDs in all, the IDs
   drawn are consecutive, the repository has been called 1 + floor((n + step - floor(step/10) - 1) / step)
   times, the next draw finds an ID in the buffer, and a next call, for any count, returns the next IDs.
   */
  lemma ExactPreloadCount(db: Database, tag: string, start: int, version: nat, step: int, counts: seq<nat>, more: nat)
    requires step >= 1 && AlwaysApplies(db, tag, step) && counts != []
    ensures var (w, drawn) := Session(db, Untouched(tag, start, version), counts);
            var n := Sum(counts);
            && drawn == Interval(start, start + n) && w.calls == CallsAfter(n, step) && TryDraw(db, w).1.Drawn?
            && Allocate(db, w, more).2 == Ok(Interval(start + n, start + n + more))
  {
    hide Session, Prepare, TryDraw, SteadyAfter, CallsAfter, Untouched, AlwaysApplies, Allocate, Interval;
    SteadySession(db, tag, start, version, step, counts);
    var w := Session(db, Untouched(tag, start, version), counts).0;
    CallCount(w, start, step, Sum(counts));
    SteadyStep(db, w, start, step, Sum(counts));
    SteadyIsPrepared(db, w, start, step, Sum(counts));
    SteadyCall(db, w, start, step, Sum(counts), more);
  }

  lemma FirstLoad(db: Database, tag: string, start: int, version: nat, step: int)
    requires step >= 1 && AlwaysApplies(db, tag, step)
    ensures Untouched(tag, start, version).tag == tag
    ensures var (w, unprepared) := Prepare(db, Untouched(tag, start, version));
            unprepared.None? && w.tag == tag && SteadyAfter(w, start, step, 0)
  {
    var w := Prepare(db, Untouched(tag, start, version)).0;
    assert Steady(w, start, step, 0, 0);
  }
}
