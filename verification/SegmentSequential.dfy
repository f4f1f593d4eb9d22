/**
 One instance with an in-line launcher is a plain counter, whatever the database does.

 `drawn` is the list of all IDs a session has taken from one tag, whether or not they were returned.
 */
module SegmentSequential {
  import opened Wrappers
  import opened Sequences
  import opened SegmentDomain
  import opened SegmentRepository
  import opened SegmentAllocator

  // ---------- what the database hands out, independently of the allocator ----------

  /** The row's max_id after the first `k` load statements. */
  function MaxAfter(db: Database, tag: string, start: int, k: nat): int {
    if k == 0 then start else MaxAfter(db, tag, start, k - 1) + StepOf(db(tag, k - 1))
  }

  /** The IDs of the ranges whose replies arrived, in the order of the statements. */
  function LoadedIds(db: Database, tag: string, start: int, k: nat): seq<int> {
    if k == 0 then []
    else LoadedIds(db, tag, start, k - 1) +
         if db(tag, k - 1).Applied? then Interval(MaxAfter(db, tag, start, k - 1), MaxAfter(db, tag, start, k)) else []
  }

  ghost predicate StepsNotNegative(db: Database, tag: string, k: nat) {
    forall i: nat :: i < k ==> StepOf(db(tag, i)) >= 0
  }

  ghost predicate NothingLost(db: Database, tag: string, k: nat) {
    forall i: nat :: i < k && db(tag, i).AppliedButLost? ==> StepOf(db(tag, i)) == 0
  }

  lemma LoadedIdsNext(db: Database, tag: string, start: int, k: nat)
    ensures LoadedIds(db, tag, start, k + 1) ==
            if db(tag, k).Applied? then
              LoadedIds(db, tag, start, k) + Interval(MaxAfter(db, tag, start, k), MaxAfter(db, tag, start, k + 1))
            else LoadedIds(db, tag, start, k)
  {
    assert LoadedIds(db, tag, start, k) + [] == LoadedIds(db, tag, start, k);
  }

  lemma RangeAppended(before: seq<int>, start: int, lo: int, hi: int)
    requires lo <= hi && start <= lo && Rising(before) && forall x :: x in before ==> start <= x < lo
    ensures var all := before + Interval(lo, hi);
            Rising(all) && |all| == |before| + (hi - lo) && forall x :: x in all ==> start <= x < hi
  {
    assert before != [] ==> before[|before| - 1] in before;
    RisingConcat(before, Interval(lo, hi));
    IntervalMembers(lo, hi);
    hide Rising;
  }

  lemma {:induction false} LoadedIdsBound(db: Database, tag: string, start: int, k: nat)
    requires StepsNotNegative(db, tag, k)
    ensures start <= MaxAfter(db, tag, start, k)
    ensures |LoadedIds(db, tag, start, k)| <= MaxAfter(db, tag, start, k) - start
    ensures !NothingLost(db, tag, k) ==> |LoadedIds(db, tag, start, k)| < MaxAfter(db, tag, start, k) - start
    ensures forall x :: x in LoadedIds(db, tag, start, k) ==> start <= x < MaxAfter(db, tag, start, k)
    ensures Rising(LoadedIds(db, tag, start, k))
  {
    if k > 0 {
      LoadedIdsBound(db, tag, start, k - 1);
      LoadedIdsNext(db, tag, start, k - 1);
      RangeAppended(LoadedIds(db, tag, start, k - 1), start,
                    MaxAfter(db, tag, start, k - 1), MaxAfter(db, tag, start, k));
      hide LoadedIds, Rising, Interval;
    }
  }

  /** The ranges received join up to one gap-free range exactly when no committed range went missing. */
  lemma {:induction false} GapFreeIffNothingLost(db: Database, tag: string, start: int, k: nat)
    requires StepsNotNegative(db, tag, k)
    ensures LoadedIds(db, tag, start, k) == Interval(start, MaxAfter(db, tag, start, k)) <==> NothingLost(db, tag, k)
  {
    LoadedIdsBound(db, tag, start, k);
    if NothingLost(db, tag, k) {
      GapFree(db, tag, start, k);
    }
  }

  lemma {:induction false} GapFree(db: Database, tag: string, start: int, k: nat)
    requires StepsNotNegative(db, tag, k) && NothingLost(db, tag, k)
    ensures LoadedIds(db, tag, start, k) == Interval(start, MaxAfter(db, tag, start, k))
  {
    if k > 0 {
      LoadedIdsBound(db, tag, start, k - 1);
      GapFree(db, tag, start, k - 1);
      IntervalSplit(start, MaxAfter(db, tag, start, k - 1), MaxAfter(db, tag, start, k));
    }
  }

  // ---------- the allocator issues them first in, first out ----------

  /** Drawn IDs followed by cached IDs are the IDs received so far, in order. */
  ghost predicate Accounted(db: Database, start: int, w: TagWorld, drawn: seq<int>) {
    && Quiet(w)
    && w.row.Some? && w.row.value.maxId == MaxAfter(db, w.tag, start, w.calls)
    && drawn + Cached(w.buffer) == LoadedIds(db, w.tag, start, w.calls)
  }

  lemma StoreAppends(b: BufferState, a: SegmentAllocation)
    requires b.initialized && !b.disabled && !b.nextReady
    ensures Cached(StoreNext(b, a)) == Cached(b) + Interval(a.StartId(), a.maxId)
  {
    var b' := StoreNext(b, a);
    assert Current(b') == Current(b) && Next(b') == Fresh(a);
    assert Cached(b) == Current(b).Rest() + [];
  }

  lemma StoreKeepsAccount(db: Database, start: int, w: TagWorld, drawn: seq<int>)
    requires Accounted(db, start, w, drawn) && w.buffer.initialized && !w.buffer.nextReady
    ensures var (w1, r) := Load(db, w);
            Accounted(db, start, if r.Ok? then w1.(buffer := StoreNext(w1.buffer, r.value)) else w1, drawn)
  {
    var r := Load(db, w).1;
    LoadedIdsNext(db, w.tag, start, w.calls);
    hide LoadedIds, Interval, WellFormed;
    assert WellFormed(w.buffer) && (r.Ok? ==> WellFormed(StoreNext(w.buffer, r.value))) by {
      if r.Ok? { ApplyKeepsWellFormed(w.buffer, OpStore(r.value)); }
    }
    if r.Ok? {
      StoreAppends(w.buffer, r.value);
      var more := Interval(r.value.StartId(), r.value.maxId);
      assert drawn + (Cached(w.buffer) + more) == (drawn + Cached(w.buffer)) + more;
    }
  }

  lemma PreloadKeepsAccount(db: Database, start: int, w: TagWorld, drawn: seq<int>)
    requires Accounted(db, start, w, drawn) && w.buffer.initialized
    ensures Accounted(db, start, Preload(db, w), drawn)
  {
    if MayStartLoading(w.buffer) {
      StoreKeepsAccount(db, start, w, drawn);
      var w0 := w.(buffer := StartLoadingNext(w.buffer));
      var r := Load(db, w).1;
      assert Load(db, w0).1 == r;
      if r.Ok? {
        assert StoreNext(w0.buffer, r.value) == StoreNext(w.buffer, r.value);
      } else {
        assert FinishLoadingNext(w0.buffer) == w.buffer;
      }
    }
  }

  lemma TryDrawKeepsAccount(db: Database, start: int, w: TagWorld, drawn: seq<int>)
    requires Accounted(db, start, w, drawn) && w.buffer.initialized
    ensures var (w1, out) := TryDraw(db, w);
            && !out.Missing? && w1.buffer.initialized
            && Accounted(db, start, w1, if out.Drawn? then drawn + [out.id] else drawn)
            && (out.NotReady? ==> !w1.buffer.nextReady)
  {
    NextIdTakesFirst(w.buffer);
    var (b, out) := NextId(w.buffer);
    var w' := w.(buffer := b);
    if out.Drawn? {
      assert drawn + ([out.id] + Cached(b)) == (drawn + [out.id]) + Cached(b);
      PreloadIsQuiet(db, w');
      PreloadKeepsAccount(db, start, w', drawn + [out.id]);
    } else {
      assert Cached(w.buffer) == [];
    }
  }

  lemma DrawOneKeepsAccount(db: Database, start: int, w: TagWorld, drawn: seq<int>)
    requires Accounted(db, start, w, drawn) && w.buffer.initialized
    ensures var (w1, r) := DrawOne(db, w);
            Accounted(db, start, w1, if r.Ok? then drawn + [r.value] else drawn) && w1.buffer.initialized
  {
    TryDrawKeepsAccount(db, start, w, drawn);
    var (w1, out) := TryDraw(db, w);
    if out.NotReady? {
      StoreKeepsAccount(db, start, w1, drawn);
      var (w2, r) := Load(db, w1);
      if r.Ok? {
        TryDrawKeepsAccount(db, start, w2.(buffer := StoreNext(w2.buffer, r.value)), drawn);
      }
    }
  }

  lemma {:induction false} DrawBatchKeepsAccount(db: Database, start: int, w: TagWorld, drawn: seq<int>, n: nat)
    requires Accounted(db, start, w, drawn) && w.buffer.initialized
    ensures var (w1, ids, failed) := DrawBatch(db, w, n);
            && Accounted(db, start, w1, drawn + ids) && w1.buffer.initialized
            && (failed.None? ==> |ids| == n) && |ids| <= n
  {
    hide DrawOne, Accounted;
    if n == 0 {
      assert drawn + [] == drawn;
    } else {
      DrawBatchKeepsAccount(db, start, w, drawn, n - 1);
      var (w1, ids, failed) := DrawBatch(db, w, n - 1);
      if failed.None? {
        DrawOneKeepsAccount(db, start, w1, drawn + ids);
        var r := DrawOne(db, w1).1;
        if r.Ok? {
          assert drawn + (ids + [r.value]) == drawn + ids + [r.value];
        }
      }
    }
  }

  lemma AllocateKeepsAccount(db: Database, start: int, w: TagWorld, drawn: seq<int>, count: nat)
    requires Accounted(db, start, w, drawn)
    ensures var (w1, ids, r) := Allocate(db, w, count);
            && Accounted(db, start, w1, drawn + ids)
            && (r.Ok? ==> r.value == ids && |ids| == count)
  {
    var (w1, unprepared) := Prepare(db, w);
    PrepareKeepsAccount(db, start, w, drawn);
    hide DrawBatch, Prepare, Accounted;
    if unprepared.Some? {
      assert drawn + [] == drawn;
    } else {
      DrawBatchKeepsAccount(db, start, w1, drawn, count);
    }
  }

  lemma PrepareKeepsAccount(db: Database, start: int, w: TagWorld, drawn: seq<int>)
    requires Accounted(db, start, w, drawn)
    ensures var (w1, unprepared) := Prepare(db, w);
            Accounted(db, start, w1, drawn) && (unprepared.None? ==> w1.buffer.initialized)
  {
    if !w.buffer.initialized {
      assert drawn + [] == drawn;
      var r := Load(db, w).1;
      if r.Ok? {
        var b := InitializeCurrent(w.buffer, r.value);
        assert Cached(b) == Interval(r.value.StartId(), r.value.maxId);
      } else {
        assert LoadedIds(db, w.tag, start, w.calls) + [] == LoadedIds(db, w.tag, start, w.calls);
      }
    }
  }

  // ---------- when a call succeeds ----------

  /** What a draw returns that finds nothing cached and loads on the spot. */
  function FromNewRange(w: TagWorld, reply: LoadReply): Result<int, Error> {
    if w.row.None? then Err(BizTagNotExists)
    else
      match reply
      case Applied(step) => if step >= 1 then Ok(w.row.value.maxId) else Err(SegmentsNotReady)
      case AppliedButLost(_) => Err(LoadFailed)
      case Refused => Err(LoadFailed)
  }

  lemma TryDrawTakesFirst(db: Database, w: TagWorld)
    requires Quiet(w) && w.buffer.initialized
    ensures var out := TryDraw(db, w).1;
            && (out.Drawn? <==> Cached(w.buffer) != []) && !out.Missing?
            && (out.Drawn? ==> out.id == Cached(w.buffer)[0])
    ensures Cached(w.buffer) == [] ==>
      var w1 := TryDraw(db, w).0;
      && w1 == w.(buffer := w1.buffer) && Quiet(w1)
      && w1.buffer.initialized && !w1.buffer.nextReady && Cached(w1.buffer) == []
  {
    NextIdTakesFirst(w.buffer);
    TryDrawIsQuiet(db, w);
    hide Quiet;
  }

  /** A new range in a buffer that has nothing left. */
  lemma NewRangeIsCached(w: TagWorld, a: SegmentAllocation)
    requires Quiet(w) && w.buffer.initialized && !w.buffer.nextReady && Cached(w.buffer) == []
    ensures var w1 := w.(buffer := StoreNext(w.buffer, a));
            Quiet(w1) && w1.buffer.initialized && Cached(w1.buffer) == Interval(a.StartId(), a.maxId)
  {
    StoreAppends(w.buffer, a);
    ApplyKeepsWellFormed(w.buffer, OpStore(a));
    hide WellFormed;
  }

  /**
   A draw returns the first cached ID. If none is cached it loads a range on the spot and returns the first
   ID of that, and fails exactly when the load fails or brings no ID.
   */
  lemma DrawOneExact(db: Database, w: TagWorld)
    requires Quiet(w) && w.buffer.initialized
    ensures DrawOne(db, w).1 ==
            if Cached(w.buffer) != [] then Ok(Cached(w.buffer)[0]) else FromNewRange(w, db(w.tag, w.calls))
  {
    hide TryDraw, Quiet, Cached, StoreNext;
    TryDrawTakesFirst(db, w);
    if Cached(w.buffer) == [] {
      var w1 := TryDraw(db, w).0;
      var (w2, r) := Load(db, w1);
      if r.Ok? {
        assert w2 == w1.(row := w2.row, calls := w2.calls);
        QuietIsOfBuffer(w1, w2);
        NewRangeIsCached(w2, r.value);
        TryDrawTakesFirst(db, w2.(buffer := StoreNext(w2.buffer, r.value)));
      }
    }
  }

  lemma QuietIsOfBuffer(w: TagWorld, w1: TagWorld)
    requires Quiet(w) && w1.buffer == w.buffer && w1.tag == w.tag
    ensures Quiet(w1)
  {
  }

  /** From statement `k` on the database always delivers IDs, of whatever number. */
  ghost predicate DeliversFrom(db: Database, tag: string, k: nat) {
    forall i: nat :: i >= k ==> db(tag, i).Applied? && StepOf(db(tag, i)) >= 1
  }

  lemma {:induction false} BatchSucceeds(db: Database, w: TagWorld, n: nat)
    requires Quiet(w) && w.buffer.initialized && w.row.Some? && DeliversFrom(db, w.tag, w.calls)
    ensures var (w1, ids, failed) := DrawBatch(db, w, n);
            && failed.None? && |ids| == n
            && Quiet(w1) && w1.buffer.initialized && w1.row.Some? && w1.tag == w.tag && w1.calls >= w.calls
  {
    if n > 0 {
      BatchSucceeds(db, w, n - 1);
      var w1 := DrawBatch(db, w, n - 1).0;
      DrawOneExact(db, w1);
      DrawOneIsQuiet(db, w1);
      DrawKeepsRow(db, w1);
      hide DrawOne, Quiet;
    }
  }

  lemma DrawKeepsRow(db: Database, w: TagWorld)
    ensures var w1 := DrawOne(db, w).0;
            w1.tag == w.tag && (w1.row.Some? <==> w.row.Some?) && w1.calls >= w.calls
  {
    hide NextId;
  }

  /** While the database delivers, every call returns as many IDs as it asked for, whatever the steps. */
  lemma CallSucceeds(db: Database, w: TagWorld, count: nat)
    requires Quiet(w) && w.row.Some? && DeliversFrom(db, w.tag, w.calls)
    ensures var (w1, ids, r) := Allocate(db, w, count);
            r == Ok(ids) && |ids| == count && Quiet(w1) && w1.row.Some? && DeliversFrom(db, w1.tag, w1.calls)
  {
    var (w1, unprepared) := Prepare(db, w);
    assert unprepared.None? && w1.tag == w.tag && w1.calls >= w.calls && Quiet(w1) && w1.row.Some?;
    hide Prepare, DrawBatch, Quiet;
    BatchSucceeds(db, w1, count);
  }

  /** A call that fails on its way found nothing cached after the IDs it drew, and reports why no new range came. */
  lemma CallFailsAsDraw(db: Database, w: TagWorld, count: nat)
    requires Quiet(w) && w.buffer.initialized
    ensures var (w1, ids, r) := Allocate(db, w, count);
            r.Err? ==>
              && |ids| < count && DrawBatch(db, w, |ids|).1 == ids
              && var stuck := DrawBatch(db, w, |ids|).0;
                 Cached(stuck.buffer) == [] && r == CallError(FromNewRange(stuck, db(stuck.tag, stuck.calls)))
  {
    hide DrawOne, Quiet, Cached, FromNewRange;
    BatchFailsAsDraw(db, w, count);
  }

  function CallError(r: Result<int, Error>): Result<seq<int>, Error> { if r.Ok? then Ok([r.value]) else Err(r.error) }

  lemma {:induction false} BatchFailsAsDraw(db: Database, w: TagWorld, count: nat)
    requires Quiet(w) && w.buffer.initialized
    ensures var (w1, ids, failed) := DrawBatch(db, w, count);
            && Quiet(w1) && w1.buffer.initialized
            && if failed.None? then |ids| == count
               else
                 && |ids| < count && DrawBatch(db, w, |ids|).1 == ids
                 && var stuck := DrawBatch(db, w, |ids|).0;
                    && Cached(stuck.buffer) == []
                    && FromNewRange(stuck, db(stuck.tag, stuck.calls)) == Err(failed.value)
  {
    hide DrawOne, Quiet, Cached, FromNewRange;
    if count > 0 {
      BatchFailsAsDraw(db, w, count - 1);
      var (w1, ids, failed) := DrawBatch(db, w, count - 1);
      DrawOneExact(db, w1);
      DrawOneIsQuiet(db, w1);
    }
  }

  /** A call that finds its buffer unused reports the failure of its first load, and says which it was. */
  lemma FirstLoadFailure(db: Database, w: TagWorld, count: nat)
    requires Quiet(w) && !w.buffer.initialized && (w.row.None? || !db(w.tag, w.calls).Applied?)
    ensures var (w1, ids, r) := Allocate(db, w, count);
            && r == Err(if w.row.None? then BizTagNotExists else LoadFailed) && ids == []
            && w1.buffer == NewBuffer(w.tag) && w1.calls == w.calls + 1
  {
    hide DrawBatch;
  }

  /**
   A caller that still works on the buffer of a removed tag gets no ID: the tag is reported as unknown, or
   the failure of the load it tries first, whose range is then lost.
   */
  lemma RemovedTagIsRefused(db: Database, w: TagWorld, count: nat)
    requires w.buffer.disabled
    ensures DrawOne(db, w) == (w, Err(BizTagNotExists))
    ensures !w.buffer.initialized ==>
      var (w1, ids, r) := Allocate(db, w, count);
      && ids == [] && w1.calls == w.calls + 1
      && r == Err(if w.row.None? || db(w.tag, w.calls).Applied? then BizTagNotExists else LoadFailed)
  {
    hide DrawBatch;
  }

  /** After a draw the next range is ready, or not yet due, or was asked for in vain by the last statement. */
  lemma DrawPreloads(db: Database, w: TagWorld)
    requires Quiet(w) && w.buffer.initialized && DrawOne(db, w).1.Ok?
    ensures var w1 := DrawOne(db, w).0;
            || w1.buffer.nextReady
            || 10 * (Current(w1.buffer).max - Current(w1.buffer).next) >= 9 * Current(w1.buffer).step
            || (w1.calls > w.calls && (w1.row.None? || !db(w.tag, w1.calls - 1).Applied?))
  {
    hide TryDraw, Quiet, Cached, StoreNext;
    TryDrawTakesFirst(db, w);
    if Cached(w.buffer) != [] {
      TryDrawPreloads(db, w);
    } else {
      var w1 := TryDraw(db, w).0;
      var (w2, r) := Load(db, w1);
      if r.Ok? {
        assert w2 == w1.(row := w2.row, calls := w2.calls);
        QuietIsOfBuffer(w1, w2);
        NewRangeIsCached(w2, r.value);
        TryDrawPreloads(db, w2.(buffer := StoreNext(w2.buffer, r.value)));
      }
    }
  }

  lemma TryDrawPreloads(db: Database, w: TagWorld)
    requires Quiet(w) && w.buffer.initialized && TryDraw(db, w).1.Drawn?
    ensures var w1 := TryDraw(db, w).0;
            || w1.buffer.nextReady
            || 10 * (Current(w1.buffer).max - Current(w1.buffer).next) >= 9 * Current(w1.buffer).step
            || (w1.calls > w.calls && (w1.row.None? || !db(w.tag, w1.calls - 1).Applied?))
  {
  }

  // ---------- sessions ----------

  /** A session is any list of AllocateSegmentIDs calls, each asking for some number of IDs. */
  function Session(db: Database, w: TagWorld, counts: seq<nat>): (TagWorld, seq<int>) {
    if counts == [] then (w, [])
    else
      var (w1, drawn) := Session(db, w, counts[..|counts| - 1]);
      var (w2, ids, _) := Allocate(db, w1, counts[|counts| - 1]);
      (w2, drawn + ids)
  }

  function Untouched(tag: string, start: int, version: nat): TagWorld {
    TagWorld(tag, NewBuffer(tag), Some(Row(start, version)), 0)
  }

  lemma {:induction false} SessionKeepsAccount(db: Database, tag: string, start: int, version: nat, counts: seq<nat>)
    ensures var (w, drawn) := Session(db, Untouched(tag, start, version), counts);
            Accounted(db, start, w, drawn) && w.tag == tag
  {
    var w0 := Untouched(tag, start, version);
    if counts != [] {
      var front := counts[..|counts| - 1];
      SessionKeepsAccount(db, tag, start, version, front);
      var (w, drawn) := Session(db, w0, front);
      AllocateKeepsAccount(db, start, w, drawn, counts[|counts| - 1]);
      AllocateKeepsTag(db, w, counts[|counts| - 1]);
    }
  }

  lemma AllocateKeepsTag(db: Database, w: TagWorld, count: nat)
    requires Quiet(w)
    ensures Allocate(db, w, count).0.tag == w.tag
  {
    var (w1, unprepared) := Prepare(db, w);
    if unprepared.None? {
      DrawBatchKeepsTag(db, w1, count);
    }
  }

  lemma {:induction false} DrawBatchKeepsTag(db: Database, w: TagWorld, count: nat)
    ensures DrawBatch(db, w, count).0.tag == w.tag
  {
    if count > 0 {
      DrawBatchKeepsTag(db, w, count - 1);
    }
  }

  /**
   Sequential refinement. After any session, with any failures and any steps that are not negative:
   the IDs drawn so far rise strictly, and together with the cached ones they are exactly the IDs the
   database delivered, in order. They are the next integers of a plain counter, with nothing skipped
   between the row's first and current max_id, exactly when the database lost no committed range.
   */
  lemma SessionIsCounter(db: Database, tag: string, start: int, version: nat, counts: seq<nat>)
    requires forall k: nat :: StepOf(db(tag, k)) >= 0
    ensures var (w, drawn) := Session(db, Untouched(tag, start, version), counts);
            && w.row.Some?
            && Rising(drawn)
            && (drawn + Cached(w.buffer) == Interval(start, w.row.value.maxId) <==> NothingLost(db, tag, w.calls))
            && (NothingLost(db, tag, w.calls) ==> drawn == Interval(start, start + |drawn|))
  {
    SessionKeepsAccount(db, tag, start, version, counts);
    var (w, drawn) := Session(db, Untouched(tag, start, version), counts);
    hide Session, Accounted;
    AccountIsCounter(db, start, w, drawn);
  }

  lemma AccountIsCounter(db: Database, start: int, w: TagWorld, drawn: seq<int>)
    requires Accounted(db, start, w, drawn) && StepsNotNegative(db, w.tag, w.calls)
    ensures var all := drawn + Cached(w.buffer);
            && w.row.Some? && Rising(drawn)
            && (all == Interval(start, w.row.value.maxId) <==> NothingLost(db, w.tag, w.calls))
            && (NothingLost(db, w.tag, w.calls) ==> drawn == Interval(start, start + |drawn|))
  {
    hide Quiet, LoadedIds, NothingLost, Cached, Interval, Rising;
    GapFreeIffNothingLost(db, w.tag, start, w.calls);
    LoadedIdsBound(db, w.tag, start, w.calls);
    RisingConcat(drawn, Cached(w.buffer));
    if NothingLost(db, w.tag, w.calls) {
      IntervalPrefix(drawn, Cached(w.buffer), start, w.row.value.maxId);
    }
  }
}
