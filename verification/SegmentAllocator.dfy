/**
 The caching allocator of one instance, called by one goroutine at a time and launching each
 preload in line. `TagWorld` is everything that matters for one tag: its buffer and its row.
 */
module SegmentAllocator {
  import opened Wrappers
  import opened SegmentDomain
  import opened SegmentRepository

  datatype TagWorld = TagWorld(tag: string, buffer: BufferState, row: Option<Row>, calls: nat)

  function Load(db: Database, w: TagWorld): (TagWorld, Result<SegmentAllocation, Error>) {
    var (row, r) := LoadRow(w.tag, w.row, db(w.tag, w.calls));
    (w.(row := row, calls := w.calls + 1), r)
  }

  function Preload(db: Database, w: TagWorld): TagWorld {
    if !MayStartLoading(w.buffer) then w
    else
      var (w', r) := Load(db, w.(buffer := StartLoadingNext(w.buffer)));
      match r
      case Ok(a) => w'.(buffer := StoreNext(w'.buffer, a))
      case Err(_) => w'.(buffer := FinishLoadingNext(w'.buffer))
  }

  /** One NextID on the buffer, with the preload that a successful draw may ask for. */
  function TryDraw(db: Database, w: TagWorld): (TagWorld, NextIdOutcome) {
    var (b, out) := NextId(w.buffer);
    (if out.Drawn? && out.shouldLoadNext then Preload(db, w.(buffer := b)) else w.(buffer := b), out)
  }

  /** Draws one ID; when the buffer has none, loads a range on the spot and tries once more. */
  function DrawOne(db: Database, w: TagWorld): (TagWorld, Result<int, Error>) {
    var (w1, out) := TryDraw(db, w);
    match out
    case Drawn(id, _, _) => (w1, Ok(id))
    case Missing => (w1, Err(BizTagNotExists))
    case NotReady =>
      var (w2, r) := Load(db, w1);
      match r
      case Err(e) => (w2, Err(e))
      case Ok(a) =>
        var (w3, again) := TryDraw(db, w2.(buffer := StoreNext(w2.buffer, a)));
        match again
        case Drawn(id, _, _) => (w3, Ok(id))
        case Missing => (w3, Err(BizTagNotExists))
        case NotReady => (w3, Err(SegmentsNotReady))
  }

  function DrawStep(db: Database): TagWorld -> (TagWorld, Result<int, Error>) {
    w => DrawOne(db, w)
  }

  /** Up to `count` draws, stopping at the first error; the IDs drawn before it are listed too. */
  function DrawBatch(db: Database, w: TagWorld, count: nat): (TagWorld, seq<int>, Option<Error>) {
    Repeat(DrawStep(db), w, count)
  }

  /** The buffer is loaded before first use; a buffer whose first load fails is dropped again. */
  function Prepare(db: Database, w: TagWorld): (TagWorld, Option<Error>) {
    if w.buffer.initialized then (w, None)
    else
      var (w1, r) := Load(db, w);
      match r
      case Err(e) => (w1.(buffer := NewBuffer(w.tag)), Some(e))
      case Ok(a) =>
        var b := InitializeCurrent(w1.buffer, a);
        (w1.(buffer := b), if b.initialized then None else Some(BizTagNotExists))
  }

  /** One AllocateSegmentIDs call: the new state, the IDs drawn, and what the caller gets. */
  function Allocate(db: Database, w: TagWorld, count: nat): (TagWorld, seq<int>, Result<seq<int>, Error>) {
    var (w1, unprepared) := Prepare(db, w);
    if unprepared.Some? then (w1, [], Err(unprepared.value))
    else
      var (w2, ids, failed) := DrawBatch(db, w1, count);
      (w2, ids, if failed.Some? then Err(failed.value) else Ok(ids))
  }

  /** Between calls a cached buffer is enabled, has no load under way, and is untouched until loaded. */
  ghost predicate Quiet(w: TagWorld) {
    && w.buffer.bizTag == w.tag
    && !w.buffer.disabled && !w.buffer.loadingNext
    && (!w.buffer.initialized ==> w.buffer == NewBuffer(w.tag))
    && WellFormed(w.buffer)
  }

  lemma PreloadIsQuiet(db: Database, w: TagWorld)
    requires Quiet(w) && w.buffer.initialized
    ensures Quiet(Preload(db, w)) && Preload(db, w).buffer.initialized
  {
  }

  lemma TryDrawIsQuiet(db: Database, w: TagWorld)
    requires Quiet(w) && w.buffer.initialized
    ensures Quiet(TryDraw(db, w).0) && TryDraw(db, w).0.buffer.initialized
  {
    var (b, out) := NextId(w.buffer);
    NextIdTakesFirst(w.buffer);
    assert Quiet(w.(buffer := b));
    if out.Drawn? && out.shouldLoadNext {
      PreloadIsQuiet(db, w.(buffer := b));
    }
  }

  lemma DrawOneIsQuiet(db: Database, w: TagWorld)
    requires Quiet(w) && w.buffer.initialized
    ensures Quiet(DrawOne(db, w).0) && DrawOne(db, w).0.buffer.initialized
  {
    TryDrawIsQuiet(db, w);
    var (w1, out) := TryDraw(db, w);
    if out.NotReady? {
      var (w2, r) := Load(db, w1);
      if r.Ok? {
        TryDrawIsQuiet(db, w2.(buffer := StoreNext(w2.buffer, r.value)));
      }
    }
  }

  lemma {:induction false} DrawBatchIsQuiet(db: Database, w: TagWorld, count: nat)
    requires Quiet(w) && w.buffer.initialized
    ensures Quiet(DrawBatch(db, w, count).0) && DrawBatch(db, w, count).0.buffer.initialized
  {
    if count > 0 {
      DrawBatchIsQuiet(db, w, count - 1);
      DrawOneIsQuiet(db, DrawBatch(db, w, count - 1).0);
    }
  }

  lemma AllocateIsQuiet(db: Database, w: TagWorld, count: nat)
    requires Quiet(w)
    ensures Quiet(Allocate(db, w, count).0)
    ensures Prepare(db, w).1.None? ==> Allocate(db, w, count).0.buffer.initialized
  {
    var (w1, unprepared) := Prepare(db, w);
    if unprepared.None? {
      DrawBatchIsQuiet(db, w1, count);
    }
  }

  class CachedSegmentAllocator {
    const repository: Repository
    var buffers: map<string, SegmentBuffer>
    var initialized: bool

    /** The cache is keyed by the tags of its buffers, so different tags have different buffers. */
    ghost predicate Keyed()
      reads this, buffers.Values
    {
      forall t :: t in buffers ==> buffers[t].Valid() && buffers[t].bizTag == t
    }

    ghost predicate Valid()
      reads this, repository, buffers.Values
    {
      Keyed() && forall t :: t in buffers ==> Quiet(World(t))
    }

    ghost function World(tag: string): TagWorld
      requires Keyed()
      reads this, repository, buffers.Values
    {
      if tag in buffers then Through(buffers[tag])
      else TagWorld(tag, NewBuffer(tag), repository.RowOf(tag), repository.CallsOf(tag))
    }

    /** The part of the world a goroutine sees that works on `buffer`. */
    ghost function Through(buffer: SegmentBuffer): TagWorld
      requires buffer.Valid()
      reads repository, buffer
    {
      TagWorld(buffer.bizTag, buffer.State(), repository.RowOf(buffer.bizTag), repository.CallsOf(buffer.bizTag))
    }

    constructor (repository: Repository)
      ensures Valid() && this.repository == repository && buffers == map[] && !initialized
    {
      this.repository := repository;
      buffers := map[];
      initialized := false;
    }

    /**
     Makes the cache hold exactly the given tags: buffers of other tags are deactivated and dropped,
     buffers of kept tags are left alone, and new tags get untouched buffers.
     */
    method SyncBizTags(tags: seq<string>)
      requires Keyed()
      modifies this, buffers.Values
      ensures Keyed() && initialized && buffers.Keys == set t | t in tags
      ensures forall t :: t in old(buffers) && t in tags ==>
        buffers[t] == old(buffers)[t] && buffers[t].State() == old(buffers[t].State())
      ensures forall t :: t in old(buffers) && t !in tags ==>
        old(buffers)[t].Valid() && old(buffers)[t].State() == Deactivate(old(buffers[t].State()))
      ensures forall t :: t in buffers && t !in old(buffers) ==>
        fresh(buffers[t]) && buffers[t].State() == NewBuffer(t)
    {
      var desired := set t | t in tags;
      DropOthers(desired);
      AddMissing(desired);
      initialized := true;
    }

    method DropOthers(desired: set<string>)
      requires Keyed()
      modifies this`buffers, buffers.Values
      ensures Keyed() && buffers.Keys == old(buffers.Keys) * desired
      ensures forall t :: t in buffers ==> buffers[t] == old(buffers)[t] && unchanged(buffers[t])
      ensures forall t :: t in old(buffers) && t !in desired ==>
        old(buffers)[t].Valid() && old(buffers)[t].State() == Deactivate(old(buffers[t].State()))
    {
      hide Deactivate;
      var others := set t | t in buffers && t !in desired :: buffers[t];
      DisableAll(others);
      buffers := map t | t in buffers && t in desired :: buffers[t];
    }

    method DisableAll(others: set<SegmentBuffer>)
      requires forall b :: b in others ==> b.Valid()
      modifies others
      ensures forall b :: b in others ==> b.Valid() && b.State() == Deactivate(old(b.State()))
    {
      var left := others;
      while left != {}
        invariant left <= others
        invariant forall b :: b in left ==> unchanged(b)
        invariant forall b :: b in others - left ==> b.Valid() && b.State() == Deactivate(old(b.State()))
        decreases left
      {
        var b :| b in left;
        b.Disable();
        left := left - {b};
      }
    }

    method AddMissing(desired: set<string>)
      requires Keyed() && buffers.Keys <= desired
      modifies this`buffers
      ensures Keyed() && buffers.Keys == desired
      ensures forall t :: t in old(buffers) ==> buffers[t] == old(buffers)[t]
      ensures forall t :: t in buffers && t !in old(buffers) ==>
        fresh(buffers[t]) && buffers[t].State() == NewBuffer(t)
    {
      var missing := desired - buffers.Keys;
      while missing != {}
        invariant Keyed() && missing <= desired && buffers.Keys == desired - missing
        invariant forall t :: t in old(buffers) ==> t in buffers && buffers[t] == old(buffers)[t]
        invariant forall t :: t in buffers && t !in old(buffers) ==>
          fresh(buffers[t]) && buffers[t].State() == NewBuffer(t)
        decreases missing
      {
        var t :| t in missing;
        var created := new SegmentBuffer(t);
        buffers := buffers[t := created];
        missing := missing - {t};
      }
    }

    method PreloadNext(buffer: SegmentBuffer)
      requires buffer.Valid()
      modifies buffer, repository
      ensures buffer.Valid() && Through(buffer) == Preload(repository.database, old(Through(buffer)))
      ensures forall t :: t != buffer.bizTag ==>
        repository.RowOf(t) == old(repository.RowOf(t)) && repository.CallsOf(t) == old(repository.CallsOf(t))
    {
      var started := buffer.StartLoading();
      if !started {
        return;
      }
      var r := repository.LoadSegmentRange(buffer.bizTag);
      match r
      case Err(_) => buffer.FinishLoading();
      case Ok(a) => buffer.Store(a);
    }

    method NextIDFrom(buffer: SegmentBuffer) returns (r: Result<int, Error>)
      requires buffer.Valid()
      modifies buffer, repository
      ensures buffer.Valid()
      ensures (Through(buffer), r) == DrawOne(repository.database, old(Through(buffer)))
      ensures forall t :: t != buffer.bizTag ==>
        repository.RowOf(t) == old(repository.RowOf(t)) && repository.CallsOf(t) == old(repository.CallsOf(t))
    {
      hide Preload;
      var out := buffer.Draw();
      if out.Drawn? {
        if out.shouldLoadNext {
          PreloadNext(buffer);
        }
        return Ok(out.id);
      }
      if out.Missing? {
        return Err(BizTagNotExists);
      }
      var loaded := repository.LoadSegmentRange(buffer.bizTag);
      if loaded.Err? {
        return Err(loaded.error);
      }
      buffer.Store(loaded.value);
      out := buffer.Draw();
      if !out.Drawn? {
        return Err(if out.Missing? then BizTagNotExists else SegmentsNotReady);
      }
      if out.shouldLoadNext {
        PreloadNext(buffer);
      }
      return Ok(out.id);
    }

    method GetOrInitializeBuffer(tag: string) returns (r: Result<SegmentBuffer, Error>)
      requires Keyed()
      modifies this, repository, buffers.Values
      ensures Keyed()
      ensures var (w, unprepared) := Prepare(repository.database, old(World(tag)));
              World(tag) == w && (unprepared.None? ==> r.Ok?) && (unprepared.Some? ==> r == Err(unprepared.value))
      ensures r.Ok? ==> tag in buffers && buffers[tag] == r.value
      ensures r.Err? && tag in buffers ==> buffers[tag].disabled
      ensures forall t :: t != tag ==>
        (t in buffers <==> t in old(buffers)) && (t in buffers ==> buffers[t] == old(buffers)[t])
      ensures tag in buffers ==> (tag in old(buffers) && buffers[tag] == old(buffers)[tag]) || fresh(buffers[tag])
      ensures forall t :: t in old(buffers) && t != tag ==> unchanged(old(buffers)[t])
      ensures forall t :: t != tag ==>
        repository.RowOf(t) == old(repository.RowOf(t)) && repository.CallsOf(t) == old(repository.CallsOf(t))
      ensures initialized == old(initialized)
    {
      hide LoadRow;
      if tag !in buffers {
        var created := new SegmentBuffer(tag);
        buffers := buffers[tag := created];
      }
      var buffer := buffers[tag];
      if buffer.initialized {
        return Ok(buffer);
      }
      var loaded := repository.LoadSegmentRange(tag);
      if loaded.Err? {
        if tag in buffers && buffers[tag] == buffer && !buffer.initialized {
          buffers := buffers - {tag};
        }
        return Err(loaded.error);
      }
      buffer.Initialize(loaded.value);
      if !buffer.initialized {
        return Err(BizTagNotExists);
      }
      return Ok(buffer);
    }

    /** Either all `count` IDs, or an error after which the IDs already drawn are not returned. */
    method AllocateSegmentIDs(tag: string, count: nat) returns (r: Result<seq<int>, Error>, ghost drawn: seq<int>)
      requires Valid()
      modifies this, repository, buffers.Values
      ensures Valid()
      ensures (World(tag), drawn, r) == Allocate(repository.database, old(World(tag)), count)
      ensures tag in buffers ==> buffers[tag].initialized
      ensures forall t :: t != tag ==> World(t) == old(World(t))
    {
      AllocateIsQuiet(repository.database, World(tag), count);
      assert forall w :: Quiet(w) ==> !w.buffer.disabled;
      hide Quiet, Allocate, Prepare;
      r, drawn := AllocateFrom(tag, count);
    }

    method AllocateFrom(tag: string, count: nat) returns (r: Result<seq<int>, Error>, ghost drawn: seq<int>)
      requires Keyed()
      modifies this, repository, buffers.Values
      ensures Keyed()
      ensures (World(tag), drawn, r) == Allocate(repository.database, old(World(tag)), count)
      ensures forall t :: t != tag ==> World(t) == old(World(t))
      ensures forall t :: t in buffers && t != tag ==> t in old(buffers)
      ensures Prepare(repository.database, old(World(tag))).1.Some? && tag in buffers ==> buffers[tag].disabled
    {
      hide DrawOne, Preload, TryDraw, Load, Prepare, DrawBatch, DrawStep;
      ghost var prepared := Prepare(repository.database, World(tag)).0;
      var got := GetOrInitializeBuffer(tag);
      if got.Err? {
        return Err(got.error), [];
      }
      var buffer := got.value;
      assert Through(buffer) == prepared;
      r, drawn := DrawLoop(buffer, count);
      assert forall t :: t != tag && t in buffers ==> buffers[t] != buffer;
    }

    method DrawLoop(buffer: SegmentBuffer, count: nat) returns (r: Result<seq<int>, Error>, ghost drawn: seq<int>)
      requires buffer.Valid()
      modifies buffer, repository
      ensures buffer.Valid()
      ensures var (w, ids, failed) := DrawBatch(repository.database, old(Through(buffer)), count);
              && Through(buffer) == w && drawn == ids
              && r == (if failed.Some? then Err(failed.value) else Ok(ids))
      ensures forall t :: t != buffer.bizTag ==>
        repository.RowOf(t) == old(repository.RowOf(t)) && repository.CallsOf(t) == old(repository.CallsOf(t))
    {
      hide DrawOne;
      var ids := [];
      ghost var start := Through(buffer);
      ghost var step := DrawStep(repository.database);
      for i := 0 to count
        invariant buffer.Valid()
        invariant (Through(buffer), ids, None) == Repeat(step, start, i)
        invariant forall t :: t != buffer.bizTag ==>
          repository.RowOf(t) == old(repository.RowOf(t)) && repository.CallsOf(t) == old(repository.CallsOf(t))
      {
        ghost var before := Through(buffer);
        var one := NextIDFrom(buffer);
        assert (Through(buffer), one) == step(before);
        if one.Err? {
          FailureEndsRun(step, start, i + 1, count);
          return Err(one.error), ids;
        }
        ids := ids + [one.value];
      }
      return Ok(ids), ids;
    }
  }
}
