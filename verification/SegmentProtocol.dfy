/**
 All interleavings of any number of instances and goroutines on the row of one tag.

 Every statement on the row and every lock-protected buffer method is one atomic step. A range that a
 goroutine has loaded but not yet stored is in flight. Any step may happen on any buffer at any time,
 which includes every order in which the source's goroutines can take them: racing initialisations,
 racing slow paths, late preloads, deactivation while a load is under way, goroutines that die.
 */
module SegmentProtocol {
  import opened Wrappers
  import opened Sequences
  import opened SegmentDomain
  import opened SegmentRepository

  datatype State = State(
    row: Row,
    buffers: map<nat, BufferState>,          // every buffer object any instance ever created
    inFlight: map<nat, SegmentAllocation>,   // ranges held by goroutines, by load number
    loads: nat,
    issued: seq<int>,
    discarded: set<int>,
    delivered: set<int>,                     // the IDs of all ranges whose replies arrived
    lost: set<int>)                          // the IDs of those whose replies did not

  datatype Event =
    | Create(buffer: nat)
    | LoadStatement(reply: LoadReply)
    | Initialize(buffer: nat, load: nat)
    | Store(buffer: nat, load: nat)
    | Abandon(load: nat)
    | Draw(buffer: nat)
    | Start(buffer: nat)
    | Finish(buffer: nat)
    | Disable(buffer: nat)

  function Initial(row: Row): State { State(row, map[], map[], 0, [], {}, {}, {}) }

  function Ids(lo: int, hi: int): (r: set<int>)
    ensures forall x :: x in r <==> lo <= x < hi
  {
    IntervalMembers(lo, hi);
    set x | x in Interval(lo, hi)
  }

  function IdsOf(a: SegmentAllocation): set<int> { Ids(a.StartId(), a.maxId) }

  function IdsLeft(s: SegmentState): set<int> { Ids(s.next, s.max) }

  predicate Enabled(s: State, ev: Event) {
    match ev
    case Create(b) => b !in s.buffers
    case LoadStatement(_) => true
    case Initialize(b, l) => b in s.buffers && l in s.inFlight
    case Store(b, l) => b in s.buffers && l in s.inFlight
    case Abandon(l) => l in s.inFlight
    case Draw(b) => b in s.buffers
    case Start(b) => b in s.buffers
    case Finish(b) => b in s.buffers
    case Disable(b) => b in s.buffers
  }

  function DoLoad(s: State, reply: LoadReply): State {
    var (row, r) := LoadRow("", Some(s.row), reply);
    var s1 := s.(row := row.value, loads := s.loads + 1);
    if r.Ok? then s1.(inFlight := s.inFlight[s.loads := r.value], delivered := s.delivered + IdsOf(r.value))
    else s1.(lost := s.lost + Ids(s.row.maxId, row.value.maxId))
  }

  function DoInitialize(s: State, b: nat, l: nat): State
    requires b in s.buffers && l in s.inFlight
  {
    var a, was := s.inFlight[l], s.buffers[b];
    s.(buffers := s.buffers[b := InitializeCurrent(was, a)], inFlight := s.inFlight - {l},
       discarded := s.discarded + if was.disabled then IdsOf(a) else IdsLeft(Current(was)))
  }

  function DoStore(s: State, b: nat, l: nat): State
    requires b in s.buffers && l in s.inFlight
  {
    var a, was := s.inFlight[l], s.buffers[b];
    s.(buffers := s.buffers[b := StoreNext(was, a)], inFlight := s.inFlight - {l},
       discarded := s.discarded + if was.disabled then IdsOf(a) else IdsLeft(Next(was)))
  }

  function DoDraw(s: State, b: nat): State
    requires b in s.buffers
  {
    var (b', out) := NextId(s.buffers[b]);
    s.(buffers := s.buffers[b := b'], issued := if out.Drawn? then s.issued + [out.id] else s.issued)
  }

  function DoDisable(s: State, b: nat): State
    requires b in s.buffers
  {
    var was := s.buffers[b];
    s.(buffers := s.buffers[b := Deactivate(was)],
       discarded := s.discarded + IdsLeft(Current(was)) + IdsLeft(Next(was)))
  }

  function Do(s: State, ev: Event): State
    requires Enabled(s, ev)
  {
    match ev
    case Create(b) => s.(buffers := s.buffers[b := NewBuffer("")])
    case LoadStatement(reply) => DoLoad(s, reply)
    case Initialize(b, l) => DoInitialize(s, b, l)
    case Store(b, l) => DoStore(s, b, l)
    case Abandon(l) => s.(inFlight := s.inFlight - {l}, discarded := s.discarded + IdsOf(s.inFlight[l]))
    case Draw(b) => DoDraw(s, b)
    case Start(b) => s.(buffers := s.buffers[b := StartLoadingNext(s.buffers[b])])
    case Finish(b) => s.(buffers := s.buffers[b := FinishLoadingNext(s.buffers[b])])
    case Disable(b) => DoDisable(s, b)
  }

  /** Any schedule: events that are not possible when their turn comes are skipped. */
  function Run(s: State, evs: seq<Event>): State {
    if evs == [] then s
    else
      var s1 := Run(s, evs[..|evs| - 1]);
      var ev := evs[|evs| - 1];
      if Enabled(s1, ev) then Do(s1, ev) else s1
  }

  // ---------- where an ID can be ----------

  datatype Holder = Issued | Discarded | InFlight(load: nat) | CurrentOf(buffer: nat) | NextOf(buffer: nat)

  ghost predicate Holds(s: State, h: Holder, x: int) {
    match h
    case Issued => x in s.issued
    case Discarded => x in s.discarded
    case InFlight(l) => l in s.inFlight && s.inFlight[l].Holds(x)
    case CurrentOf(b) => b in s.buffers && Current(s.buffers[b]).Holds(x)
    case NextOf(b) => b in s.buffers && Next(s.buffers[b]).Holds(x)
  }

  /** Every ID delivered is in exactly one place, and no other ID is anywhere. */
  ghost predicate Conserved(s: State) {
    && (forall h, x :: Holds(s, h, x) ==> x in s.delivered)
    && (forall h, k, x :: Holds(s, h, x) && Holds(s, k, x) ==> h == k)
    && (forall x :: x in s.delivered ==> exists h :: Holds(s, h, x))
  }

  ghost predicate Inv(s: State) {
    && Conserved(s)
    && Distinct(s.issued)
    && (forall b :: b in s.buffers ==> WellFormed(s.buffers[b]))
    && (forall l :: l in s.inFlight ==> l < s.loads)
  }

  /** The step relocates the IDs `dest` is defined on and leaves all others where they are. */
  ghost predicate Relocates(s: State, s': State, ids: iset<int>, dest: int -> Holder) {
    && (forall x :: x in s'.delivered <==> x in s.delivered || x in ids)
    && (forall h, x :: HoldsAfter(s, s', ids, dest, h, x))
  }

  ghost predicate HoldsAfter(s: State, s': State, ids: iset<int>, dest: int -> Holder, h: Holder, x: int) {
    Holds(s', h, x) <==> if x in ids then h == dest(x) else Holds(s, h, x)
  }

  lemma RelocationConserves(s: State, s': State, ids: iset<int>, dest: int -> Holder)
    requires Conserved(s) && Relocates(s, s', ids, dest)
    ensures Conserved(s')
  {
    forall h, x ensures Holds(s', h, x) <==> if x in ids then h == dest(x) else Holds(s, h, x) {
      assert HoldsAfter(s, s', ids, dest, h, x);
    }
    forall x | x in s'.delivered ensures exists h :: Holds(s', h, x) {
      if x in ids {
        assert Holds(s', dest(x), x);
      } else {
        var h :| Holds(s, h, x);
        assert Holds(s', h, x);
      }
    }
  }

  /** The load brings no ID that was delivered before. */
  ghost predicate BringsNew(s: State, ev: Event) {
    ev.LoadStatement? && ev.reply.Applied? ==> Ids(s.row.maxId, s.row.maxId + ev.reply.step) !! s.delivered
  }

  // ---------- one lemma a step ----------

  lemma LoadStep(s: State, reply: LoadReply)
    requires Inv(s) && BringsNew(s, LoadStatement(reply))
    ensures Inv(DoLoad(s, reply))
  {
    var s' := DoLoad(s, reply);
    var ids := iset x | x in s'.delivered && x !in s.delivered;
    var dest := (x: int) => InFlight(s.loads);
    forall h, x ensures HoldsAfter(s, s', ids, dest, h, x) {
      assert x in ids ==> !Holds(s, h, x);
    }
    RelocationConserves(s, s', ids, dest);
  }

  /** What storing a loaded range in slot `slot` does to the places of IDs. */
  lemma FillSlot(s: State, s': State, l: nat, slot: Holder)
    requires Inv(s) && l in s.inFlight
    requires s'.delivered == s.delivered && s'.issued == s.issued
    requires s'.inFlight == s.inFlight - {l}
    requires slot.CurrentOf? || slot.NextOf? || slot.Discarded?
    requires forall x :: x in s'.discarded <==>
      x in s.discarded || (slot.Discarded? && Holds(s, InFlight(l), x)) || (!slot.Discarded? && Holds(s, slot, x))
    requires forall h: Holder, x: int :: h.CurrentOf? || h.NextOf? ==>
      (Holds(s', h, x) <==> if h == slot then Holds(s, InFlight(l), x) else Holds(s, h, x))
    ensures Conserved(s')
  {
    var loaded := iset x | Holds(s, InFlight(l), x);
    var lost := iset x | Holds(s, slot, x);
    var ids := loaded + lost;
    var dest := x => if x in loaded then slot else Discarded;
    forall h, x ensures HoldsAfter(s, s', ids, dest, h, x) {
      if x in loaded {
        assert Holds(s, h, x) <==> h == InFlight(l);
      } else if x in lost {
        assert Holds(s, h, x) <==> h == slot;
      }
      if h.Issued? || (h.InFlight? && h.load != l) {
        assert Holds(s', h, x) == Holds(s, h, x);
      }
    }
    RelocationConserves(s, s', ids, dest);
  }

  lemma InitializeStep(s: State, b: nat, l: nat)
    requires Inv(s) && b in s.buffers && l in s.inFlight
    ensures Inv(DoInitialize(s, b, l))
  {
    var s' := DoInitialize(s, b, l);
    var was := s.buffers[b];
    if !was.disabled {
      assert Current(s'.buffers[b]) == Fresh(s.inFlight[l]) && Next(s'.buffers[b]) == Next(was);
    }
    ApplyKeepsWellFormed(was, OpInitialize(s.inFlight[l]));
    hide Conserved, WellFormed, Distinct, InitializeCurrent;
    FillSlot(s, s', l, if was.disabled then Discarded else CurrentOf(b));
  }

  lemma StoreStep(s: State, b: nat, l: nat)
    requires Inv(s) && b in s.buffers && l in s.inFlight
    ensures Inv(DoStore(s, b, l))
  {
    var s' := DoStore(s, b, l);
    var was := s.buffers[b];
    if !was.disabled {
      assert Next(s'.buffers[b]) == Fresh(s.inFlight[l]) && Current(s'.buffers[b]) == Current(was);
    }
    ApplyKeepsWellFormed(was, OpStore(s.inFlight[l]));
    hide Conserved, WellFormed, Distinct, StoreNext;
    FillSlot(s, s', l, if was.disabled then Discarded else NextOf(b));
  }

  lemma AbandonStep(s: State, l: nat)
    requires Inv(s) && l in s.inFlight
    ensures Inv(Do(s, Abandon(l)))
  {
    FillSlot(s, Do(s, Abandon(l)), l, Discarded);
  }

  lemma DisableStep(s: State, b: nat)
    requires Inv(s) && b in s.buffers
    ensures Inv(DoDisable(s, b))
  {
    var s' := DoDisable(s, b);
    var ids := iset x | Holds(s, CurrentOf(b), x) || Holds(s, NextOf(b), x);
    var dest := (x: int) => Discarded;
    forall h, x ensures HoldsAfter(s, s', ids, dest, h, x) {
      assert x in ids ==> (Holds(s, h, x) <==> if Holds(s, CurrentOf(b), x) then h == CurrentOf(b) else h == NextOf(b));
    }
    RelocationConserves(s, s', ids, dest);
  }

  /** A draw moves one ID from its slot to the issued list; a switch renames the slots on the way. */
  lemma DrawStep(s: State, b: nat)
    requires Inv(s) && b in s.buffers
    ensures Inv(DoDraw(s, b))
  {
    var was := s.buffers[b];
    var s' := DoDraw(s, b);
    if was.initialized && !was.disabled && !Current(was).Exhausted() {
      DrawFromCurrent(s, b);
    } else if was.initialized && !was.disabled && was.nextReady {
      DrawAfterSwitch(s, b);
    } else {
      assert s'.buffers == s.buffers;
      assert s' == s;
    }
  }

  lemma DrawFromCurrent(s: State, b: nat)
    requires Inv(s) && b in s.buffers
    requires var was := s.buffers[b]; was.initialized && !was.disabled && !Current(was).Exhausted()
    ensures Inv(DoDraw(s, b))
  {
    var s' := DoDraw(s, b);
    var was := s.buffers[b];
    var id := Current(was).next;
    assert Next(Take(was)) == Next(was);
    assert Holds(s, CurrentOf(b), id) && !Holds(s, Issued, id);
    var dest := (x: int) => Issued;
    forall h, x ensures HoldsAfter(s, s', iset{id}, dest, h, x) {
      assert x == id ==> (Holds(s, h, x) <==> h == CurrentOf(b));
    }
    RelocationConserves(s, s', iset{id}, dest);
  }

  /** A switch renames the slots, the one that becomes next being empty. */
  lemma SwitchStep(s: State, b: nat)
    requires Inv(s) && b in s.buffers && !s.buffers[b].disabled
    requires var was := s.buffers[b]; was.initialized && Current(was).Exhausted() && was.nextReady
    ensures Inv(s.(buffers := s.buffers[b := Switch(s.buffers[b])]))
  {
    var was := s.buffers[b];
    var s' := s.(buffers := s.buffers[b := Switch(was)]);
    SwitchFacts(was);
    var ids := iset x | Holds(s, NextOf(b), x);
    var dest := (x: int) => CurrentOf(b);
    forall h, x ensures HoldsAfter(s, s', ids, dest, h, x) {
      assert x in ids ==> (Holds(s, h, x) <==> h == NextOf(b));
    }
    RelocationConserves(s, s', ids, dest);
  }

  lemma DrawAfterSwitch(s: State, b: nat)
    requires Inv(s) && b in s.buffers
    requires var was := s.buffers[b]; was.initialized && !was.disabled && Current(was).Exhausted() && was.nextReady
    ensures Inv(DoDraw(s, b))
  {
    var was := s.buffers[b];
    var switched := s.(buffers := s.buffers[b := Switch(was)]);
    SwitchStep(s, b);
    hide Inv;
    if Current(Switch(was)).Exhausted() {
      assert DoDraw(s, b) == switched;
    } else {
      DrawFromCurrent(switched, b);
      assert DoDraw(s, b).buffers == DoDraw(switched, b).buffers;
    }
  }

  lemma SamePlaces(s: State, s': State)
    requires Conserved(s) && s'.delivered == s.delivered
    requires forall h, x :: Holds(s', h, x) <==> Holds(s, h, x)
    ensures Conserved(s')
  {
    forall x | x in s'.delivered ensures exists h :: Holds(s', h, x) {
      assert x in s.delivered;
    }
  }

  lemma FlagStep(s: State, b: nat, b': BufferState)
    requires Inv(s) && b in s.buffers && WellFormed(b')
    requires Current(b') == Current(s.buffers[b]) && Next(b') == Next(s.buffers[b])
    ensures Inv(s.(buffers := s.buffers[b := b']))
  {
    SamePlaces(s, s.(buffers := s.buffers[b := b']));
  }

  lemma CreateStep(s: State, b: nat)
    requires Inv(s) && b !in s.buffers
    ensures Inv(Do(s, Create(b)))
  {
    SamePlaces(s, Do(s, Create(b)));
  }

  lemma StepKeepsInv(s: State, ev: Event)
    requires Inv(s) && Enabled(s, ev) && BringsNew(s, ev)
    ensures Inv(Do(s, ev))
  {
    hide Inv;
    match ev
    case Create(b) => CreateStep(s, b);
    case LoadStatement(reply) => LoadStep(s, reply);
    case Initialize(b, l) => InitializeStep(s, b, l);
    case Store(b, l) => StoreStep(s, b, l);
    case Abandon(l) => AbandonStep(s, l);
    case Draw(b) => DrawStep(s, b);
    case Start(b) => WellFormedIn(s, b); FlagStep(s, b, StartLoadingNext(s.buffers[b]));
    case Finish(b) => WellFormedIn(s, b); FlagStep(s, b, FinishLoadingNext(s.buffers[b]));
    case Disable(b) => DisableStep(s, b);
  }

  lemma WellFormedIn(s: State, b: nat)
    requires Inv(s) && b in s.buffers
    ensures WellFormed(s.buffers[b])
  {
  }

  // ---------- the ranges of a run ----------

  /** The answers to the load statements of a run, in order. */
  function Replies(evs: seq<Event>): seq<LoadReply> {
    if evs == [] then []
    else
      var ev := evs[|evs| - 1];
      Replies(evs[..|evs| - 1]) + if ev.LoadStatement? then [ev.reply] else []
  }

  /** `max_id` after statements with these answers. */
  function MaxAfter(start: int, rs: seq<LoadReply>): int {
    if rs == [] then start else MaxAfter(start, rs[..|rs| - 1]) + StepOf(rs[|rs| - 1])
  }

  /** The IDs that the answer number `i` delivers. */
  function RangeIds(start: int, rs: seq<LoadReply>, i: nat): set<int>
    requires i < |rs|
  {
    var lo := MaxAfter(start, rs[..i]);
    if rs[i].Applied? then Ids(lo, lo + rs[i].step) else {}
  }

  ghost predicate RangesDisjoint(start: int, rs: seq<LoadReply>) {
    forall i, j :: 0 <= i < j < |rs| ==> RangeIds(start, rs, i) !! RangeIds(start, rs, j)
  }

  /** The row, the number of loads and the IDs delivered are those of the answers alone. */
  ghost predicate Follows(s: State, start: int, rs: seq<LoadReply>) {
    && s.row.maxId == MaxAfter(start, rs) && s.loads == |rs|
    && forall x :: x in s.delivered <==> exists i :: 0 <= i < |rs| && x in RangeIds(start, rs, i)
  }

  lemma RangeOfPrefix(start: int, rs: seq<LoadReply>, n: nat, i: nat)
    requires i < n <= |rs|
    ensures RangeIds(start, rs[..n], i) == RangeIds(start, rs, i)
  {
    assert rs[..n][..i] == rs[..i];
  }

  lemma FollowsLoad(s: State, start: int, rs: seq<LoadReply>, reply: LoadReply)
    requires Follows(s, start, rs)
    ensures Follows(DoLoad(s, reply), start, rs + [reply])
    ensures RangesDisjoint(start, rs + [reply]) ==> BringsNew(s, LoadStatement(reply))
  {
    var all, n := rs + [reply], |rs|;
    var s' := DoLoad(s, reply);
    assert all[..n] == rs;
    forall i | 0 <= i < n ensures RangeIds(start, all, i) == RangeIds(start, rs, i) {
      RangeOfPrefix(start, all, n, i);
    }
    forall x ensures x in s'.delivered <==> exists i :: 0 <= i <= n && x in RangeIds(start, all, i) {
      if x in s'.delivered {
        if x in RangeIds(start, all, n) {
        } else {
          var i :| 0 <= i < n && x in RangeIds(start, rs, i);
          assert x in RangeIds(start, all, i);
        }
      }
    }
    if RangesDisjoint(start, all) {
      forall x | x in s.delivered ensures x !in RangeIds(start, all, n) {
        var i :| 0 <= i < n && x in RangeIds(start, rs, i);
        assert RangeIds(start, all, i) !! RangeIds(start, all, n);
      }
    }
  }

  lemma OnlyLoadsMove(s: State, ev: Event)
    requires Enabled(s, ev) && !ev.LoadStatement?
    ensures var s' := Do(s, ev); s'.row == s.row && s'.loads == s.loads && s'.delivered == s.delivered
  {
  }

  lemma {:induction false} RunFollows(row: Row, evs: seq<Event>)
    ensures Follows(Run(Initial(row), evs), row.maxId, Replies(evs))
  {
    if evs != [] {
      hide Do, Follows;
      var front, ev := evs[..|evs| - 1], evs[|evs| - 1];
      RunFollows(row, front);
      var s := Run(Initial(row), front);
      if ev.LoadStatement? {
        FollowsLoad(s, row.maxId, Replies(front), ev.reply);
        LoadIsDone(s, ev.reply);
      } else {
        assert Replies(front) + [] == Replies(front);
        if Enabled(s, ev) {
          OnlyLoadsMove(s, ev);
          FollowsSame(s, Do(s, ev), row.maxId, Replies(front));
        }
      }
    }
  }

  lemma LoadIsDone(s: State, reply: LoadReply)
    ensures Do(s, LoadStatement(reply)) == DoLoad(s, reply)
  {
  }

  lemma FollowsSame(s: State, s': State, start: int, rs: seq<LoadReply>)
    requires Follows(s, start, rs) && s'.row == s.row && s'.loads == s.loads && s'.delivered == s.delivered
    ensures Follows(s', start, rs)
  {
  }

  /** How many of the statements were committed. */
  function Commits(rs: seq<LoadReply>): nat {
    if rs == [] then 0 else Commits(rs[..|rs| - 1]) + if rs[|rs| - 1].Refused? then 0 else 1
  }

  /** The row's version counts the statements that moved it, and nothing else. */
  lemma {:induction false} VersionCountsCommits(row: Row, evs: seq<Event>)
    ensures Run(Initial(row), evs).row.version == row.version + Commits(Replies(evs))
  {
    if evs != [] {
      hide Do;
      var front, ev := evs[..|evs| - 1], evs[|evs| - 1];
      VersionCountsCommits(row, front);
      var s := Run(Initial(row), front);
      if ev.LoadStatement? {
        assert Replies(evs)[..|Replies(front)|] == Replies(front);
        LoadIsDone(s, ev.reply);
      } else {
        assert Replies(front) + [] == Replies(front);
        if Enabled(s, ev) {
          OnlyLoadsMove(s, ev);
        }
      }
    }
  }

  lemma {:induction false} RunKeepsInv(row: Row, evs: seq<Event>)
    requires RangesDisjoint(row.maxId, Replies(evs))
    ensures Inv(Run(Initial(row), evs))
  {
    if evs != [] {
      hide Inv, BringsNew, Follows;
      var front, ev := evs[..|evs| - 1], evs[|evs| - 1];
      DisjointPrefix(row.maxId, Replies(evs), |Replies(front)|);
      assert Replies(evs)[..|Replies(front)|] == Replies(front);
      RunKeepsInv(row, front);
      RunFollows(row, front);
      var s := Run(Initial(row), front);
      if ev.LoadStatement? {
        FollowsLoad(s, row.maxId, Replies(front), ev.reply);
      } else {
        OnlyLoadsBring(s, ev);
      }
      if Enabled(s, ev) {
        StepKeepsInv(s, ev);
      }
    }
  }

  lemma OnlyLoadsBring(s: State, ev: Event)
    requires !ev.LoadStatement?
    ensures BringsNew(s, ev)
  {
  }

  lemma DisjointPrefix(start: int, rs: seq<LoadReply>, n: nat)
    requires n <= |rs| && RangesDisjoint(start, rs)
    ensures RangesDisjoint(start, rs[..n])
  {
    forall i, j | 0 <= i < j < n ensures RangeIds(start, rs[..n], i) !! RangeIds(start, rs[..n], j) {
      RangeOfPrefix(start, rs, n, i);
      RangeOfPrefix(start, rs, n, j);
    }
  }

  // ---------- the two promises ----------

  /** If the ranges do not overlap, no ID is issued twice, and every issued ID is from one of the ranges. */
  lemma SegmentUniqueness(row: Row, evs: seq<Event>)
    requires RangesDisjoint(row.maxId, Replies(evs))
    ensures var s, rs := Run(Initial(row), evs), Replies(evs);
            && Distinct(s.issued)
            && forall x :: x in s.issued ==> exists i :: 0 <= i < |rs| && x in RangeIds(row.maxId, rs, i)
  {
    RunKeepsInv(row, evs);
    RunFollows(row, evs);
    var s := Run(Initial(row), evs);
    assert forall x :: x in s.issued ==> Holds(s, Issued, x);
  }

  /**
   Conservation. If the ranges do not overlap, the IDs delivered are the disjoint union of those issued,
   left in current slots, left in next slots, in flight and discarded; nothing vanishes and nothing is
   shared. A next slot that is not ready contributes nothing.
   */
  lemma SegmentConservation(row: Row, evs: seq<Event>, x: int)
    requires RangesDisjoint(row.maxId, Replies(evs))
    ensures var s, rs := Run(Initial(row), evs), Replies(evs);
            && ((exists i :: 0 <= i < |rs| && x in RangeIds(row.maxId, rs, i)) <==> exists h :: Holds(s, h, x))
            && (forall h, k :: Holds(s, h, x) && Holds(s, k, x) ==> h == k)
            && (forall b :: Holds(s, NextOf(b), x) ==> s.buffers[b].nextReady)
  {
    RunKeepsInv(row, evs);
    RunFollows(row, evs);
    var s := Run(Initial(row), evs);
    hide Run;
    assert x in s.delivered <==> exists h :: Holds(s, h, x);
  }

  // ---------- steps that are not negative ----------

  ghost predicate NoNegativeStep(rs: seq<LoadReply>) { forall i :: 0 <= i < |rs| ==> StepOf(rs[i]) >= 0 }

  /** Without negative steps the ranges follow each other and cannot overlap. */
  lemma {:induction false} NoNegativeStepIsDisjoint(start: int, rs: seq<LoadReply>)
    requires NoNegativeStep(rs)
    ensures RangesDisjoint(start, rs) && start <= MaxAfter(start, rs)
    ensures forall i, x :: 0 <= i < |rs| && x in RangeIds(start, rs, i) ==> start <= x < MaxAfter(start, rs)
  {
    if rs != [] {
      var n := |rs| - 1;
      NoNegativeStepIsDisjoint(start, rs[..n]);
      forall i | 0 <= i < n ensures RangeIds(start, rs[..n], i) == RangeIds(start, rs, i) {
        RangeOfPrefix(start, rs, n, i);
      }
      forall i, j | 0 <= i < j < |rs| ensures RangeIds(start, rs, i) !! RangeIds(start, rs, j) {
        if j < n {
          assert RangeIds(start, rs[..n], i) !! RangeIds(start, rs[..n], j);
        }
      }
    }
  }

  /** Where no step is negative, the row has moved exactly through the IDs delivered and the IDs lost. */
  lemma {:induction false} RowIsDeliveredOrLost(row: Row, evs: seq<Event>)
    requires NoNegativeStep(Replies(evs))
    ensures var s := Run(Initial(row), evs);
            && s.delivered !! s.lost
            && forall x :: row.maxId <= x < s.row.maxId <==> x in s.delivered || x in s.lost
    ensures row.maxId <= Run(Initial(row), evs).row.maxId
  {
    if evs != [] {
      var front, ev := evs[..|evs| - 1], evs[|evs| - 1];
      assert Replies(evs)[..|Replies(front)|] == Replies(front);
      assert forall i :: 0 <= i < |Replies(front)| ==> Replies(front)[i] == Replies(evs)[i];
      RowIsDeliveredOrLost(row, front);
      if ev.LoadStatement? {
        assert Replies(evs)[|Replies(front)|] == ev.reply;
      }
    }
  }

  /** Then every ID the row has moved through is issued, cached, in flight, discarded or lost, and only one of these. */
  lemma RowConservation(row: Row, evs: seq<Event>, x: int)
    requires NoNegativeStep(Replies(evs))
    ensures var s := Run(Initial(row), evs);
            && Distinct(s.issued)
            && (row.maxId <= x < s.row.maxId <==> x in s.lost || exists h :: Holds(s, h, x))
            && (x in s.lost ==> forall h :: !Holds(s, h, x))
            && (forall h, k :: Holds(s, h, x) && Holds(s, k, x) ==> h == k)
  {
    NoNegativeStepIsDisjoint(row.maxId, Replies(evs));
    RunKeepsInv(row, evs);
    RowIsDeliveredOrLost(row, evs);
    hide Run, Replies, RangesDisjoint;
  }

  // ---------- the condition is exact ----------

  lemma RunSnoc(s: State, evs: seq<Event>, ev: Event)
    requires Enabled(Run(s, evs), ev)
    ensures Run(s, evs + [ev]) == Do(Run(s, evs), ev)
  {
    assert (evs + [ev])[..|evs + [ev]| - 1] == evs;
  }

  /** Some run with these answers ends in `s`. */
  ghost predicate Reached(row: Row, rs: seq<LoadReply>, s: State) {
    exists evs :: Replies(evs) == rs && Run(Initial(row), evs) == s
  }

  lemma ReachedNext(row: Row, rs: seq<LoadReply>, s: State, ev: Event)
    requires Reached(row, rs, s) && Enabled(s, ev)
    ensures Reached(row, if ev.LoadStatement? then rs + [ev.reply] else rs, Do(s, ev))
  {
    hide Do;
    var evs :| Replies(evs) == rs && Run(Initial(row), evs) == s;
    RunSnoc(Initial(row), evs, ev);
    assert (evs + [ev])[..|evs + [ev]| - 1] == evs && rs + [] == rs;
  }

  /** First all loads: every range delivered is in flight, under its number. */
  lemma {:induction false} LoadEverything(row: Row, rs: seq<LoadReply>) returns (s: State)
    ensures Reached(row, rs, s) && s.buffers == map[] && s.issued == [] && s.loads == |rs|
    ensures s.row.maxId == MaxAfter(row.maxId, rs)
    ensures forall i :: 0 <= i < |rs| && rs[i].Applied? ==>
      i in s.inFlight && IdsOf(s.inFlight[i]) == RangeIds(row.maxId, rs, i)
    ensures forall l :: l in s.inFlight ==> l < |rs|
  {
    if rs == [] {
      s := Initial(row);
      assert Replies([]) == [] && Run(Initial(row), []) == s;
    } else {
      var n := |rs| - 1;
      var s1 := LoadEverything(row, rs[..n]);
      ReachedNext(row, rs[..n], s1, LoadStatement(rs[n]));
      assert rs[..n] + [rs[n]] == rs;
      s := DoLoad(s1, rs[n]);
      forall i | 0 <= i < |rs| && rs[i].Applied?
        ensures i in s.inFlight && IdsOf(s.inFlight[i]) == RangeIds(row.maxId, rs, i)
      {
        if i < n {
          RangeOfPrefix(row.maxId, rs, n, i);
        }
      }
    }
  }

  /** A new buffer on a range in flight. */
  ghost predicate Serving(s: State, b: nat, lo: int, hi: int) {
    b in s.buffers && s.buffers[b].initialized && !s.buffers[b].disabled && Current(s.buffers[b]).next == lo
    && Current(s.buffers[b]).max == hi
  }

  lemma ServeRange(row: Row, rs: seq<LoadReply>, s: State, b: nat, l: nat) returns (s': State)
    requires Reached(row, rs, s) && b !in s.buffers && l in s.inFlight
    ensures Reached(row, rs, s') && s'.inFlight == s.inFlight - {l} && s'.issued == s.issued
    ensures Serving(s', b, s.inFlight[l].StartId(), s.inFlight[l].maxId)
    ensures s'.buffers.Keys == s.buffers.Keys + {b} && !s'.buffers[b].nextReady
  {
    hide Reached;
    ReachedNext(row, rs, s, Create(b));
    var s1 := Do(s, Create(b));
    ReachedNext(row, rs, s1, Initialize(b, l));
    s' := Do(s1, Initialize(b, l));
  }

  /** Drawing until an ID of the current range is out. */
  lemma DrawUpTo(row: Row, rs: seq<LoadReply>, s: State, b: nat, lo: int, hi: int, x: int) returns (s': State)
    requires Reached(row, rs, s) && Serving(s, b, lo, hi) && lo <= x < hi
    ensures Reached(row, rs, s') && s'.inFlight == s.inFlight && s'.buffers.Keys == s.buffers.Keys
    ensures s.issued <= s'.issued && x in s'.issued[|s.issued|..]
    decreases x - lo
  {
    hide Reached;
    ReachedNext(row, rs, s, Draw(b));
    var s1 := Do(s, Draw(b));
    assert s1.issued == s.issued + [lo] && Serving(s1, b, lo + 1, hi);
    if x == lo {
      s' := s1;
      assert s'.issued[|s.issued|..] == [x];
    } else {
      hide Do, DoDraw, Serving;
      s' := DrawUpTo(row, rs, s1, b, lo + 1, hi, x);
      assert s'.issued[|s1.issued|..] == s'.issued[|s.issued|..][1..];
    }
  }

  lemma CommonId(a: set<int>, b: set<int>) returns (x: int)
    requires !(a !! b)
    ensures x in a && x in b
  {
    if forall y :: y in a ==> y !in b {
      assert false;
    }
    x :| x in a && x in b;
  }

  /** Two overlapping ranges, served from two buffers, issue a common ID twice. */
  lemma OverlapRepeats(row: Row, rs: seq<LoadReply>, i: nat, j: nat, x: int) returns (s: State)
    requires i < j < |rs| && x in RangeIds(row.maxId, rs, i) && x in RangeIds(row.maxId, rs, j)
    ensures Reached(row, rs, s) && !Distinct(s.issued)
  {
    var s0 := LoadEverything(row, rs);
    assert rs[i].Applied? && rs[j].Applied?;
    assert s0.inFlight[i].StartId() <= x < s0.inFlight[i].maxId && s0.inFlight[j].StartId() <= x < s0.inFlight[j].maxId;
    hide Reached, Run, RangeIds;
    var s1 := ServeRange(row, rs, s0, 0, i);
    var s2 := DrawUpTo(row, rs, s1, 0, s0.inFlight[i].StartId(), s0.inFlight[i].maxId, x);
    var s3 := ServeRange(row, rs, s2, 1, j);
    s := DrawUpTo(row, rs, s3, 1, s0.inFlight[j].StartId(), s0.inFlight[j].maxId, x);
    IssuedTwice(s2.issued, s.issued, x);
  }

  lemma IssuedTwice(before: seq<int>, all: seq<int>, x: int)
    requires before <= all && x in before && x in all[|before|..]
    ensures !Distinct(all)
  {
    var p :| 0 <= p < |before| && before[p] == x;
    var rest := all[|before|..];
    var q :| 0 <= q < |rest| && rest[q] == x;
    assert all[p] == x && all[|before| + q] == x;
  }

  /**
   For given answers of the database, every interleaving issues distinct IDs exactly when the ranges
   they deliver do not overlap.
   */
  lemma SegmentUniquenessExact(row: Row, rs: seq<LoadReply>)
    ensures RangesDisjoint(row.maxId, rs) <==>
            forall evs :: Replies(evs) == rs ==> Distinct(Run(Initial(row), evs).issued)
  {
    hide Distinct, Run, Replies, RangeIds;
    if RangesDisjoint(row.maxId, rs) {
      forall evs | Replies(evs) == rs ensures Distinct(Run(Initial(row), evs).issued) {
        SegmentUniqueness(row, evs);
      }
    } else {
      var i, j :| 0 <= i < j < |rs| && !(RangeIds(row.maxId, rs, i) !! RangeIds(row.maxId, rs, j));
      var x := CommonId(RangeIds(row.maxId, rs, i), RangeIds(row.maxId, rs, j));
      var s := OverlapRepeats(row, rs, i, j, x);
      var evs :| Replies(evs) == rs && Run(Initial(row), evs) == s;
      assert !Distinct(Run(Initial(row), evs).issued);
    }
  }

  /** The schema does not forbid negative steps; going back over a range delivers its IDs again. */
  lemma NegativeStepRepeatsIds(row: Row, step: int)
    requires step >= 1
    ensures exists evs ::
      Replies(evs) == [Applied(step), Applied(-step), Applied(step)] && !Distinct(Run(Initial(row), evs).issued)
  {
    var rs := [Applied(step), Applied(-step), Applied(step)];
    assert rs[..2] == [Applied(step), Applied(-step)] && rs[..2][..1] == [Applied(step)] && rs[..2][..1][..0] == [];
    assert MaxAfter(row.maxId, [Applied(step)]) == row.maxId + step by { assert [Applied(step)][..0] == []; }
    assert MaxAfter(row.maxId, rs[..2]) == row.maxId && rs[..0] == [];
    assert row.maxId in RangeIds(row.maxId, rs, 0) && row.maxId in RangeIds(row.maxId, rs, 2);
    SegmentUniquenessExact(row, rs);
  }
}
