/**
 How much rest `ClusterProtocol.ClusterUniqueness` needs, exactly, and when a promotion may lose the
 outcome of its release: for anything less there is a run that repeats an ID.
 */
module ClusterLimits {
  import opened Wrappers
  import opened Sequences
  import opened SnowflakeLayout
  import opened SnowflakeGenerator
  import opened WorkerLeaseStore
  import opened WorkerLeaseManager
  import opened ClusterProtocol
  import Lease = LeaseProtocol
  import Service = SnowflakeService

  // ---------- runs, one step at a time ----------

  /** What a run has to respect: the rest and, if `seen`, that promotions learn of their release. */
  datatype Rules = Rules(rest: Rest, seen: bool)

  ghost predicate Respects(cfg: Config, rules: Rules, s: State, evs: seq<Event>) {
    RestsKept(cfg, rules.rest, s, evs) && (rules.seen ==> ReleasesSeen(cfg, s, evs))
  }

  ghost predicate LeadsTo(cfg: Config, rules: Rules, s0: State, evs: seq<Event>, s: State) {
    Respects(cfg, rules, s0, evs) && Run(cfg, s0, evs) == s
  }

  ghost predicate Reaches(cfg: Config, rules: Rules, s0: State, s: State) {
    exists evs :: LeadsTo(cfg, rules, s0, evs, s)
  }

  lemma ReachesItself(cfg: Config, rules: Rules, s: State)
    ensures Reaches(cfg, rules, s, s)
  {
    assert LeadsTo(cfg, rules, s, [], s);
  }

  ghost predicate Allowed(cfg: Config, rules: Rules, s: State, ev: Event) {
    Enabled(cfg, s, ev) && RestKept(cfg, rules.rest, s, ev) && (rules.seen ==> ReleaseSeen(cfg, s, ev))
  }

  lemma ReachesNext(cfg: Config, rules: Rules, s0: State, s: State, ev: Event)
    requires Reaches(cfg, rules, s0, s) && Allowed(cfg, rules, s, ev)
    ensures Enabled(cfg, s, ev) && Reaches(cfg, rules, s0, Do(cfg, s, ev))
  {
    hide Enabled, RestKept, ReleaseSeen, Do;
    var evs :| LeadsTo(cfg, rules, s0, evs, s);
    assert (evs + [ev])[..|evs + [ev]| - 1] == evs;
    assert LeadsTo(cfg, rules, s0, evs + [ev], Do(cfg, s, ev));
  }

  function StartOne(id: string, now: int): Event { LeaseEvent(Lease.Start(id, 0, Lease.Answers(now, Fine))) }

  function ServeAt(id: string, t: int): Event { Serve(id, Reading(t, t), Reading(t, t), Reply(0, Fine, {})) }

  /** Worker 0 goes to the instance when it is free and has rested. */
  lemma StartTakesZero(cfg: Config, rules: Rules, s: State, id: string)
    requires id !in s.lease.running && 0 in s.lease.table
    requires Free(s.lease.table[0], s.lease.now, cfg.lease.Timeout())
    requires Rested(s, 0, if s.lease.table[0].active then rules.rest.expired else rules.rest.released)
    ensures Allowed(cfg, rules, s, StartOne(id, s.lease.now))
    ensures var s' := Do(cfg, s, StartOne(id, s.lease.now));
            var inst := Lease.Instance(Manager(id, 0, [], true, 0), s.lease.now + cfg.lease.gap);
            && s'.lease == Lease.State(s.lease.now, s.lease.table[0 := LeaseRow(true, id, s.lease.now)],
                                       s.lease.running[id := inst])
            && s'.members == s.members[id := Member(NewGenerator(0), s.lease.now)]
            && s'.issued == s.issued && s'.lastUse == s.lastUse
  {
    Lease.StartTakesZero(cfg.lease, s.lease, id);
    hide Startup;
  }

  /** A call whose clock has moved past the generator issues sequence 0 of the millisecond read. */
  lemma ServeFirstOfMillisecond(cfg: Config, rules: Rules, s: State, id: string, t: int)
    requires id in s.lease.running && id in s.members && s.lease.running[id].mgr.valid
    requires t > s.members[id].gen.lastTimestamp && Near(cfg, t, s.lease.now)
    ensures Allowed(cfg, rules, s, ServeAt(id, t))
    ensures var s' := Do(cfg, s, ServeAt(id, t));
            var g := s.members[id].gen;
            && s'.lease == s.lease
            && s'.issued == s.issued + [Issue(id, Ticket(t, g.worker, 0))]
            && s'.members == s.members[id := s.members[id].(gen := GenState(g.worker, t, 0))]
            && s'.lastUse == s.lastUse[g.worker := s.lease.now]
  {
    assert !MustWait(s.members[id].gen, t);
    assert s.lease.running[id := s.lease.running[id].(mgr := s.lease.running[id].mgr)] == s.lease.running;
  }

  lemma WaitUntil(cfg: Config, rules: Rules, s: State, until: int)
    requires s.lease.now <= until && forall j :: j in s.lease.running ==> until <= s.lease.running[j].deadline
    ensures var ev := LeaseEvent(Lease.Wait(until));
            Allowed(cfg, rules, s, ev) && Do(cfg, s, ev) == s.(lease := s.lease.(now := until))
  {
  }

  lemma SameTicketSameId(cfg: Config, s: State, i: nat, j: nat)
    requires i < j < |s.issued| && s.issued[i].ticket == s.issued[j].ticket
    requires cfg.datacenter(s.issued[i].id) == cfg.datacenter(s.issued[j].id)
    ensures !Distinct(IdsIssued(cfg, s))
  {
    hide IdOf;
    assert IdsIssued(cfg, s)[i] == IdsIssued(cfg, s)[j];
  }

  lemma ExactReading(cfg: Config, t: int)
    requires cfg.skew >= 0
    ensures Near(cfg, t, t * MILLISECOND)
  {
  }

  /** Two instances whose generators are on the same worker issue in the same millisecond. */
  lemma BothServe(cfg: Config, rules: Rules, s0: State, s: State, a: string, b: string, t: int) returns (s': State)
    requires Reaches(cfg, rules, s0, s) && a != b && cfg.datacenter(a) == cfg.datacenter(b)
    requires a in s.lease.running && a in s.members && s.lease.running[a].mgr.valid
    requires b in s.lease.running && b in s.members && s.lease.running[b].mgr.valid
    requires s.members[a].gen.worker == s.members[b].gen.worker && Near(cfg, t, s.lease.now)
    requires s.members[a].gen.lastTimestamp < t && s.members[b].gen.lastTimestamp < t
    ensures Reaches(cfg, rules, s0, s') && !Distinct(IdsIssued(cfg, s'))
    ensures var w := s.members[a].gen.worker;
            s'.issued == s.issued + [Issue(a, Ticket(t, w, 0))] + [Issue(b, Ticket(t, w, 0))]
  {
    hide Reaches, Allowed, Do, Near;
    ServeFirstOfMillisecond(cfg, rules, s, a, t);
    ReachesNext(cfg, rules, s0, s, ServeAt(a, t));
    var s1 := Do(cfg, s, ServeAt(a, t));
    ServeFirstOfMillisecond(cfg, rules, s1, b, t);
    ReachesNext(cfg, rules, s0, s1, ServeAt(b, t));
    s' := Do(cfg, s1, ServeAt(b, t));
    SameTicketSameId(cfg, s', |s.issued|, |s.issued| + 1);
  }

  // ---------- an instance alone on worker 0 ----------

  /** The instance has held worker 0 since `since` and has issued nothing. */
  ghost predicate HoldsZero(s: State, id: string, since: int) {
    && s.lease.table == map[0 := LeaseRow(true, id, since)] && s.lease.running.Keys == {id}
    && s.members == map[id := Member(NewGenerator(0), since)] && s.issued == [] && s.lastUse == map[]
    && var m := s.lease.running[id].mgr; m.owner == id && m.valid && m.primary == 0 && m.backups == []
  }

  lemma StartAlone(cfg: Config, rules: Rules, since: int, id: string) returns (s: State)
    ensures Reaches(cfg, rules, Initial(since, Lease.ONE_WORKER), s) && s.lease.now == since && HoldsZero(s, id, since)
    ensures s.lease.running[id] == Lease.Instance(Manager(id, 0, [], true, 0), since + cfg.lease.gap)
  {
    hide EffectiveTimeout;
    var s0 := Initial(since, Lease.ONE_WORKER);
    ReachesItself(cfg, rules, s0);
    StartTakesZero(cfg, rules, s0, id);
    ReachesNext(cfg, rules, s0, s0, StartOne(id, since));
    s := Do(cfg, s0, StartOne(id, since));
  }

  /** Up to two gaps later it still believes in its lease, though no renewal has succeeded. */
  lemma HoldOn(cfg: Config, rules: Rules, since: int, id: string, h: int) returns (s: State)
    requires cfg.lease.gap >= 1 && 0 <= h <= 2 * cfg.lease.gap
    ensures Reaches(cfg, rules, Initial(since, Lease.ONE_WORKER), s)
    ensures s.lease.now == since + h && HoldsZero(s, id, since)
  {
    hide EffectiveTimeout, Reaches, Allowed;
    var s0 := Initial(since, Lease.ONE_WORKER);
    s := StartAlone(cfg, rules, since, id);
    var tick := since + cfg.lease.gap;
    if since + h <= tick {
      WaitUntil(cfg, rules, s, since + h);
      ReachesNext(cfg, rules, s0, s, LeaseEvent(Lease.Wait(since + h)));
      s := Do(cfg, s, LeaseEvent(Lease.Wait(since + h)));
    } else {
      WaitUntil(cfg, rules, s, tick);
      ReachesNext(cfg, rules, s0, s, LeaseEvent(Lease.Wait(tick)));
      var s1 := Do(cfg, s, LeaseEvent(Lease.Wait(tick)));
      MissTick(cfg, rules, s1, id, since);
      var miss := LeaseEvent(Lease.Renewal(id, Lease.Answers(tick, FailBefore)));
      ReachesNext(cfg, rules, s0, s1, miss);
      var s2 := Do(cfg, s1, miss);
      WaitUntil(cfg, rules, s2, since + h);
      ReachesNext(cfg, rules, s0, s2, LeaseEvent(Lease.Wait(since + h)));
      s := Do(cfg, s2, LeaseEvent(Lease.Wait(since + h)));
    }
  }

  lemma MissTick(cfg: Config, rules: Rules, s: State, id: string, since: int)
    requires HoldsZero(s, id, since) && s.lease.running[id].mgr.renewFail == 0
    ensures var miss := LeaseEvent(Lease.Renewal(id, Lease.Answers(s.lease.now, FailBefore)));
            && Allowed(cfg, rules, s, miss) && HoldsZero(Do(cfg, s, miss), id, since)
            && Do(cfg, s, miss).lease.now == s.lease.now
            && Do(cfg, s, miss).lease.running[id].deadline == s.lease.now + cfg.lease.gap
  {
    Lease.NoneRenewed(s.lease.table, [], id, s.lease.now, 1);
  }

  /** It issues one ID and is gone, closed or crashed. */
  lemma ServeAndLeave(cfg: Config, rules: Rules, s0: State, s: State, id: string, since: int, t: int,
                      closes: bool) returns (s': State)
    requires Reaches(cfg, rules, s0, s) && HoldsZero(s, id, since) && t >= 0 && Near(cfg, t, s.lease.now)
    ensures Reaches(cfg, rules, s0, s')
    ensures s'.lease.now == s.lease.now && s'.lease.running == map[] && s'.members == map[]
    ensures s'.issued == [Issue(id, Ticket(t, 0, 0))] && s'.lastUse == map[0 := s.lease.now]
    ensures 0 in s'.lease.table && s'.lease.table[0].active == !closes
    ensures !closes ==> s'.lease.table == s.lease.table
  {
    hide EffectiveTimeout, Reaches, Allowed;
    ServeFirstOfMillisecond(cfg, rules, s, id, t);
    ReachesNext(cfg, rules, s0, s, ServeAt(id, t));
    var s1 := Do(cfg, s, ServeAt(id, t));
    var db := Lease.Answers(s.lease.now, Fine);
    var leave := LeaseEvent(if closes then Lease.Stop(id, db) else Lease.Crash(id));
    LeavingIsAllowed(cfg, rules, s1, id, db);
    StopFreesZero(s1.lease.running[id].mgr, s1.lease.table, db);
    ReachesNext(cfg, rules, s0, s1, leave);
    s' := Do(cfg, s1, leave);
    assert s'.lease.running == map[] && s'.members == map[];
  }

  lemma LeavingIsAllowed(cfg: Config, rules: Rules, s: State, id: string, db: Database)
    requires id in s.lease.running
    ensures Allowed(cfg, rules, s, LeaseEvent(Lease.Stop(id, db)))
    ensures Allowed(cfg, rules, s, LeaseEvent(Lease.Crash(id)))
  {
  }

  lemma StopFreesZero(m: Manager, t: Table, db: Database)
    requires m.primary == 0 && m.backups == [] && Holds(t, 0, m.owner) && db(0).fault.Fine?
    ensures var t' := Close(m, t, db, 0); 0 in t' && !t'[0].active
  {
    var ws := Workers(m);
    assert ws == [0] && ws[..0] == [];
    assert ReleaseAll(t, [], m.owner, db, 0) == t;
  }

  /** Somebody waits, takes worker 0, and issues an ID in the same millisecond. */
  lemma NextOneRepeats(cfg: Config, rules: Rules, s0: State, s: State, a: string, b: string, t: int, until: int)
    returns (s': State)
    requires Reaches(cfg, rules, s0, s) && s.lease.running == map[] && s.members == map[] && 0 in s.lease.table
    requires s.issued == [Issue(a, Ticket(t, 0, 0))] && s.lastUse == map[0 := s.lease.now]
    requires cfg.datacenter(a) == cfg.datacenter(b) && t >= 0
    requires s.lease.now <= until && Near(cfg, t, until) && Free(s.lease.table[0], until, cfg.lease.Timeout())
    requires s.lease.now + (if s.lease.table[0].active then rules.rest.expired else rules.rest.released) < until
    ensures Repeats(cfg, rules, s0, s', t)
  {
    hide EffectiveTimeout, Reaches, Allowed;
    WaitUntil(cfg, rules, s, until);
    ReachesNext(cfg, rules, s0, s, LeaseEvent(Lease.Wait(until)));
    var s1 := Do(cfg, s, LeaseEvent(Lease.Wait(until)));
    StartTakesZero(cfg, rules, s1, b);
    ReachesNext(cfg, rules, s0, s1, StartOne(b, until));
    var s2 := Do(cfg, s1, StartOne(b, until));
    ServeFirstOfMillisecond(cfg, rules, s2, b, t);
    ReachesNext(cfg, rules, s0, s2, ServeAt(b, t));
    s' := Do(cfg, s2, ServeAt(b, t));
    SameTicketSameId(cfg, s', 0, 1);
  }

  /** The state is reached with an ID repeated, all IDs being of millisecond `t`. */
  ghost predicate Repeats(cfg: Config, rules: Rules, s0: State, s: State, t: int) {
    && Reaches(cfg, rules, s0, s) && !Distinct(IdsIssued(cfg, s))
    && forall k :: 0 <= k < |s.issued| ==> s.issued[k].ticket.timestamp == t
  }

  // ---------- three ways to repeat an ID ----------

  /** A closes, and the released worker rests less than the spread of the clocks. */
  lemma ShortRestRepeats(cfg: Config, rules: Rules, a: string, b: string, t: int) returns (s0: State, s: State)
    requires cfg.lease.gap >= 1 && cfg.skew >= 0 && t >= 0 && cfg.datacenter(a) == cfg.datacenter(b)
    requires rules.rest.released < Spread(cfg)
    ensures s0 == Initial(t * MILLISECOND - cfg.skew, Lease.ONE_WORKER) && Repeats(cfg, rules, s0, s, t)
  {
    hide EffectiveTimeout;
    var slow := t * MILLISECOND - cfg.skew;
    s0 := Initial(slow, Lease.ONE_WORKER);
    s := StartAlone(cfg, rules, slow, a);
    s := ServeAndLeave(cfg, rules, s0, s, a, slow, t, true);
    var until := slow + if rules.rest.released < 0 then 0 else rules.rest.released + 1;
    s := NextOneRepeats(cfg, rules, s0, s, a, b, t, until);
  }

  /** A misses a tick, issues at the last moment and crashes; its lease runs out too early. */
  lemma ShortExpiryRepeats(cfg: Config, rules: Rules, a: string, b: string, t: int) returns (s0: State, s: State)
    requires cfg.lease.gap >= 1 && cfg.skew >= 0 && t >= 0 && cfg.datacenter(a) == cfg.datacenter(b)
    requires rules.rest.expired < Spread(cfg)
    requires 2 * cfg.lease.gap <= cfg.lease.Timeout() < 2 * cfg.lease.gap + Spread(cfg)
    ensures s0 == Initial(t * MILLISECOND - cfg.skew - 2 * cfg.lease.gap, Lease.ONE_WORKER)
    ensures Repeats(cfg, rules, s0, s, t)
  {
    hide EffectiveTimeout;
    var slow := t * MILLISECOND - cfg.skew;
    var since := slow - 2 * cfg.lease.gap;
    s0 := Initial(since, Lease.ONE_WORKER);
    s := HoldOn(cfg, rules, since, a, 2 * cfg.lease.gap);
    s := ServeAndLeave(cfg, rules, s0, s, a, since, t, false);
    var ranOut, rested := since + cfg.lease.Timeout() + 1, slow + rules.rest.expired + 1;
    s := NextOneRepeats(cfg, rules, s0, s, a, b, t, if ranOut < rested then rested else ranOut);
  }

  /** The lease runs out while A still believes in it; A and B issue in the same millisecond. */
  lemma ShortTimeoutRepeats(cfg: Config, rules: Rules, a: string, b: string, t: int) returns (s0: State, s: State)
    requires cfg.lease.gap >= 1 && cfg.skew >= 0 && t >= 0 && a != b && cfg.datacenter(a) == cfg.datacenter(b)
    requires cfg.lease.Timeout() < 2 * cfg.lease.gap
    ensures s0.lease.table == Lease.ONE_WORKER && s0 == Initial(s0.lease.now, Lease.ONE_WORKER)
    ensures Repeats(cfg, rules, s0, s, t)
  {
    hide EffectiveTimeout, Reaches, Allowed;
    var h := if cfg.lease.Timeout() < 0 then 0 else cfg.lease.Timeout() + 1;
    var now := t * MILLISECOND;
    s0 := Initial(now - h, Lease.ONE_WORKER);
    var s1 := HoldOn(cfg, rules, now - h, a, h);
    StartTakesZero(cfg, rules, s1, b);
    ReachesNext(cfg, rules, s0, s1, StartOne(b, now));
    ExactReading(cfg, t);
    s := BothServe(cfg, rules, s0, Do(cfg, s1, StartOne(b, now)), a, b, t);
  }

  // ---------- the exact conditions ----------

  /** In every run that respects the rules, from any table and time, all IDs are different. */
  ghost predicate AlwaysDistinct(cfg: Config, rules: Rules, from: int -> bool) {
    forall now, table, evs ::
      from(now) && SchemaRows(table) && Respects(cfg, rules, Initial(now, table), evs)
      && WithinWindow(cfg, Run(cfg, Initial(now, table), evs)) ==>
        Distinct(IdsIssued(cfg, Run(cfg, Initial(now, table), evs)))
  }

  /** Two instances share a datacenter; the rest is what every deployment has. */
  ghost predicate Deployed(cfg: Config, a: string, b: string) {
    && cfg.lease.gap >= 1 && cfg.skew >= 0 && cfg.epoch >= 0 && DatacentersInRange(cfg)
    && a != b && cfg.datacenter(a) == cfg.datacenter(b)
  }

  lemma RepeatBreaksDistinct(cfg: Config, rules: Rules, from: int -> bool, s0: State, s: State, t: int)
    requires Repeats(cfg, rules, s0, s, t) && InWindow(t - cfg.epoch)
    requires s0 == Initial(s0.lease.now, s0.lease.table) && from(s0.lease.now) && SchemaRows(s0.lease.table)
    ensures !AlwaysDistinct(cfg, rules, from)
  {
    hide Run, Respects, IdsIssued;
    var evs :| LeadsTo(cfg, rules, s0, evs, s);
    assert WithinWindow(cfg, s);
  }

  /**
   Cross-instance uniqueness, exactly. If every promotion learns of its release, then IDs are distinct
   in all runs that keep the rest if and only if leases exclude each other (two gaps fit the timeout),
   a released worker rests longer than any two clocks can read the same millisecond, which is two skews
   and a millisecond, and an expired one does so too or the timeout has room for that and two gaps.
   */
  lemma ClusterUniquenessExact(cfg: Config, rest: Rest, a: string, b: string)
    requires Deployed(cfg, a, b)
    ensures LongEnough(cfg, rest) <==> AlwaysDistinct(cfg, Rules(rest, true), now => true)
  {
    hide EffectiveTimeout, Repeats, Distinct;
    var rules, from, t := Rules(rest, true), (now: int) => true, cfg.epoch;
    if LongEnough(cfg, rest) {
      hide Run, WithinWindow, LongEnough, DatacentersInRange;
      assert Sound(cfg) by { LongEnoughIsSound(cfg, rest); }
      forall now, table, evs | SchemaRows(table) && Respects(cfg, rules, Initial(now, table), evs)
                               && WithinWindow(cfg, Run(cfg, Initial(now, table), evs))
        ensures Distinct(IdsIssued(cfg, Run(cfg, Initial(now, table), evs)))
      {
        ClusterUniqueness(cfg, rest, now, table, evs);
      }
    } else {
      var s0, s;
      if cfg.lease.Timeout() < 2 * cfg.lease.gap {
        s0, s := ShortTimeoutRepeats(cfg, rules, a, b, t);
      } else if rest.released < Spread(cfg) {
        s0, s := ShortRestRepeats(cfg, rules, a, b, t);
      } else {
        s0, s := ShortExpiryRepeats(cfg, rules, a, b, t);
      }
      RepeatBreaksDistinct(cfg, rules, from, s0, s, t);
    }
  }

  lemma LongEnoughIsSound(cfg: Config, rest: Rest)
    requires LongEnough(cfg, rest) && cfg.lease.gap >= 1 && cfg.skew >= 0
    ensures Sound(cfg)
  {
  }

  // ---------- losing the outcome of a release ----------

  /** No generator is ahead of what its clock may read later, and no reading is before 1970. */
  ghost predicate NeverBehind(cfg: Config, s: State) {
    && s.lease.now >= 0
    && forall id :: id in s.members ==> s.members[id].gen.lastTimestamp * MILLISECOND <= s.lease.now + cfg.skew
  }

  lemma CallIsNotBehind(cfg: Config, s: State, id: string, first: Reading, second: Reading, reply: Reply)
    requires cfg.skew == 0 && NeverBehind(cfg, s)
    requires Enabled(cfg, s, Serve(id, first, second, reply))
    ensures !Service.Promotes(ServiceOf(s, id), first)
    ensures NeverBehind(cfg, DoServe(s, id, first, second, reply))
  {
    var g := s.members[id].gen;
    assert first.now >= g.lastTimestamp;
    Service.ServeByCases(ServiceOf(s, id), first, second, s.lease.table, reply);
    var g' := Generate(g, first).0;
    assert g'.lastTimestamp in {g.lastTimestamp, first.now, first.after};
    hide Generate, Service.Serve;
  }

  /** Exact clocks never run backwards, so no promotion takes place. */
  lemma {:induction false} ExactClocksNeverPromote(cfg: Config, s0: State, evs: seq<Event>)
    requires cfg.skew == 0 && NeverBehind(cfg, s0)
    ensures NeverBehind(cfg, Run(cfg, s0, evs)) && ReleasesSeen(cfg, s0, evs)
  {
    if evs != [] {
      var front, ev := evs[..|evs| - 1], evs[|evs| - 1];
      ExactClocksNeverPromote(cfg, s0, front);
      var s := Run(cfg, s0, front);
      if Enabled(cfg, s, ev) && ev.Serve? {
        CallIsNotBehind(cfg, s, ev.id, ev.first, ev.second, ev.reply);
      }
      hide DoServe, Run, ReleaseSeen;
    }
  }

  const TWO_WORKERS: Table := map[0 := LeaseRow(false, "", 0), 1 := LeaseRow(false, "", 0)]

  function BothHeld(id: string, now: int): Table { map[0 := LeaseRow(true, id, now), 1 := LeaseRow(true, id, now)] }

  /** An instance that takes both workers of a table with two. */
  lemma StartTakesBoth(cfg: Config, rules: Rules, now: int, id: string)
    requires cfg.lease.Timeout() >= 0
    ensures var s, start := Initial(now, TWO_WORKERS), LeaseEvent(Lease.Start(id, 1, Lease.Answers(now, Fine)));
            && Allowed(cfg, rules, s, start)
            && Do(cfg, s, start) ==
               State(Lease.State(now, BothHeld(id, now),
                                 map[id := Lease.Instance(Manager(id, 0, [1], true, 0), now + cfg.lease.gap)]),
                     map[id := Member(NewGenerator(0), now)], [], map[])
  {
    hide EffectiveTimeout;
    var t, db, timeout := TWO_WORKERS, Lease.Answers(now, Fine), cfg.lease.Timeout();
    assert FirstFree(t, 0, timeout, db(0)) == Some(0);
    var t1 := t[0 := LeaseRow(true, id, now)];
    assert Acquire(t, id, timeout, db(0)) == (t1, Some(0));
    assert FirstFree(t1, 0, timeout, db(1)) == Some(1) by {
      assert FirstFree(t1, 1, timeout, db(1)) == Some(1);
    }
    var t2 := t1[1 := LeaseRow(true, id, now)];
    assert t2 == BothHeld(id, now);
    assert AcquireBackups(t1, id, timeout, 0, db, 1) == (t1, [], false);
    assert Acquire(t1, id, timeout, db(1)) == (t2, Some(1)) && [] + [1] == [1];
    assert AcquireBackups(t1, id, timeout, 1, db, 1) == (t2, [1], false);
    assert Startup(t, id, timeout, 1, db, 0) == (t2, Some(Manager(id, 0, [1], true, 0)));
  }

  /** The manager works on worker 1, the generator still on worker 0, last used at `used` for millisecond `t`. */
  ghost predicate Split(s: State, id: string, t: int, used: int, row: LeaseRow) {
    && s.lease.running.Keys == {id} && s.lease.running[id].mgr == Manager(id, 1, [], true, 0)
    && s.lease.now <= s.lease.running[id].deadline && Holds(s.lease.table, 1, id)
    && 0 in s.lease.table && s.lease.table[0] == row
    && s.members.Keys == {id} && s.members[id].gen == GenState(0, t, 0)
    && s.issued == [Issue(id, Ticket(t, 0, 0))] && s.lastUse == map[0 := used]
  }

  /** What the lost release has made of row 0: released if it took effect, and otherwise as it was. */
  function RowAfter(fault: Fault, id: string, since: int): LeaseRow {
    if fault.FailBefore? then LeaseRow(true, id, since) else LeaseRow(false, "", since)
  }

  /** At the turn of a millisecond the clock is seen to go back, and the release of the old primary reports an error. */
  lemma LoseRelease(cfg: Config, rules: Rules, id: string, t: int, fault: Fault) returns (s0: State, s: State)
    requires cfg.lease.gap >= 1 && cfg.lease.Timeout() >= 0 && cfg.skew >= 1
    requires t >= 0 && !fault.Fine? && !rules.seen
    ensures var now := t * MILLISECOND;
            && s0 == Initial(now, TWO_WORKERS) && Reaches(cfg, rules, s0, s) && s.lease.now == now
            && Split(s, id, t, now, RowAfter(fault, id, now))
  {
    hide EffectiveTimeout, Reaches, Allowed, Do;
    var now := t * MILLISECOND;
    s0 := Initial(now, TWO_WORKERS);
    ReachesItself(cfg, rules, s0);
    StartTakesBoth(cfg, rules, now, id);
    var start := LeaseEvent(Lease.Start(id, 1, Lease.Answers(now, Fine)));
    ReachesNext(cfg, rules, s0, s0, start);
    var s1 := Do(cfg, s0, start);
    ServeFirstOfMillisecond(cfg, rules, s1, id, t);
    ReachesNext(cfg, rules, s0, s1, ServeAt(id, t));
    var s2 := Do(cfg, s1, ServeAt(id, t));
    var back := Reading(t - 1, t - 1);
    LostPromotion(cfg, rules, s2, id, back, Reply(now, fault, {}));
    ReachesNext(cfg, rules, s0, s2, Serve(id, back, back, Reply(now, fault, {})));
    s := Do(cfg, s2, Serve(id, back, back, Reply(now, fault, {})));
    assert [1][1..] == [];
  }

  /** The manager is promoted and the generator is not. */
  lemma LostPromotion(cfg: Config, rules: Rules, s: State, id: string, back: Reading, reply: Reply)
    requires id in s.lease.running && id in s.members && s.lease.running[id].mgr.valid && !reply.fault.Fine?
    requires s.lease.running[id].mgr.backups != [] && back.now < s.members[id].gen.lastTimestamp
    requires AllNear(cfg, back, s.lease.now) && !rules.seen
    ensures Allowed(cfg, rules, s, Serve(id, back, back, reply))
    ensures var s', m := Do(cfg, s, Serve(id, back, back, reply)), s.lease.running[id].mgr;
            && s'.lease.running == s.lease.running[id := s.lease.running[id].(mgr := Promote(m))]
            && s'.lease.table == Release(s.lease.table, m.primary, m.owner, reply).0
            && s'.lease.now == s.lease.now && s'.members == s.members
            && s'.issued == s.issued && s'.lastUse == s.lastUse
  {
    Service.ServeByCases(ServiceOf(s, id), back, back, s.lease.table, reply);
    hide Service.Serve;
    assert s.members[id := s.members[id].(gen := s.members[id].gen)] == s.members;
  }

  /** Time passes while the instance renews its lease on worker 1. */
  lemma KeepRenewing(cfg: Config, rules: Rules, s0: State, s: State, id: string, t: int, used: int, row: LeaseRow,
                     until: int) returns (s': State)
    requires cfg.lease.gap >= 1 && s.lease.now <= until
    requires Reaches(cfg, rules, s0, s) && Split(s, id, t, used, row)
    ensures Reaches(cfg, rules, s0, s') && Split(s', id, t, used, row) && s'.lease.now == until
    decreases if s.lease.running[id].deadline < until then until - s.lease.running[id].deadline else 0
  {
    hide EffectiveTimeout, Reaches, Allowed;
    var deadline := s.lease.running[id].deadline;
    if until <= deadline {
      WaitUntil(cfg, rules, s, until);
      ReachesNext(cfg, rules, s0, s, LeaseEvent(Lease.Wait(until)));
      s' := Do(cfg, s, LeaseEvent(Lease.Wait(until)));
    } else {
      WaitUntil(cfg, rules, s, deadline);
      ReachesNext(cfg, rules, s0, s, LeaseEvent(Lease.Wait(deadline)));
      var s1 := Do(cfg, s, LeaseEvent(Lease.Wait(deadline)));
      var renew := LeaseEvent(Lease.Renewal(id, Lease.Answers(deadline, Fine)));
      RenewalKeepsSplit(cfg, rules, s1, id, t, used, row);
      ReachesNext(cfg, rules, s0, s1, renew);
      s' := KeepRenewing(cfg, rules, s0, Do(cfg, s1, renew), id, t, used, row, until);
    }
  }

  lemma RenewalKeepsSplit(cfg: Config, rules: Rules, s: State, id: string, t: int, used: int, row: LeaseRow)
    requires Split(s, id, t, used, row) && cfg.lease.gap >= 1
    ensures var renew := LeaseEvent(Lease.Renewal(id, Lease.Answers(s.lease.now, Fine)));
            && Allowed(cfg, rules, s, renew) && Split(Do(cfg, s, renew), id, t, used, row)
            && Do(cfg, s, renew).lease.running[id].deadline == s.lease.now + cfg.lease.gap
            && Do(cfg, s, renew).lease.now == s.lease.now
  {
    var db := Lease.Answers(s.lease.now, Fine);
    assert RenewBackups(Renew(s.lease.table, 1, id, db(0)).0, [], id, db, 1).1 == [];
  }

  /** The first millisecond after `t` at which a lease or a rest of length `rest` that began before `t` is over. */
  function MillisecondAfter(t: int, rest: int): int { if rest < 0 then t + 1 else t + 1 + rest / MILLISECOND }

  /** Another instance takes worker 0, and both issue in the same millisecond. */
  lemma SplitRepeats(cfg: Config, rules: Rules, s0: State, s: State, a: string, b: string, t: int, used: int,
                     row: LeaseRow, later: int) returns (s': State)
    requires Reaches(cfg, rules, s0, s) && Split(s, a, t, used, row) && s.lease.now == later * MILLISECOND
    requires 0 <= t < later && cfg.skew >= 0 && a != b && cfg.datacenter(a) == cfg.datacenter(b)
    requires Free(row, s.lease.now, cfg.lease.Timeout())
    requires used + (if row.active then rules.rest.expired else rules.rest.released) < s.lease.now
    ensures Reaches(cfg, rules, s0, s') && !Distinct(IdsIssued(cfg, s'))
    ensures forall k :: 0 <= k < |s'.issued| ==> t <= s'.issued[k].ticket.timestamp <= later
  {
    hide EffectiveTimeout, Reaches, Allowed;
    hide Do, Near;
    StartTakesZero(cfg, rules, s, b);
    ReachesNext(cfg, rules, s0, s, StartOne(b, s.lease.now));
    ExactReading(cfg, later);
    s' := BothServe(cfg, rules, s0, Do(cfg, s, StartOne(b, s.lease.now)), a, b, later);
  }

  /** How long worker 0 stays out of reach: released, it has to rest; otherwise its lease has to run out, too. */
  function OutOfReach(cfg: Config, rest: Rest, fault: Fault): int {
    if !fault.FailBefore? then rest.released
    else if rest.expired < cfg.lease.Timeout() then cfg.lease.Timeout() else rest.expired
  }

  /**
   A lost release repeats an ID, whether or not it took effect: the generator goes on issuing on the old
   worker, and another instance takes it once it has rested, or once its lease has run out.
   */
  lemma LostReleaseRepeats(cfg: Config, rules: Rules, a: string, b: string, t: int, fault: Fault)
    returns (s0: State, s: State)
    requires cfg.lease.gap >= 1 && cfg.lease.Timeout() >= 0 && cfg.skew >= 1
    requires t >= 0 && !fault.Fine? && !rules.seen && a != b && cfg.datacenter(a) == cfg.datacenter(b)
    ensures s0 == Initial(t * MILLISECOND, TWO_WORKERS)
    ensures Reaches(cfg, rules, s0, s) && !Distinct(IdsIssued(cfg, s))
    ensures forall k :: 0 <= k < |s.issued| ==>
      t <= s.issued[k].ticket.timestamp <= MillisecondAfter(t, OutOfReach(cfg, rules.rest, fault))
  {
    hide EffectiveTimeout, Reaches, Distinct, IdsIssued;
    var now, later := t * MILLISECOND, MillisecondAfter(t, OutOfReach(cfg, rules.rest, fault));
    assert now + OutOfReach(cfg, rules.rest, fault) < later * MILLISECOND && t < later;
    hide MillisecondAfter;
    s0, s := LoseRelease(cfg, rules, a, t, fault);
    s := KeepRenewing(cfg, rules, s0, s, a, t, now, RowAfter(fault, a, now), later * MILLISECOND);
    s := SplitRepeats(cfg, rules, s0, s, a, b, t, now, RowAfter(fault, a, now), later);
  }

  /**
   Losing the outcome of releases does no harm exactly when all clocks are exact, because a clock that is
   off by a nanosecond can be seen to run backwards, at the turn of a millisecond. Times are after 1970,
   and the rest of released workers is less than 69 years.
   */
  lemma LostReleasesExact(cfg: Config, rest: Rest, a: string, b: string)
    requires Deployed(cfg, a, b) && LongEnough(cfg, rest) && InWindow(MillisecondAfter(1, rest.released))
    ensures cfg.skew == 0 <==> AlwaysDistinct(cfg, Rules(rest, false), now => now >= 0)
  {
    hide EffectiveTimeout;
    var rules, from := Rules(rest, false), (now: int) => now >= 0;
    if cfg.skew == 0 {
      hide Run, WithinWindow, LongEnough, DatacentersInRange, Distinct;
      assert Sound(cfg) by { LongEnoughIsSound(cfg, rest); }
      forall now, table, evs | from(now) && SchemaRows(table) && Respects(cfg, rules, Initial(now, table), evs)
                               && WithinWindow(cfg, Run(cfg, Initial(now, table), evs))
        ensures Distinct(IdsIssued(cfg, Run(cfg, Initial(now, table), evs)))
      {
        ExactClocksNeverPromote(cfg, Initial(now, table), evs);
        ClusterUniqueness(cfg, rest, now, table, evs);
      }
    } else {
      assert cfg.lease.Timeout() >= 0;
      hide LongEnough, IdsIssued, Distinct, Run, Respects;
      var s0, s := LostReleaseRepeats(cfg, rules, a, b, cfg.epoch + 1, FailAfter);
      var evs :| LeadsTo(cfg, rules, s0, evs, s);
      assert WithinWindow(cfg, s);
    }
  }
}
