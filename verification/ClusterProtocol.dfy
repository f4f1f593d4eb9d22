/**
 Many instances, each serving Snowflake IDs from its own generator, on top of the lease protocol.

 Every instance reads a clock of its own that stays within `skew` of global time, in any direction
 and without being monotone. One call of the service is one step.
 */
module ClusterProtocol {
  import opened Wrappers
  import opened Sequences
  import opened SnowflakeLayout
  import opened SnowflakeGenerator
  import opened WorkerLeaseStore
  import opened WorkerLeaseManager
  import Lease = LeaseProtocol
  import Service = SnowflakeService

  const MILLISECOND: int := 1_000_000

  datatype Config = Config(lease: Lease.Config, skew: int, epoch: int, datacenter: string -> int)

  /** `since` is when the instance started; `lastUse` when an ID was last issued on a worker. */
  datatype Member = Member(gen: GenState, since: int)

  datatype Issue = Issue(id: string, ticket: Ticket)

  datatype State = State(
    lease: Lease.State, members: map<string, Member>, issued: seq<Issue>, lastUse: map<int, int>)

  datatype Event =
    | LeaseEvent(ev: Lease.Event)
    | Serve(id: string, first: Reading, second: Reading, reply: Reply)

  function Initial(now: int, table: Table): State { State(Lease.Initial(now, table), map[], [], map[]) }

  /** A clock at most `skew` off at global time `now` can read `t`: whole milliseconds, rounded down. */
  predicate Near(cfg: Config, t: int, now: int) {
    now - cfg.skew < (t + 1) * MILLISECOND && t * MILLISECOND <= now + cfg.skew
  }

  /** The longest time between two moments at which some two clocks can read the same millisecond. */
  function Spread(cfg: Config): int { 2 * cfg.skew + MILLISECOND - 1 }

  /** Readings a call does not take may be anything, and are taken to be near as well. */
  predicate AllNear(cfg: Config, r: Reading, now: int) { Near(cfg, r.now, now) && Near(cfg, r.after, now) }

  ghost predicate Enabled(cfg: Config, s: State, ev: Event) {
    match ev
    case LeaseEvent(e) => Lease.Enabled(s.lease, e) && !e.Demand?
    case Serve(id, first, second, _) =>
      && id in s.lease.running && id in s.members
      && AllNear(cfg, first, s.lease.now) && AllNear(cfg, second, s.lease.now)
      && Possible(s.members[id].gen, first)
  }

  function ServiceOf(s: State, id: string): Service.Service
    requires id in s.lease.running && id in s.members
  {
    Service.Service(s.members[id].gen, Some(s.lease.running[id].mgr))
  }

  function DoServe(s: State, id: string, first: Reading, second: Reading, reply: Reply): State
    requires id in s.lease.running && id in s.members
  {
    var (sv, t, r) := Service.Serve(ServiceOf(s, id), first, second, s.lease.table, reply);
    var mgr := if sv.mgr.Some? then sv.mgr.value else s.lease.running[id].mgr;
    State(
      Lease.State(s.lease.now, t, s.lease.running[id := s.lease.running[id].(mgr := mgr)]),
      s.members[id := s.members[id].(gen := sv.gen)],
      if r.Ok? then s.issued + [Issue(id, r.value)] else s.issued,
      if r.Ok? then s.lastUse[r.value.worker := s.lease.now] else s.lastUse)
  }

  /** The generator of a new instance starts on the primary its manager has just acquired. */
  function DoLease(cfg: Config, s: State, e: Lease.Event): State
    requires !e.Start? && !e.Wait? ==> e.id in s.lease.running
  {
    var lease := Lease.Do(cfg.lease, s.lease, e);
    var members :=
      match e
      case Start(id, _, _) =>
        if id in lease.running then s.members[id := Member(NewGenerator(lease.running[id].mgr.primary), s.lease.now)]
        else s.members
      case Stop(id, _) => s.members - {id}
      case Crash(id) => s.members - {id}
      case _ => s.members;
    s.(lease := lease, members := members)
  }

  ghost function Do(cfg: Config, s: State, ev: Event): State
    requires Enabled(cfg, s, ev)
  {
    match ev
    case LeaseEvent(e) => DoLease(cfg, s, e)
    case Serve(id, first, second, reply) => DoServe(s, id, first, second, reply)
  }

  ghost function Run(cfg: Config, s: State, evs: seq<Event>): State {
    if evs == [] then s
    else
      var s1 := Run(cfg, s, evs[..|evs| - 1]);
      var ev := evs[|evs| - 1];
      if Enabled(cfg, s1, ev) then Do(cfg, s1, ev) else s1
  }

  // ---------- what the code relies on but does not enforce ----------

  /** How long a worker stays unused before it is taken again, when it was released and when it expired. */
  datatype Rest = Rest(released: int, expired: int)

  ghost predicate Rested(s: State, w: int, rest: int) { w in s.lastUse ==> s.lastUse[w] + rest < s.lease.now }

  ghost predicate RestKept(cfg: Config, rest: Rest, s: State, ev: Event) {
    ev.LeaseEvent? && ev.ev.Start? ==>
      var t0, t := s.lease.table, Lease.Do(cfg.lease, s.lease, ev.ev).table;
      forall w :: w in t0 && w in t && t[w] != t0[w] ==>
        Rested(s, w, if t0[w].active then rest.expired else rest.released)
  }

  /** A call that promotes a backup learns that the old primary was released. */
  ghost predicate ReleaseSeen(cfg: Config, s: State, ev: Event)
    requires Enabled(cfg, s, ev)
  {
    ev.Serve? && Service.Promotes(ServiceOf(s, ev.id), ev.first) ==> ev.reply.fault.Fine?
  }

  /** Every start that takes place keeps the rest. */
  ghost predicate RestsKept(cfg: Config, rest: Rest, s: State, evs: seq<Event>) {
    evs == [] ||
    (var front, ev := evs[..|evs| - 1], evs[|evs| - 1];
     && RestsKept(cfg, rest, s, front)
     && (Enabled(cfg, Run(cfg, s, front), ev) ==> RestKept(cfg, rest, Run(cfg, s, front), ev)))
  }

  ghost predicate ReleasesSeen(cfg: Config, s: State, evs: seq<Event>) {
    evs == [] ||
    (var front, ev := evs[..|evs| - 1], evs[|evs| - 1];
     && ReleasesSeen(cfg, s, front)
     && (Enabled(cfg, Run(cfg, s, front), ev) ==> ReleaseSeen(cfg, Run(cfg, s, front), ev)))
  }

  /** Leases exclude each other, and a worker changes hands only when all clocks have passed its last use. */
  ghost predicate LongEnough(cfg: Config, rest: Rest) {
    && 2 * cfg.lease.gap <= cfg.lease.Timeout()
    && Spread(cfg) <= rest.released
    && (Spread(cfg) <= rest.expired || 2 * cfg.lease.gap + Spread(cfg) <= cfg.lease.Timeout())
  }

  ghost predicate Sound(cfg: Config) { Lease.Sound(cfg.lease) && cfg.skew >= 0 }

  // ---------- the invariant ----------

  /** An ID from so long before the instance started that none of its readings can repeat it. */
  ghost predicate Old(cfg: Config, m: Member, t: Ticket) {
    (t.timestamp + 1) * MILLISECOND <= m.since - cfg.skew
  }

  /** Whatever was issued on a worker the instance claims is old, or its own and not above its generator. */
  ghost predicate Fenced(cfg: Config, m: Member, t: Ticket) {
    Old(cfg, m, t) || (t.worker == m.gen.worker && Service.NotAbove(m.gen, t))
  }

  ghost predicate MemberInv(cfg: Config, s: State, id: string) {
    && id in s.members && id in s.lease.running
    && ValidGen(s.members[id].gen)
    && s.members[id].gen.worker == s.lease.running[id].mgr.primary
    && s.members[id].since <= s.lease.now
    && (forall k :: 0 <= k < |s.issued| && Lease.Claims(s.lease.running[id].mgr, s.issued[k].ticket.worker) ==>
          Fenced(cfg, s.members[id], s.issued[k].ticket))
  }

  ghost predicate IssueInv(cfg: Config, s: State, t: Ticket) {
    && t.worker in s.lastUse
    && t.timestamp * MILLISECOND <= s.lastUse[t.worker] + cfg.skew
    && 0 <= t.worker <= MAX_WORKER && 0 <= t.sequence <= MAX_SEQUENCE
  }

  ghost predicate Different(s: State) {
    forall i, j :: 0 <= i < j < |s.issued| ==> s.issued[i].ticket != s.issued[j].ticket
  }

  ghost predicate UseInv(cfg: Config, s: State) {
    && (forall w :: w in s.lastUse ==> s.lastUse[w] <= s.lease.now)
    && (forall w :: w in s.lastUse && w in s.lease.table && s.lease.table[w].active ==>
          s.lastUse[w] <= s.lease.table[w].leaseTime + 2 * cfg.lease.gap)
    && (forall w :: w in s.lease.table ==> 0 <= w <= MAX_WORKER)
  }

  ghost predicate Inv(cfg: Config, s: State) {
    && Lease.Inv(cfg.lease, 2 * cfg.lease.gap, s.lease)
    && (forall id :: id in s.lease.running ==> MemberInv(cfg, s, id))
    && (forall k :: 0 <= k < |s.issued| ==> IssueInv(cfg, s, s.issued[k].ticket))
    && Different(s)
    && UseInv(cfg, s)
  }

  /** A reading after `since` is past every old ticket. */
  lemma OldIsPassed(cfg: Config, m: Member, t: Ticket, reading: int, now: int)
    requires Old(cfg, m, t) && m.since <= now && Near(cfg, reading, now)
    ensures t.timestamp < reading
  {
  }

  // ---------- a call is a switch, an issue, both, or nothing ----------

  function DoSwitch(cfg: Config, s: State, id: string, reply: Reply): State
    requires id in s.lease.running && id in s.members && s.lease.running[id].mgr.backups != []
  {
    s.(lease := Lease.Do(cfg.lease, s.lease, Lease.Demand(id, reply)),
       members := s.members[id := s.members[id].(gen := NewGenerator(s.lease.running[id].mgr.backups[0]))])
  }

  function DoIssue(s: State, id: string, t: Ticket): State
    requires id in s.members
  {
    s.(members := s.members[id := s.members[id].(gen := GenState(t.worker, t.timestamp, t.sequence))],
       issued := s.issued + [Issue(id, t)],
       lastUse := s.lastUse[t.worker := s.lease.now])
  }

  /** The ticket a call may issue: on the current, valid worker, above the generator, with a near time. */
  ghost predicate Issuable(cfg: Config, s: State, id: string, t: Ticket) {
    && id in s.lease.running && id in s.members && s.lease.running[id].mgr.valid
    && t.worker == s.members[id].gen.worker && 0 <= t.sequence <= MAX_SEQUENCE
    && LexLess(s.members[id].gen.lastTimestamp, s.members[id].gen.sequence, t.timestamp, t.sequence)
    && Near(cfg, t.timestamp, s.lease.now)
  }

  lemma ServeIsSwitchAndIssue(cfg: Config, s: State, id: string, first: Reading, second: Reading, reply: Reply)
    requires Enabled(cfg, s, Serve(id, first, second, reply))
    requires ValidGen(s.members[id].gen)
    ensures var s' := DoServe(s, id, first, second, reply);
            if Service.Promotes(ServiceOf(s, id), first) && !reply.fault.Fine? then
              s' == s.(lease := Lease.Do(cfg.lease, s.lease, Lease.Demand(id, reply)))
            else if Service.Promotes(ServiceOf(s, id), first) then
              var mid := DoSwitch(cfg, s, id, reply);
              s' == mid || exists t :: Issuable(cfg, mid, id, t) && s' == DoIssue(mid, id, t)
            else
              s' == s || exists t :: Issuable(cfg, s, id, t) && s' == DoIssue(s, id, t)
  {
    var sv, g := ServiceOf(s, id), s.members[id].gen;
    var mgr := s.lease.running[id].mgr;
    GenerateRises(g, first);
    Service.ServeByCases(sv, first, second, s.lease.table, reply);
    hide Service.Serve, Generate, MustWait, Possible;
    var s' := DoServe(s, id, first, second, reply);
    if Service.Promotes(sv, first) && !reply.fault.Fine? {
      assert s.members[id := s.members[id].(gen := g)] == s.members;
    } else if Service.Promotes(sv, first) {
      var b := mgr.backups[0];
      Service.SwitchedNeverWaits(g, b, second.now);
      NewGeneratorPossible(g, b, second);
      GenerateRises(SwitchWorker(g, b), second);
      var mid, r := DoSwitch(cfg, s, id, reply), Generate(SwitchWorker(g, b), second).1;
      if r.Ok? {
        assert Issuable(cfg, mid, id, r.value);
        assert s'.members == DoIssue(mid, id, r.value).members;
        assert s' == DoIssue(mid, id, r.value);
      } else {
        assert s' == mid;
      }
    } else {
      assert s.lease.running[id := s.lease.running[id].(mgr := mgr)] == s.lease.running;
      var r := Generate(g, first).1;
      if mgr.valid && r.Ok? {
        assert Issuable(cfg, s, id, r.value);
        assert s' == DoIssue(s, id, r.value);
      } else {
        assert s.members[id := s.members[id].(gen := g)] == s.members;
        assert s' == s;
      }
    }
  }

  lemma NewGeneratorPossible(g: GenState, worker: int, r: Reading)
    requires !MustWait(SwitchWorker(g, worker), r.now)
    ensures Possible(SwitchWorker(g, worker), r)
  {
  }

  lemma ClaimedRow(cfg: Config, s: State, id: string, w: int)
    requires Sound(cfg) && Inv(cfg, s) && id in s.lease.running && Lease.Claims(s.lease.running[id].mgr, w)
    ensures Holds(s.lease.table, w, id) && s.lease.now <= s.lease.table[w].leaseTime + 2 * cfg.lease.gap
    ensures 0 <= w <= MAX_WORKER
    ensures forall j :: j in s.lease.running && j != id ==> !Lease.Claims(s.lease.running[j].mgr, w)
  {
    assert Lease.Healthy(cfg.lease, 2 * cfg.lease.gap, s.lease.table, id, s.lease.running[id]);
    var m := s.lease.running[id].mgr;
    if m.valid && w == m.primary {
      assert m.renewFail == 0 || m.renewFail == 1;
    }
    forall j | j in s.lease.running && Lease.Claims(s.lease.running[j].mgr, w) ensures j == id {
      assert Lease.Healthy(cfg.lease, 2 * cfg.lease.gap, s.lease.table, j, s.lease.running[j]);
    }
  }

  /** The new ID differs from all before it, and all fences stand. */
  lemma IssueKeepsInv(cfg: Config, s: State, id: string, t: Ticket)
    requires Sound(cfg) && Inv(cfg, s) && Issuable(cfg, s, id, t)
    ensures Inv(cfg, DoIssue(s, id, t))
  {
    var s' := DoIssue(s, id, t);
    var m := s.members[id];
    assert MemberInv(cfg, s, id);
    ClaimedRow(cfg, s, id, t.worker);
    forall k | 0 <= k < |s.issued| ensures s.issued[k].ticket != t {
      var u := s.issued[k].ticket;
      if u.worker == t.worker && Old(cfg, m, u) {
        OldIsPassed(cfg, m, u, t.timestamp, s.lease.now);
      }
    }
    IssuerStaysFenced(cfg, s, id, t);
    forall j | j in s.lease.running ensures MemberInv(cfg, s', j) {
      if j != id {
        assert MemberInv(cfg, s, j);
      }
    }
    forall k | 0 <= k < |s'.issued| ensures IssueInv(cfg, s', s'.issued[k].ticket) {
      if k < |s.issued| {
        assert IssueInv(cfg, s, s.issued[k].ticket);
      }
    }
  }

  lemma IssuerStaysFenced(cfg: Config, s: State, id: string, t: Ticket)
    requires Inv(cfg, s) && Issuable(cfg, s, id, t)
    ensures MemberInv(cfg, DoIssue(s, id, t), id)
  {
    var s' := DoIssue(s, id, t);
    assert MemberInv(cfg, s, id);
    forall k | 0 <= k < |s'.issued| && Lease.Claims(s'.lease.running[id].mgr, s'.issued[k].ticket.worker)
      ensures Fenced(cfg, s'.members[id], s'.issued[k].ticket)
    {
      if k < |s.issued| {
        assert Fenced(cfg, s.members[id], s.issued[k].ticket);
      }
    }
  }

  /** Rows keep their numbers, and a row that is active afterwards was left alone or stamped just now. */
  ghost predicate Evolves(t: Table, t': Table, now: int) {
    && t'.Keys == t.Keys
    && forall w :: w in t && t'[w].active ==>
         (t[w].active && t'[w].leaseTime == t[w].leaseTime) || t'[w].leaseTime == now
  }

  lemma UseSurvives(cfg: Config, s: State, s': State)
    requires UseInv(cfg, s) && cfg.lease.gap >= 1 && s'.lastUse == s.lastUse && s'.lease.now >= s.lease.now
    requires Evolves(s.lease.table, s'.lease.table, s.lease.now)
    ensures UseInv(cfg, s')
  {
  }

  lemma SwitchKeepsInv(cfg: Config, s: State, id: string, reply: Reply)
    requires Sound(cfg) && Inv(cfg, s) && id in s.lease.running && s.lease.running[id].mgr.backups != []
    ensures id in s.members && Inv(cfg, DoSwitch(cfg, s, id, reply))
  {
    assert MemberInv(cfg, s, id);
    var s' := DoSwitch(cfg, s, id, reply);
    Lease.DemandKeepsInv(cfg.lease, 2 * cfg.lease.gap, s.lease, id, reply);
    var m := s.lease.running[id].mgr;
    assert Lease.Healthy(cfg.lease, 2 * cfg.lease.gap, s.lease.table, id, s.lease.running[id]);
    assert Evolves(s.lease.table, s'.lease.table, s.lease.now);
    UseSurvives(cfg, s, s');
    assert m.backups[0] in m.backups && forall w :: w in m.backups[1..] ==> w in m.backups;
    forall j | j in s'.lease.running ensures MemberInv(cfg, s', j) {
      assert MemberInv(cfg, s, j);
      if j == id {
        forall k | 0 <= k < |s'.issued| && Lease.Claims(Promote(m), s'.issued[k].ticket.worker)
          ensures Fenced(cfg, s'.members[id], s'.issued[k].ticket)
        {
          assert Fenced(cfg, s.members[id], s.issued[k].ticket);
        }
      }
    }
    forall k | 0 <= k < |s'.issued| ensures IssueInv(cfg, s', s'.issued[k].ticket) {
      assert IssueInv(cfg, s, s.issued[k].ticket);
    }
  }

  lemma ServeKeepsInv(cfg: Config, s: State, id: string, first: Reading, second: Reading, reply: Reply)
    requires Sound(cfg) && Inv(cfg, s) && Enabled(cfg, s, Serve(id, first, second, reply))
    requires ReleaseSeen(cfg, s, Serve(id, first, second, reply))
    ensures Inv(cfg, DoServe(s, id, first, second, reply))
  {
    assert ValidGen(s.members[id].gen) by { assert MemberInv(cfg, s, id); }
    ServeIsSwitchAndIssue(cfg, s, id, first, second, reply);
    var s' := DoServe(s, id, first, second, reply);
    hide Inv, DoServe, DoSwitch, DoIssue, Issuable;
    var base := s;
    if Service.Promotes(ServiceOf(s, id), first) {
      SwitchKeepsInv(cfg, s, id, reply);
      base := DoSwitch(cfg, s, id, reply);
    }
    if s' != base {
      var t :| Issuable(cfg, base, id, t) && s' == DoIssue(base, id, t);
      IssueKeepsInv(cfg, base, id, t);
    }
  }

  // ---------- lease events ----------

  lemma {:induction false} RenewBackupsEvolve(t: Table, backups: seq<int>, id: string, db: Database, k: nat, now: int)
    requires Lease.AtInstant(db, now)
    ensures Evolves(t, RenewBackups(t, backups, id, db, k).0, now)
  {
    if backups != [] {
      RenewBackupsEvolve(t, backups[..|backups| - 1], id, db, k, now);
      assert db(k + |backups| - 1).now == now;
    }
  }

  lemma {:induction false} ReleaseAllEvolves(t: Table, workers: seq<int>, id: string, db: Database, k: nat, now: int)
    ensures Evolves(t, ReleaseAll(t, workers, id, db, k), now)
  {
    if workers != [] {
      ReleaseAllEvolves(t, workers[..|workers| - 1], id, db, k, now);
    }
  }

  /** The rows a starting instance has taken so far were free before it started. */
  ghost predicate TakenFrom(t0: Table, t: Table, id: string, now: int, timeout: int, ws: seq<int>) {
    && t.Keys == t0.Keys
    && (forall w :: w in t ==> t[w] == t0[w] || t[w] == LeaseRow(true, id, now))
    && (forall w :: w in ws ==> w in t && Free(t0[w], now, timeout) && t[w] == LeaseRow(true, id, now))
  }

  lemma AcquireTakes(t0: Table, t: Table, id: string, timeout: int, reply: Reply, ws: seq<int>)
    requires timeout >= 0 && TakenFrom(t0, t, id, reply.now, timeout, ws)
    ensures var (t', r) := Acquire(t, id, timeout, reply);
            TakenFrom(t0, t', id, reply.now, timeout, if r.Some? then ws + [r.value] else ws)
  {
    hide FirstFree;
  }

  lemma {:induction false} BackupsTake(t0: Table, t: Table, id: string, timeout: int, n: nat, db: Database, now: int,
                                       ws: seq<int>)
    requires timeout >= 0 && Lease.AtInstant(db, now) && TakenFrom(t0, t, id, now, timeout, ws)
    ensures var (t', got, _) := AcquireBackups(t, id, timeout, n, db, 1);
            TakenFrom(t0, t', id, now, timeout, ws + got)
  {
    hide Acquire, TakenFrom;
    if n == 0 {
      assert ws + [] == ws;
    } else {
      BackupsTake(t0, t, id, timeout, n - 1, db, now, ws);
      var (t1, got, stopped) := AcquireBackups(t, id, timeout, n - 1, db, 1);
      if !stopped {
        assert db(1 + |got|).now == now;
        AcquireTakes(t0, t1, id, timeout, db(1 + |got|), ws + got);
        var r := Acquire(t1, id, timeout, db(1 + |got|)).1;
        if r.Some? {
          assert ws + got + [r.value] == ws + (got + [r.value]);
        }
      }
    }
  }

  lemma StartupTakes(t0: Table, id: string, timeout: int, n: nat, db: Database, now: int)
    requires timeout >= 0 && Lease.AtInstant(db, now)
    ensures var (t, m) := Startup(t0, id, timeout, n, db, 0);
            && TakenFrom(t0, t, id, now, timeout, if m.Some? then [m.value.primary] + m.value.backups else [])
            && Evolves(t0, t, now)
            && (m.Some? ==> m.value.valid)
  {
    assert db(0).now == now;
    AcquireTakes(t0, t0, id, timeout, db(0), []);
    var (t1, primary) := Acquire(t0, id, timeout, db(0));
    hide Acquire, AcquireBackups;
    if primary.Some? {
      assert [] + [primary.value] == [primary.value];
      BackupsTake(t0, t1, id, timeout, n, db, now, [primary.value]);
    }
  }

  /** Whatever was issued on a worker that a starting instance takes is old for it. */
  lemma TakenIsOld(cfg: Config, rest: Rest, s: State, w: int, t: Ticket)
    requires Sound(cfg) && LongEnough(cfg, rest) && UseInv(cfg, s) && IssueInv(cfg, s, t)
    requires t.worker == w && w in s.lease.table
    requires Free(s.lease.table[w], s.lease.now, cfg.lease.Timeout())
    requires Rested(s, w, if s.lease.table[w].active then rest.expired else rest.released)
    ensures (t.timestamp + 1) * MILLISECOND <= s.lease.now - cfg.skew
  {
  }

  lemma StartKeepsInv(cfg: Config, rest: Rest, s: State, id: string, n: nat, db: Database)
    requires Sound(cfg) && LongEnough(cfg, rest) && Inv(cfg, s)
    requires var start := LeaseEvent(Lease.Start(id, n, db)); Enabled(cfg, s, start) && RestKept(cfg, rest, s, start)
    ensures Inv(cfg, DoLease(cfg, s, Lease.Start(id, n, db)))
  {
    var s' := DoLease(cfg, s, Lease.Start(id, n, db));
    Lease.StartKeepsInv(cfg.lease, 2 * cfg.lease.gap, s.lease, id, n, db);
    StartupTakes(s.lease.table, id, cfg.lease.Timeout(), n, db, s.lease.now);
    var (t, m) := Startup(s.lease.table, id, cfg.lease.Timeout(), n, db, 0);
    hide Startup;
    UseSurvives(cfg, s, s');
    IssuesSurvive(cfg, s, s');
    forall j | j in s'.lease.running ensures MemberInv(cfg, s', j) {
      if j != id {
        assert MemberInv(cfg, s, j);
      } else {
        forall k | 0 <= k < |s.issued| && Lease.Claims(m.value, s.issued[k].ticket.worker)
          ensures Old(cfg, s'.members[id], s.issued[k].ticket)
        {
          var w := s.issued[k].ticket.worker;
          assert w in [m.value.primary] + m.value.backups;
          assert IssueInv(cfg, s, s.issued[k].ticket);
          assert t[w] != s.lease.table[w];
          TakenIsOld(cfg, rest, s, w, s.issued[k].ticket);
        }
      }
    }
  }

  lemma IssuesSurvive(cfg: Config, s: State, s': State)
    requires s'.issued == s.issued && s'.lastUse == s.lastUse && Different(s)
    requires forall k :: 0 <= k < |s.issued| ==> IssueInv(cfg, s, s.issued[k].ticket)
    ensures forall k :: 0 <= k < |s'.issued| ==> IssueInv(cfg, s', s'.issued[k].ticket)
    ensures Different(s')
  {
    forall k | 0 <= k < |s'.issued| ensures IssueInv(cfg, s', s'.issued[k].ticket) {
      assert IssueInv(cfg, s, s.issued[k].ticket);
    }
  }

  lemma RenewalShrinksClaims(m: Manager, t: Table, db: Database, w: int)
    requires Lease.Claims(RenewOnce(m, t, db, 0).0, w)
    ensures Lease.Claims(m, w)
  {
    var t1 := Renew(t, m.primary, m.owner, db(0)).0;
    LiveIsSubsequence(t1, m.backups, m.owner, db, 1);
    SubsequenceDistinct(RenewBackups(t1, m.backups, m.owner, db, 1).1, m.backups);
  }

  lemma OtherLeaseKeepsInv(cfg: Config, s: State, e: Lease.Event)
    requires Sound(cfg) && Inv(cfg, s) && Enabled(cfg, s, LeaseEvent(e)) && !e.Start?
    ensures Inv(cfg, DoLease(cfg, s, e))
  {
    var s' := DoLease(cfg, s, e);
    Lease.StepKeepsInv(cfg.lease, 2 * cfg.lease.gap, s.lease, e);
    match e {
      case Renewal(id, db) =>
        var m := s.lease.running[id].mgr;
        assert db(0).now == s.lease.now;
        RenewBackupsEvolve(Renew(s.lease.table, m.primary, m.owner, db(0)).0, m.backups, m.owner, db, 1, s.lease.now);
        forall w | Lease.Claims(s'.lease.running[id].mgr, w) ensures Lease.Claims(m, w) {
          RenewalShrinksClaims(m, s.lease.table, db, w);
        }
      case Stop(id, db) =>
        var m := s.lease.running[id].mgr;
        ReleaseAllEvolves(s.lease.table, Workers(m), m.owner, db, 0, s.lease.now);
      case _ =>
    }
    assert Evolves(s.lease.table, s'.lease.table, s.lease.now);
    UseSurvives(cfg, s, s');
    IssuesSurvive(cfg, s, s');
    forall j | j in s'.lease.running ensures MemberInv(cfg, s', j) {
      assert MemberInv(cfg, s, j);
      assert forall w :: Lease.Claims(s'.lease.running[j].mgr, w) ==> Lease.Claims(s.lease.running[j].mgr, w);
    }
  }

  // ---------- every run ----------

  lemma {:induction false} RunKeepsInv(cfg: Config, rest: Rest, now: int, table: Table, evs: seq<Event>)
    requires Sound(cfg) && LongEnough(cfg, rest)
    requires RestsKept(cfg, rest, Initial(now, table), evs) && ReleasesSeen(cfg, Initial(now, table), evs)
    requires SchemaRows(table)
    ensures Inv(cfg, Run(cfg, Initial(now, table), evs))
  {
    if evs != [] {
      var front, ev := evs[..|evs| - 1], evs[|evs| - 1];
      RunKeepsInv(cfg, rest, now, table, front);
      var s := Run(cfg, Initial(now, table), front);
      if Enabled(cfg, s, ev) {
        hide Inv, Sound, LongEnough, Enabled, RestKept, ReleaseSeen, DoServe, DoLease;
        match ev
        case Serve(id, first, second, reply) => ServeKeepsInv(cfg, s, id, first, second, reply);
        case LeaseEvent(e) =>
          if e.Start? {
            StartKeepsInv(cfg, rest, s, e.id, e.backupCount, e.db);
          } else {
            OtherLeaseKeepsInv(cfg, s, e);
          }
      }
    }
  }

  function IdsIssued(cfg: Config, s: State): (ids: seq<int>)
    ensures |ids| == |s.issued|
  {
    seq(|s.issued|, i requires 0 <= i < |s.issued| =>
      IdOf(Node(cfg.datacenter(s.issued[i].id), cfg.epoch), s.issued[i].ticket))
  }

  /** Every ID of the run was issued within 2^41 milliseconds of the epoch. */
  ghost predicate WithinWindow(cfg: Config, s: State) {
    forall k :: 0 <= k < |s.issued| ==> InWindow(s.issued[k].ticket.timestamp - cfg.epoch)
  }

  ghost predicate DatacentersInRange(cfg: Config) { forall id :: 0 <= cfg.datacenter(id) <= MAX_DATACENTER }

  /**
   Cross-instance uniqueness. In every run of any number of instances, with skewed and non-monotone
   clocks, lost renewals, promotions, crashes, restarts and stolen leases, no two IDs are equal,
   provided that the rest kept before a worker changes hands is long enough and that no promotion
   loses the outcome of its release. `ClusterLimits` shows that nothing less will do.
   */
  lemma ClusterUniqueness(cfg: Config, rest: Rest, now: int, table: Table, evs: seq<Event>)
    requires Sound(cfg) && LongEnough(cfg, rest) && DatacentersInRange(cfg)
    requires RestsKept(cfg, rest, Initial(now, table), evs) && ReleasesSeen(cfg, Initial(now, table), evs)
    requires SchemaRows(table)
    requires WithinWindow(cfg, Run(cfg, Initial(now, table), evs))
    ensures Distinct(IdsIssued(cfg, Run(cfg, Initial(now, table), evs)))
  {
    RunKeepsInv(cfg, rest, now, table, evs);
    DifferentIds(cfg, Run(cfg, Initial(now, table), evs));
  }

  lemma DifferentIds(cfg: Config, s: State)
    requires Inv(cfg, s)
    requires DatacentersInRange(cfg) && WithinWindow(cfg, s)
    ensures Distinct(IdsIssued(cfg, s))
  {
    var ids := IdsIssued(cfg, s);
    hide IdOf;
    forall i, j | 0 <= i < j < |s.issued| ensures ids[i] != ids[j] {
      assert IssueInv(cfg, s, s.issued[i].ticket) && IssueInv(cfg, s, s.issued[j].ticket);
      if ids[i] == ids[j] {
        TicketFromAnyId(cfg, s.issued[i], s.issued[j]);
        assert false;
      }
    }
  }

  lemma TicketFromAnyId(cfg: Config, a: Issue, b: Issue)
    requires DatacentersInRange(cfg)
    requires 0 <= a.ticket.worker <= MAX_WORKER && 0 <= a.ticket.sequence <= MAX_SEQUENCE
    requires 0 <= b.ticket.worker <= MAX_WORKER && 0 <= b.ticket.sequence <= MAX_SEQUENCE
    requires InWindow(a.ticket.timestamp - cfg.epoch) && InWindow(b.ticket.timestamp - cfg.epoch)
    requires IdOf(Node(cfg.datacenter(a.id), cfg.epoch), a.ticket) ==
             IdOf(Node(cfg.datacenter(b.id), cfg.epoch), b.ticket)
    ensures a.ticket == b.ticket
  {
    var t, u := a.ticket, b.ticket;
    PackInjective(t.timestamp - cfg.epoch, cfg.datacenter(a.id), t.worker, t.sequence,
                  u.timestamp - cfg.epoch, cfg.datacenter(b.id), u.worker, u.sequence);
  }
}
