/**
 Any number of instances sharing the worker table, over one global time.

 A running instance holds its manager and the latest time at which its next renewal tick is carried
 out: `gap` after the previous one, which is the renew interval when the ticker is punctual. Starting,
 ticking, promoting and closing each happen at one instant, and statements may fail in any way.
 */
module LeaseProtocol {
  import opened Wrappers
  import opened Sequences
  import opened WorkerLeaseStore
  import opened WorkerLeaseManager

  datatype Config = Config(leaseTimeout: int, gap: int) {
    function Timeout(): int { EffectiveTimeout(leaseTimeout) }
  }

  datatype Instance = Instance(mgr: Manager, deadline: int)

  datatype State = State(now: int, table: Table, running: map<string, Instance>)

  datatype Event =
    | Start(id: string, backupCount: nat, db: Database)
    | Wait(until: int)
    | Renewal(id: string, db: Database)
    | Demand(id: string, reply: Reply)
    | Stop(id: string, db: Database)
    | Crash(id: string)

  function Initial(now: int, table: Table): State { State(now, table, map[]) }

  ghost predicate AtInstant(db: Database, now: int) { forall k: nat :: db(k).now == now }

  ghost predicate Enabled(s: State, ev: Event) {
    match ev
    case Start(id, _, db) => id !in s.running && AtInstant(db, s.now)
    case Wait(until) => s.now <= until && forall j :: j in s.running ==> until <= s.running[j].deadline
    case Renewal(id, db) => id in s.running && AtInstant(db, s.now)
    case Demand(id, _) => id in s.running
    case Stop(id, _) => id in s.running
    case Crash(id) => id in s.running
  }

  function Do(cfg: Config, s: State, ev: Event): State
    requires !ev.Start? && !ev.Wait? ==> ev.id in s.running
  {
    match ev
    case Start(id, n, db) =>
      var (t, m) := Startup(s.table, id, cfg.Timeout(), n, db, 0);
      State(s.now, t, if m.Some? then s.running[id := Instance(m.value, s.now + cfg.gap)] else s.running)
    case Wait(until) => s.(now := until)
    case Renewal(id, db) =>
      var (m, t) := RenewOnce(s.running[id].mgr, s.table, db, 0);
      State(s.now, t, s.running[id := Instance(m, s.now + cfg.gap)])
    case Demand(id, reply) =>
      var (m, t, _) := Consume(s.running[id].mgr, s.table, reply);
      State(s.now, t, s.running[id := s.running[id].(mgr := m)])
    case Stop(id, db) => State(s.now, Close(s.running[id].mgr, s.table, db, 0), s.running - {id})
    case Crash(id) => s.(running := s.running - {id})
  }

  /** Any schedule: events that are not possible when their turn comes are skipped. */
  ghost function Run(cfg: Config, s: State, evs: seq<Event>): State {
    if evs == [] then s
    else
      var s1 := Run(cfg, s, evs[..|evs| - 1]);
      var ev := evs[|evs| - 1];
      if Enabled(s1, ev) then Do(cfg, s1, ev) else s1
  }

  // ---------- mutual exclusion and what keeps it ----------

  ghost predicate Claims(m: Manager, w: int) { (m.valid && w == m.primary) || w in m.backups }

  /** No two running instances claim the same worker. */
  ghost predicate Exclusive(s: State) {
    forall i, j, w ::
      i in s.running && j in s.running && Claims(s.running[i].mgr, w) && Claims(s.running[j].mgr, w) ==> i == j
  }

  /** The row of `w` belongs to `id`, and its lease, taken as `cover` long, lasts to `until`. */
  ghost predicate Leased(t: Table, w: int, id: string, until: int, cover: int) {
    Holds(t, w, id) && until <= t[w].leaseTime + cover
  }

  /** When a manager gives its primary up if no renewal succeeds from now on. */
  function GivesUpAt(cfg: Config, m: Manager, deadline: int): int {
    if m.renewFail == 0 then deadline + cfg.gap else deadline
  }

  /** A claimed worker is leased until it would be given up; a backup could become primary at once. */
  ghost predicate Healthy(cfg: Config, cover: int, t: Table, id: string, inst: Instance) {
    var m := inst.mgr;
    && m.owner == id
    && Distinct(m.backups) && m.primary !in m.backups
    && (m.valid ==> m.renewFail < MAX_RENEW_FAIL && Leased(t, m.primary, id, GivesUpAt(cfg, m, inst.deadline), cover))
    && (forall w :: w in m.backups ==> Leased(t, w, id, inst.deadline + cfg.gap, cover))
  }

  ghost predicate AllHealthy(cfg: Config, cover: int, s: State, t: Table) {
    forall j :: j in s.running ==> s.now <= s.running[j].deadline && Healthy(cfg, cover, t, j, s.running[j])
  }

  ghost predicate Inv(cfg: Config, cover: int, s: State) { AllHealthy(cfg, cover, s, s.table) }

  ghost predicate Sound(cfg: Config) { cfg.gap >= 1 && 2 * cfg.gap <= cfg.Timeout() }

  /** `cover` is some length between what two missed ticks need and what the table grants. */
  ghost predicate Safe(cfg: Config, cover: int) { cfg.gap >= 1 && 2 * cfg.gap <= cover <= cfg.Timeout() }

  /** A claimed row can be taken by nobody, because its lease has not run out. */
  lemma ClaimedIsNotFree(cfg: Config, cover: int, now: int, t: Table, id: string, inst: Instance, w: int)
    requires Safe(cfg, cover) && Healthy(cfg, cover, t, id, inst) && now <= inst.deadline && Claims(inst.mgr, w)
    ensures Holds(t, w, id) && !Free(t[w], now, cfg.Timeout())
  {
    var m := inst.mgr;
    if m.valid && w == m.primary {
      assert m.renewFail == 0 || m.renewFail == 1;
    }
  }

  ghost predicate SameRow(t: Table, t': Table, w: int) { w in t && w in t' && t'[w] == t[w] }

  lemma HealthyFrame(cfg: Config, cover: int, t: Table, t': Table, id: string, inst: Instance)
    requires Healthy(cfg, cover, t, id, inst) && forall w :: Claims(inst.mgr, w) ==> SameRow(t, t', w)
    ensures Healthy(cfg, cover, t', id, inst)
  {
    var m := inst.mgr;
    assert m.valid ==> SameRow(t, t', m.primary);
    forall w | w in m.backups ensures Leased(t', w, id, inst.deadline + cfg.gap, cover) {
      assert SameRow(t, t', w);
    }
  }

  /** Statements of `id` touch no row of another owner. */
  ghost predicate OwnRowsOnly(t: Table, t': Table, id: string) {
    forall w :: w in t && t[w].owner != id ==> SameRow(t, t', w)
  }

  lemma OthersStayHealthy(cfg: Config, cover: int, s: State, t: Table, t': Table, id: string)
    requires OwnRowsOnly(t, t', id)
    requires AllHealthy(cfg, cover, s, t)
    ensures forall j :: j in s.running && j != id ==> Healthy(cfg, cover, t', j, s.running[j])
  {
    forall j | j in s.running && j != id ensures Healthy(cfg, cover, t', j, s.running[j]) {
      forall w | Claims(s.running[j].mgr, w) ensures SameRow(t, t', w) {
        assert Holds(t, w, j);
      }
      HealthyFrame(cfg, cover, t, t', j, s.running[j]);
    }
  }

  // ---------- starting ----------

  /** Rows the starting instance has taken at this instant. */
  ghost predicate JustTaken(t: Table, id: string, now: int, ws: seq<int>) {
    Distinct(ws) && forall w :: w in ws ==> Holds(t, w, id) && t[w].leaseTime == now
  }

  lemma AcquireIsSafe(cfg: Config, cover: int, s: State, t: Table, id: string, reply: Reply, ws: seq<int>)
    requires Safe(cfg, cover) && AllHealthy(cfg, cover, s, t) && JustTaken(t, id, s.now, ws) && reply.now == s.now
    ensures var (t', r) := Acquire(t, id, cfg.Timeout(), reply);
            AllHealthy(cfg, cover, s, t') && JustTaken(t', id, s.now, if r.Some? then ws + [r.value] else ws)
  {
    var (t', r) := Acquire(t, id, cfg.Timeout(), reply);
    assert forall w :: w in t && !Free(t[w], s.now, cfg.Timeout()) ==> SameRow(t, t', w);
    forall j | j in s.running ensures Healthy(cfg, cover, t', j, s.running[j]) {
      forall w | Claims(s.running[j].mgr, w) ensures SameRow(t, t', w) {
        ClaimedIsNotFree(cfg, cover, s.now, t, j, s.running[j], w);
      }
      HealthyFrame(cfg, cover, t, t', j, s.running[j]);
    }
    forall w | w in ws ensures SameRow(t, t', w) {
      assert !Free(t[w], s.now, cfg.Timeout());
    }
  }

  lemma {:induction false} BackupsAreSafe(cfg: Config, cover: int, s: State, t: Table, id: string, n: nat, db: Database,
                                          primary: int)
    requires Safe(cfg, cover) && AllHealthy(cfg, cover, s, t)
    requires AtInstant(db, s.now) && JustTaken(t, id, s.now, [primary])
    ensures var (t', got, _) := AcquireBackups(t, id, cfg.Timeout(), n, db, 1);
            AllHealthy(cfg, cover, s, t') && JustTaken(t', id, s.now, [primary] + got)
  {
    hide Acquire, AllHealthy, Safe, JustTaken, EffectiveTimeout;
    if n == 0 {
      assert [primary] + [] == [primary];
    } else {
      BackupsAreSafe(cfg, cover, s, t, id, n - 1, db, primary);
      var (t1, got, stopped) := AcquireBackups(t, id, cfg.Timeout(), n - 1, db, 1);
      if !stopped {
        assert db(1 + |got|).now == s.now;
        AcquireIsSafe(cfg, cover, s, t1, id, db(1 + |got|), [primary] + got);
        var r := Acquire(t1, id, cfg.Timeout(), db(1 + |got|)).1;
        if r.Some? {
          assert [primary] + got + [r.value] == [primary] + (got + [r.value]);
        }
      }
    }
  }

  lemma StartKeepsInv(cfg: Config, cover: int, s: State, id: string, n: nat, db: Database)
    requires Safe(cfg, cover) && Inv(cfg, cover, s) && Enabled(s, Start(id, n, db))
    ensures Inv(cfg, cover, Do(cfg, s, Start(id, n, db)))
  {
    hide Acquire, AcquireBackups;
    assert db(0).now == s.now;
    AcquireIsSafe(cfg, cover, s, s.table, id, db(0), []);
    var (t1, primary) := Acquire(s.table, id, cfg.Timeout(), db(0));
    if primary.Some? {
      assert [] + [primary.value] == [primary.value];
      BackupsAreSafe(cfg, cover, s, t1, id, n, db, primary.value);
      var (t2, got, _) := AcquireBackups(t1, id, cfg.Timeout(), n, db, 1);
      StarterIsHealthy(cfg, cover, t2, id, s.now, primary.value, got);
    }
  }

  lemma StarterIsHealthy(cfg: Config, cover: int, t: Table, id: string, now: int, primary: int, got: seq<int>)
    requires 2 * cfg.gap <= cover && JustTaken(t, id, now, [primary] + got)
    ensures Healthy(cfg, cover, t, id, Instance(Manager(id, primary, got, true, 0), now + cfg.gap))
  {
    DistinctCons(primary, got);
    var all := [primary] + got;
    assert primary in all && forall w :: w in got ==> w in all;
  }

  // ---------- renewing ----------

  /** Renewals only move the lease times of one owner's rows, and only to `now`. */
  ghost predicate OnlyRenews(t: Table, t': Table, id: string, now: int) {
    && OwnRowsOnly(t, t', id)
    && forall w :: Holds(t, w, id) ==>
         Holds(t', w, id) && (t'[w].leaseTime == t[w].leaseTime || t'[w].leaseTime == now)
  }

  lemma {:induction false} RenewBackupsIsSafe(t: Table, backups: seq<int>, id: string, db: Database, k: nat, now: int)
    requires AtInstant(db, now)
    ensures var (t', live) := RenewBackups(t, backups, id, db, k);
            && OnlyRenews(t, t', id, now)
            && (forall w :: w in live ==> Holds(t', w, id) && t'[w].leaseTime == now)
  {
    if backups != [] {
      RenewBackupsIsSafe(t, backups[..|backups| - 1], id, db, k, now);
      assert db(k + |backups| - 1).now == now;
    }
  }

  lemma RenewalKeepsInv(cfg: Config, cover: int, s: State, id: string, db: Database)
    requires Safe(cfg, cover) && Inv(cfg, cover, s) && Enabled(s, Renewal(id, db))
    ensures Inv(cfg, cover, Do(cfg, s, Renewal(id, db)))
  {
    var m := s.running[id].mgr;
    assert Healthy(cfg, cover, s.table, id, s.running[id]);
    assert db(0).now == s.now;
    var (t1, ok) := Renew(s.table, m.primary, id, db(0));
    assert OnlyRenews(s.table, t1, id, s.now);
    RenewBackupsIsSafe(t1, m.backups, id, db, 1, s.now);
    var (t2, live) := RenewBackups(t1, m.backups, id, db, 1);
    LiveIsSubsequence(t1, m.backups, id, db, 1);
    SubsequenceDistinct(live, m.backups);
    assert OwnRowsOnly(s.table, t2, id);
    OthersStayHealthy(cfg, cover, s, s.table, t2, id);
    RenewedIsHealthy(cfg, cover, s, id, db(0), t2, live);
  }

  lemma RenewedIsHealthy(cfg: Config, cover: int, s: State, id: string, reply: Reply, t2: Table, live: seq<int>)
    requires Safe(cfg, cover) && id in s.running
    requires Healthy(cfg, cover, s.table, id, s.running[id]) && s.now <= s.running[id].deadline
    requires reply.now == s.now
    requires var m := s.running[id].mgr;
             && OnlyRenews(Renew(s.table, m.primary, id, reply).0, t2, id, s.now)
             && Distinct(live) && m.primary !in live
    requires forall w :: w in live ==> Holds(t2, w, id) && t2[w].leaseTime == s.now
    ensures var m := s.running[id].mgr;
            var m' := CountRenewal(m, Renew(s.table, m.primary, id, reply).1).(backups := live);
            Healthy(cfg, cover, t2, id, Instance(m', s.now + cfg.gap))
  {
    var m := s.running[id].mgr;
    var (t1, ok) := Renew(s.table, m.primary, id, reply);
    if ok {
      assert Holds(t1, m.primary, id) && t1[m.primary].leaseTime == s.now;
    } else if m.valid && m.renewFail == 0 {
      assert Holds(t1, m.primary, id);
      assert t1[m.primary].leaseTime >= s.table[m.primary].leaseTime || t1[m.primary].leaseTime == s.now;
    }
  }

  // ---------- promoting and stopping ----------

  lemma DemandKeepsInv(cfg: Config, cover: int, s: State, id: string, reply: Reply)
    requires Safe(cfg, cover) && Inv(cfg, cover, s) && id in s.running
    ensures Inv(cfg, cover, Do(cfg, s, Demand(id, reply)))
  {
    var inst := s.running[id];
    var m := inst.mgr;
    assert Healthy(cfg, cover, s.table, id, inst);
    var t := Consume(m, s.table, reply).1;
    OthersStayHealthy(cfg, cover, s, s.table, t, id);
    if m.backups != [] {
      forall w | w in m.backups ensures SameRow(s.table, t, w) {
        assert w != m.primary;
      }
      assert [m.backups[0]] + m.backups[1..] == m.backups;
      DistinctCons(m.backups[0], m.backups[1..]);
      PromotedIsHealthy(cfg, cover, s.table, t, id, inst);
    }
  }

  lemma PromotedIsHealthy(cfg: Config, cover: int, t: Table, t': Table, id: string, inst: Instance)
    requires Healthy(cfg, cover, t, id, inst) && inst.mgr.backups != []
    requires forall w :: w in inst.mgr.backups ==> SameRow(t, t', w)
    requires var b := inst.mgr.backups; Distinct(b[1..]) && b[0] !in b[1..]
    ensures Healthy(cfg, cover, t', id, Instance(Promote(inst.mgr), inst.deadline))
  {
    var b := inst.mgr.backups;
    assert b[0] in b;
    assert SameRow(t, t', b[0]) && Leased(t, b[0], id, inst.deadline + cfg.gap, cover);
    forall w | w in b[1..] ensures Leased(t', w, id, inst.deadline + cfg.gap, cover) {
      assert w in b && SameRow(t, t', w);
    }
  }

  lemma {:induction false} ReleaseAllOwnRows(t: Table, workers: seq<int>, id: string, db: Database, k: nat)
    ensures OwnRowsOnly(t, ReleaseAll(t, workers, id, db, k), id)
  {
    if workers != [] {
      ReleaseAllOwnRows(t, workers[..|workers| - 1], id, db, k);
    }
  }

  lemma StepKeepsInv(cfg: Config, cover: int, s: State, ev: Event)
    requires Safe(cfg, cover) && Inv(cfg, cover, s) && Enabled(s, ev)
    ensures Inv(cfg, cover, Do(cfg, s, ev))
  {
    match ev
    case Start(id, n, db) => StartKeepsInv(cfg, cover, s, id, n, db);
    case Wait(_) =>
    case Renewal(id, db) => RenewalKeepsInv(cfg, cover, s, id, db);
    case Demand(id, reply) => DemandKeepsInv(cfg, cover, s, id, reply);
    case Stop(id, db) =>
      var m := s.running[id].mgr;
      ReleaseAllOwnRows(s.table, Workers(m), id, db, 0);
      OthersStayHealthy(cfg, cover, s, s.table, Close(m, s.table, db, 0), id);
    case Crash(_) =>
  }

  lemma {:induction false} RunKeepsInv(cfg: Config, cover: int, s: State, evs: seq<Event>)
    requires Safe(cfg, cover) && Inv(cfg, cover, s)
    ensures Inv(cfg, cover, Run(cfg, s, evs))
  {
    hide Inv, Safe, Enabled, Do;
    if evs != [] {
      var front := evs[..|evs| - 1];
      RunKeepsInv(cfg, cover, s, front);
      var s1, ev := Run(cfg, s, front), evs[|evs| - 1];
      if Enabled(s1, ev) {
        StepKeepsInv(cfg, cover, s1, ev);
      }
    }
  }

  lemma InvIsExclusive(cfg: Config, cover: int, s: State)
    requires Safe(cfg, cover) && Inv(cfg, cover, s)
    ensures Exclusive(s)
  {
    forall i, j, w | i in s.running && j in s.running && Claims(s.running[i].mgr, w) && Claims(s.running[j].mgr, w)
      ensures i == j
    {
      ClaimedIsNotFree(cfg, cover, s.now, s.table, i, s.running[i], w);
      ClaimedIsNotFree(cfg, cover, s.now, s.table, j, s.running[j], w);
    }
  }

  // ---------- the condition is exact ----------

  function Answers(now: int, fault: Fault): Database { k => Reply(now, fault, {}) }

  lemma RunSnoc(cfg: Config, s: State, evs: seq<Event>, ev: Event)
    requires Enabled(Run(cfg, s, evs), ev)
    ensures Run(cfg, s, evs + [ev]) == Do(cfg, Run(cfg, s, evs), ev)
  {
    assert (evs + [ev])[..|evs + [ev]| - 1] == evs;
  }

  const ONE_WORKER: Table := map[0 := LeaseRow(false, "", 0)]

  /** Worker 0 goes to a starting instance when it is free. */
  lemma StartTakesZero(cfg: Config, s: State, id: string)
    requires id !in s.running && 0 in s.table && Free(s.table[0], s.now, cfg.Timeout())
    ensures Enabled(s, Start(id, 0, Answers(s.now, Fine)))
    ensures Do(cfg, s, Start(id, 0, Answers(s.now, Fine))) ==
            State(s.now, s.table[0 := LeaseRow(true, id, s.now)],
                  s.running[id := Instance(Manager(id, 0, [], true, 0), s.now + cfg.gap)])
  {
    var db := Answers(s.now, Fine);
    assert FirstFree(s.table, 0, cfg.Timeout(), db(0)) == Some(0);
    assert AcquireBackups(s.table[0 := LeaseRow(true, id, s.now)], id, cfg.Timeout(), 0, db, 1).1 == [];
  }

  /** Answers at this instant, with all rows but `w` locked by other transactions. */
  function OnlyRow(s: State, w: int): Database { k => Reply(s.now, Fine, s.table.Keys - {w}) }

  /** Any free worker can go to a starting instance, whichever others are free. */
  lemma StartTakes(cfg: Config, s: State, id: string, w: int)
    requires id !in s.running && w in s.table && 0 <= w <= MAX_WORKER_ROW && Free(s.table[w], s.now, cfg.Timeout())
    ensures Enabled(s, Start(id, 0, OnlyRow(s, w)))
    ensures Do(cfg, s, Start(id, 0, OnlyRow(s, w))).running ==
            s.running[id := Instance(Manager(id, w, [], true, 0), s.now + cfg.gap)]
  {
    var db := OnlyRow(s, w);
    assert FirstFree(s.table, 0, cfg.Timeout(), db(0)) == Some(w);
    assert AcquireBackups(s.table[w := LeaseRow(true, id, s.now)], id, cfg.Timeout(), 0, db, 1).1 == [];
  }

  /** The others may all be gone. */
  lemma CrashOthers(cfg: Config, s0: State, evs: seq<Event>, id: string) returns (evs': seq<Event>)
    requires id in Run(cfg, s0, evs).running
    ensures var s := Run(cfg, s0, evs); Run(cfg, s0, evs') == s.(running := map[id := s.running[id]])
    decreases |Run(cfg, s0, evs).running|
  {
    var s := Run(cfg, s0, evs);
    if j :| j in s.running && j != id {
      RunSnoc(cfg, s0, evs, Crash(j));
      assert (s.running - {j}).Keys == s.running.Keys - {j};
      evs' := CrashOthers(cfg, s0, evs + [Crash(j)], id);
    } else {
      assert s.running == map[id := s.running[id]];
      evs' := evs;
    }
  }

  /** Whoever believes in a worker that is free can lose it to another instance. */
  lemma FreeIsStolen(cfg: Config, s0: State, evs: seq<Event>, id: string)
    requires var s := Run(cfg, s0, evs);
             && s.running.Keys == {id} && s.running[id].mgr.valid
             && var w := s.running[id].mgr.primary;
                w in s.table && 0 <= w <= MAX_WORKER_ROW && Free(s.table[w], s.now, cfg.Timeout())
    ensures exists evs' :: !Exclusive(Run(cfg, s0, evs'))
  {
    hide Run, EffectiveTimeout;
    var s := Run(cfg, s0, evs);
    var w, other := s.running[id].mgr.primary, id + "'";
    assert |other| != |id|;
    StartTakes(cfg, s, other, w);
    RunSnoc(cfg, s0, evs, Start(other, 0, OnlyRow(s, w)));
    hide Do, Enabled;
    var s' := Run(cfg, s0, evs + [Start(other, 0, OnlyRow(s, w))]);
    assert Claims(s'.running[id].mgr, w) && Claims(s'.running[other].mgr, w);
  }

  lemma {:induction false} NoneRenewed(t: Table, backups: seq<int>, id: string, now: int, k: nat)
    ensures RenewBackups(t, backups, id, Answers(now, FailBefore), k) == (t, [])
  {
    if backups != [] {
      NoneRenewed(t, backups[..|backups| - 1], id, now, k);
    }
  }

  /** The believed primary runs out before it is given up. */
  ghost predicate Stale(cfg: Config, s: State, id: string)
    requires id in s.running
  {
    var m := s.running[id].mgr;
    && m.valid && m.owner == id && m.renewFail < MAX_RENEW_FAIL && s.now <= s.running[id].deadline
    && 0 <= m.primary <= MAX_WORKER_ROW && m.primary in s.table
    && GivesUpAt(cfg, m, s.running[id].deadline) > s.table[m.primary].leaseTime + cfg.Timeout()
  }

  /** A lease that does not last until the worker is given up is lost in some run. */
  lemma StaleBreaksExclusion(cfg: Config, s0: State, evs: seq<Event>, id: string)
    requires cfg.gap >= 1 && id in Run(cfg, s0, evs).running && Stale(cfg, Run(cfg, s0, evs), id)
    ensures exists evs' :: !Exclusive(Run(cfg, s0, evs'))
  {
    hide EffectiveTimeout, Run;
    var e1 := CrashOthers(cfg, s0, evs, id);
    var s := Run(cfg, s0, e1);
    var inst := s.running[id];
    var ranOut := s.table[inst.mgr.primary].leaseTime + cfg.Timeout() + 1;
    var late := if ranOut < s.now then s.now else ranOut;
    if late <= inst.deadline {
      RunSnoc(cfg, s0, e1, Wait(late));
      FreeIsStolen(cfg, s0, e1 + [Wait(late)], id);
    } else {
      var e2 := MissTick(cfg, s0, e1, id);
      RunSnoc(cfg, s0, e2, Wait(late));
      FreeIsStolen(cfg, s0, e2 + [Wait(late)], id);
    }
  }

  /** The one instance left waits for its tick, which fails; it keeps its primary for another gap. */
  lemma MissTick(cfg: Config, s0: State, evs: seq<Event>, id: string) returns (evs': seq<Event>)
    requires var s := Run(cfg, s0, evs);
             && s.running.Keys == {id} && s.now <= s.running[id].deadline
             && s.running[id].mgr.owner == id && s.running[id].mgr.valid && s.running[id].mgr.renewFail == 0
    ensures var s, s' := Run(cfg, s0, evs), Run(cfg, s0, evs');
            && s'.now == s.running[id].deadline && s'.table == s.table && s'.running.Keys == {id}
            && s'.running[id].mgr.valid && s'.running[id].mgr.primary == s.running[id].mgr.primary
            && s'.running[id].deadline == s'.now + cfg.gap
  {
    hide EffectiveTimeout;
    var s := Run(cfg, s0, evs);
    var inst := s.running[id];
    RunSnoc(cfg, s0, evs, Wait(inst.deadline));
    var e1 := evs + [Wait(inst.deadline)];
    var miss := Renewal(id, Answers(inst.deadline, FailBefore));
    NoneRenewed(s.table, inst.mgr.backups, id, inst.deadline, 1);
    hide Run;
    RunSnoc(cfg, s0, e1, miss);
    evs' := e1 + [miss];
  }

  /** With too short a timeout, a second instance takes the worker of a first one that is still valid. */
  lemma ShortTimeoutBreaksExclusion(cfg: Config)
    requires cfg.gap >= 1 && cfg.Timeout() < 2 * cfg.gap
    ensures exists evs :: !Exclusive(Run(cfg, Initial(0, ONE_WORKER), evs))
  {
    hide EffectiveTimeout;
    var s0, start := Initial(0, ONE_WORKER), Start("a", 0, Answers(0, Fine));
    StartTakesZero(cfg, s0, "a");
    RunSnoc(cfg, s0, [], start);
    StaleBreaksExclusion(cfg, s0, [] + [start], "a");
  }

  /** A configured timeout of 1.9 s reaches the database as 1 s: two gaps of 0.95 s fit the former only. */
  lemma CutToSecondsMatters(cfg: Config)
    requires cfg == Config(1_900_000_000, 950_000_000)
    ensures 2 * cfg.gap <= cfg.leaseTimeout
    ensures exists evs :: !Exclusive(Run(cfg, Initial(0, ONE_WORKER), evs))
  {
    ShortTimeoutBreaksExclusion(cfg);
  }

  /**
   Lease mutual exclusion. No worker is ever claimed by two running instances, from any table and
   under any pattern of starts, failures, promotions, closes and crashes, exactly when two renewal
   gaps fit into the timeout as the database sees it, cut to whole seconds.
   */
  lemma MutualExclusionExact(cfg: Config)
    requires cfg.gap >= 1
    ensures 2 * cfg.gap <= cfg.Timeout() <==>
            forall now, table, evs :: Exclusive(Run(cfg, Initial(now, table), evs))
  {
    if 2 * cfg.gap <= cfg.Timeout() {
      forall now, table, evs ensures Exclusive(Run(cfg, Initial(now, table), evs)) {
        RunKeepsInv(cfg, 2 * cfg.gap, Initial(now, table), evs);
        InvIsExclusive(cfg, 2 * cfg.gap, Run(cfg, Initial(now, table), evs));
      }
    } else {
      ShortTimeoutBreaksExclusion(cfg);
    }
  }
}
