/**
 Why ticks and promotions must not interleave, and when it does no harm. The source's tick works on a
 copy of primary and backups and writes the surviving backups back at the end; a promotion that falls
 between is half undone, and the promoted worker starts without a failed renewal on its record.
 */
module LeaseRaces {
  import opened Sequences
  import opened WorkerLeaseStore
  import opened WorkerLeaseManager
  import opened LeaseProtocol

  /** Where the promotion falls: before any renewal, before the primary's is counted, or before the write-back. */
  datatype Moment = BeforeRenewal | BeforeCount | BeforeWriteBack

  /** A tick interrupted by a promotion; statement `k` renews the primary, the next ones the backups. */
  function InterruptedTick(m: Manager, t: Table, db: Database, k: nat, at: Moment, reply: Reply): (Manager, Table) {
    match at
    case BeforeRenewal =>
      var (promoted, t1, _) := Consume(m, t, reply);
      var (t2, ok) := Renew(t1, m.primary, m.owner, db(k));
      var (t3, live) := RenewBackups(t2, m.backups, m.owner, db, k + 1);
      (CountRenewal(promoted, ok).(backups := live), t3)
    case BeforeCount =>
      var (t1, ok) := Renew(t, m.primary, m.owner, db(k));
      var (promoted, t2, _) := Consume(m, t1, reply);
      var (t3, live) := RenewBackups(t2, m.backups, m.owner, db, k + 1);
      (CountRenewal(promoted, ok).(backups := live), t3)
    case BeforeWriteBack =>
      var (t1, ok) := Renew(t, m.primary, m.owner, db(k));
      var (t2, live) := RenewBackups(t1, m.backups, m.owner, db, k + 1);
      var (promoted, t3, _) := Consume(CountRenewal(m, ok), t2, reply);
      (promoted.(backups := live), t3)
  }

  /** The worker just promoted is a backup again exactly when its renewal in the tick succeeded. */
  lemma PromotedReturnsToBackups(m: Manager, t: Table, db: Database, k: nat, at: Moment, reply: Reply)
    requires m.backups != [] && Distinct(m.backups) && m.primary !in m.backups
    ensures var m' := InterruptedTick(m, t, db, k, at, reply).0;
            && m'.primary == m.backups[0] && m'.valid
            && (m'.primary in m'.backups <==> db(k + 1).fault.Fine? && Holds(t, m.backups[0], m.owner))
            && (m'.primary in m'.backups ==> m'.backups[0] == m'.primary)
  {
    var met := TableMet(m, t, db, k, at, reply);
    EachBackupRenewed(met, m.backups, m.owner, db, k + 1, 0);
    hide RenewBackups;
  }

  /** The table as the renewals of the backups find it. */
  function TableMet(m: Manager, t: Table, db: Database, k: nat, at: Moment, reply: Reply): Table {
    match at
    case BeforeRenewal => Renew(Consume(m, t, reply).1, m.primary, m.owner, db(k)).0
    case BeforeCount => Consume(m, Renew(t, m.primary, m.owner, db(k)).0, reply).1
    case BeforeWriteBack => Renew(t, m.primary, m.owner, db(k)).0
  }

  // ---------- when the interruption does no harm ----------

  function Interrupted(cfg: Config, s: State, id: string, db: Database, at: Moment, reply: Reply): State
    requires id in s.running
  {
    var (m, t) := InterruptedTick(s.running[id].mgr, s.table, db, 0, at, reply);
    State(s.now, t, s.running[id := Instance(m, s.now + cfg.gap)])
  }

  /** The failed renewal of the old primary is held against the new one. */
  predicate CountedAgainstNew(m: Manager, t: Table, db: Database, k: nat, at: Moment, reply: Reply) {
    match at
    case BeforeRenewal => !Renew(Consume(m, t, reply).1, m.primary, m.owner, db(k)).1
    case BeforeCount => !Renew(t, m.primary, m.owner, db(k)).1
    case BeforeWriteBack => false
  }

  /**
   The promoted worker must not learn that it was renewed, or it becomes its own backup; and unless the
   renewal took effect all the same, or one failure is already on its record, the old lease must last
   two more gaps.
   */
  predicate Harmless(cfg: Config, s: State, id: string, db: Database, at: Moment, reply: Reply)
    requires id in s.running && s.running[id].mgr.backups != [] && s.running[id].mgr.backups[0] in s.table
  {
    var m := s.running[id].mgr;
    match db(1).fault
    case Fine => false
    case FailAfter => true
    case FailBefore =>
      CountedAgainstNew(m, s.table, db, 0, at, reply) ||
      s.now + 2 * cfg.gap <= s.table[m.backups[0]].leaseTime + cfg.Timeout()
  }

  /** Everything is in order but, possibly, the primary of `id`, whose row it does hold. */
  ghost predicate OnlyPrimaryInDoubt(cfg: Config, s: State, id: string) {
    && SchemaRows(s.table) && id in s.running
    && (forall j :: j in s.running ==> s.now <= s.running[j].deadline)
    && (forall j :: j in s.running && j != id ==> Healthy(cfg, cfg.Timeout(), s.table, j, s.running[j]))
    && var m := s.running[id].mgr;
       && m.owner == id && m.valid && m.renewFail < MAX_RENEW_FAIL && Holds(s.table, m.primary, id)
       && Distinct(m.backups) && (m.primary in m.backups ==> m.backups[0] == m.primary)
       && forall w :: w in m.backups ==> Leased(s.table, w, id, s.running[id].deadline + cfg.gap, cfg.Timeout())
  }

  /** Such a state stays exclusive for ever exactly when that primary is no backup and not stale. */
  lemma ExclusiveForeverExact(cfg: Config, s: State, id: string)
    requires Sound(cfg) && OnlyPrimaryInDoubt(cfg, s, id)
    ensures (forall evs :: Exclusive(Run(cfg, s, evs))) <==>
            s.running[id].mgr.primary !in s.running[id].mgr.backups && !Stale(cfg, s, id)
  {
    var m := s.running[id].mgr;
    assert Run(cfg, s, []) == s;
    if m.primary in m.backups {
      OwnBackupBreaksExclusion(cfg, s, id);
    } else if Stale(cfg, s, id) {
      StaleBreaksExclusion(cfg, s, [], id);
    } else {
      assert Inv(cfg, cfg.Timeout(), s);
      forall evs ensures Exclusive(Run(cfg, s, evs)) {
        RunKeepsInv(cfg, cfg.Timeout(), s, evs);
        InvIsExclusive(cfg, cfg.Timeout(), Run(cfg, s, evs));
      }
    }
  }

  /** One more promotion releases the very worker that is promoted, and another instance takes it. */
  lemma OwnBackupBreaksExclusion(cfg: Config, s: State, id: string)
    requires SchemaRows(s.table) && id in s.running
    requires var m := s.running[id].mgr;
             m.backups != [] && m.backups[0] == m.primary && m.owner == id && Holds(s.table, m.primary, id)
    ensures exists evs :: !Exclusive(Run(cfg, s, evs))
  {
    hide EffectiveTimeout;
    assert Run(cfg, s, []) == s;
    var e1 := CrashOthers(cfg, s, [], id);
    var again := LeaseProtocol.Demand(id, Reply(s.now, Fine, {}));
    RunSnoc(cfg, s, e1, again);
    FreeIsStolen(cfg, s, e1 + [again], id);
  }

  /** Only the row of the old primary and the renewed rows are touched. */
  ghost predicate OnlyTouches(t: Table, t': Table, w: int, id: string) {
    t'.Keys == t.Keys && OwnRowsOnly(t, t', id) && forall v :: v != w ==> SameAt(t, t', v)
  }

  /** The manager an interrupted tick leaves, and where its table differs from the renewed one. */
  lemma InterruptedShape(m: Manager, t: Table, db: Database, at: Moment, reply: Reply)
    requires m.backups != []
    ensures var met := TableMet(m, t, db, 0, at, reply);
            var (renewed, live) := RenewBackups(met, m.backups, m.owner, db, 1);
            var (m', t') := InterruptedTick(m, t, db, 0, at, reply);
            && OnlyTouches(t, met, m.primary, m.owner) && OnlyTouches(renewed, t', m.primary, m.owner)
            && m' == Manager(m.owner, m.backups[0], live, true,
                             if CountedAgainstNew(m, t, db, 0, at, reply) then 1 else 0)
  {
    hide RenewBackups;
  }

  /** What an interrupted tick leaves behind. */
  lemma InterruptedOutcome(cfg: Config, s: State, id: string, db: Database, at: Moment, reply: Reply)
    requires Sound(cfg) && Inv(cfg, cfg.Timeout(), s) && Enabled(s, Renewal(id, db)) && SchemaRows(s.table)
    requires s.running[id].mgr.backups != []
    ensures var s' := Interrupted(cfg, s, id, db, at, reply);
            var m, m' := s.running[id].mgr, s'.running[id].mgr;
            var w := m.backups[0];
            && OnlyPrimaryInDoubt(cfg, s', id) && m'.primary == w && w in s.table
            && (w in m'.backups <==> db(1).fault.Fine?)
            && m'.renewFail == (if CountedAgainstNew(m, s.table, db, 0, at, reply) then 1 else 0)
            && s'.table[w].leaseTime == if db(1).fault.FailBefore? then s.table[w].leaseTime else s.now
  {
    hide InterruptedTick, TableMet, RenewBackups, CountedAgainstNew, EffectiveTimeout, Renew;
    var m := s.running[id].mgr;
    var met := TableMet(m, s.table, db, 0, at, reply);
    assert Healthy(cfg, cfg.Timeout(), s.table, id, s.running[id]);
    InterruptedShape(m, s.table, db, at, reply);
    forall w | w in m.backups ensures w != m.primary && SameAt(s.table, met, w) && Holds(met, w, id) {
      assert Leased(s.table, w, id, s.running[id].deadline + cfg.gap, cfg.Timeout());
    }
    RowsAfterRenewals(met, m, db, s.now);
    var (t2, live) := RenewBackups(met, m.backups, id, db, 1);
    var s' := Interrupted(cfg, s, id, db, at, reply);
    assert m.backups[0] in m.backups;
    assert OwnRowsOnly(s.table, s'.table, id);
    OthersStayHealthy(cfg, cfg.Timeout(), s, s.table, s'.table, id);
    assert forall w :: w in m.backups ==> SameAt(t2, s'.table, w);
    assert s'.running[id].mgr.backups == live && s'.running[id].deadline == s.now + cfg.gap;
    assert forall w :: w in live ==> Leased(s'.table, w, id, s.now + 2 * cfg.gap, cfg.Timeout());
    hide Healthy, Inv;
    assert forall j :: j in s'.running ==> s'.now <= s'.running[j].deadline;
    assert SchemaRows(s'.table);
    assert OnlyPrimaryInDoubt(cfg, s', id);
  }

  lemma RowsAfterRenewals(t: Table, m: Manager, db: Database, now: int)
    requires AtInstant(db, now) && m.backups != [] && Distinct(m.backups)
    requires forall w :: w in m.backups ==> Holds(t, w, m.owner)
    ensures var (t', live) := RenewBackups(t, m.backups, m.owner, db, 1);
            var w := m.backups[0];
            && t'.Keys == t.Keys && OwnRowsOnly(t, t', m.owner)
            && Distinct(live) && (forall v :: v in live ==> v in m.backups)
            && (forall v :: v in live ==> Holds(t', v, m.owner) && t'[v].leaseTime == now)
            && (w in live <==> db(1).fault.Fine?) && (w in live ==> live[0] == w)
            && Holds(t', w, m.owner) && t'[w].leaseTime == if db(1).fault.FailBefore? then t[w].leaseTime else now
  {
    assert m.backups[0] in m.backups && db(1).now == now;
    EachBackupRenewed(t, m.backups, m.owner, db, 1, 0);
    RenewBackupsFrame(t, m.backups, m.owner, db, 1);
    RenewBackupsIsSafe(t, m.backups, m.owner, db, 1, now);
    LiveIsSubsequence(t, m.backups, m.owner, db, 1);
    SubsequenceDistinct(RenewBackups(t, m.backups, m.owner, db, 1).1, m.backups);
    hide RenewBackups;
  }

  /**
   From every healthy state, a tick interrupted by a promotion keeps exclusion in all later runs
   exactly when it is harmless, which can be told from the answers and the lease at that moment.
   */
  lemma InterruptedTickExact(cfg: Config, s: State, id: string, db: Database, at: Moment, reply: Reply)
    requires Sound(cfg) && Inv(cfg, cfg.Timeout(), s) && Enabled(s, Renewal(id, db)) && SchemaRows(s.table)
    requires s.running[id].mgr.backups != [] && s.running[id].mgr.backups[0] in s.table
    ensures (forall evs :: Exclusive(Run(cfg, Interrupted(cfg, s, id, db, at, reply), evs))) <==>
            Harmless(cfg, s, id, db, at, reply)
  {
    InterruptedOutcome(cfg, s, id, db, at, reply);
    ExclusiveForeverExact(cfg, Interrupted(cfg, s, id, db, at, reply), id);
    hide Run, InterruptedTick, CountedAgainstNew, EffectiveTimeout;
    var inst := s.running[id];
    assert Healthy(cfg, cfg.Timeout(), s.table, id, inst);
    assert inst.mgr.backups[0] in inst.mgr.backups;
  }

  /** Alice at her first tick: primary 0 and backup 1, both leased when she started. */
  ghost function AliceTicks(cfg: Config): State {
    State(cfg.gap, map[0 := LeaseRow(true, "a", 0), 1 := LeaseRow(true, "a", 0)],
          map["a" := Instance(Manager("a", 0, [1], true, 0), cfg.gap)])
  }

  lemma AliceIsHealthy(cfg: Config, cover: int)
    requires Safe(cfg, cover)
    ensures Inv(cfg, cover, AliceTicks(cfg)) && SchemaRows(AliceTicks(cfg).table)
  {
  }

  /** With every statement succeeding, the interruption ends in two instances claiming one worker. */
  lemma InterruptedTickBreaksExclusion(cfg: Config, at: Moment)
    requires Sound(cfg)
    ensures var s := Interrupted(cfg, AliceTicks(cfg), "a", Answers(cfg.gap, Fine), at, Reply(cfg.gap, Fine, {}));
            exists evs :: !Exclusive(Run(cfg, s, evs))
  {
    AliceIsHealthy(cfg, cfg.Timeout());
    hide Run, Interrupted, Sound, Inv, EffectiveTimeout;
    InterruptedTickExact(cfg, AliceTicks(cfg), "a", Answers(cfg.gap, Fine), at, Reply(cfg.gap, Fine, {}));
  }

  /** A tick is due to a healthy instance with a backup, whose renewal will not be confirmed. */
  ghost predicate Unconfirmed(cfg: Config, s: State, id: string, db: Database) {
    && Inv(cfg, 2 * cfg.gap, s) && Enabled(s, Renewal(id, db)) && !db(1).fault.Fine?
    && s.running[id].mgr.backups != [] && s.running[id].mgr.backups[0] in s.table
  }

  lemma ThreeGapsSuffice(cfg: Config, s: State, id: string, db: Database, at: Moment, reply: Reply)
    requires 3 * cfg.gap <= cfg.Timeout() && Unconfirmed(cfg, s, id, db)
    ensures Harmless(cfg, s, id, db, at, reply)
  {
    hide CountedAgainstNew, EffectiveTimeout;
    var inst := s.running[id];
    assert s.now <= inst.deadline && Healthy(cfg, 2 * cfg.gap, s.table, id, inst);
    assert inst.mgr.backups[0] in inst.mgr.backups;
    assert Leased(s.table, inst.mgr.backups[0], id, inst.deadline + cfg.gap, 2 * cfg.gap);
  }

  /**
   An interrupted tick in which the promoted worker's renewal was not confirmed is harmless in every
   healthy state exactly when three gaps fit into the timeout.
   */
  lemma ThreeGapsExact(cfg: Config)
    requires Sound(cfg)
    ensures 3 * cfg.gap <= cfg.Timeout() <==>
            forall s, id, db, at, reply :: Unconfirmed(cfg, s, id, db) ==> Harmless(cfg, s, id, db, at, reply)
  {
    if 3 * cfg.gap <= cfg.Timeout() {
      forall s, id, db, at, reply | Unconfirmed(cfg, s, id, db) ensures Harmless(cfg, s, id, db, at, reply) {
        ThreeGapsSuffice(cfg, s, id, db, at, reply);
      }
    } else {
      hide EffectiveTimeout;
      var s, db, reply := AliceTicks(cfg), Answers(cfg.gap, FailBefore), Reply(cfg.gap, Fine, {});
      AliceIsHealthy(cfg, 2 * cfg.gap);
      LateWriteBackIsNotCounted(s.running["a"].mgr, s.table, db, reply);
      assert Unconfirmed(cfg, s, "a", db) && !Harmless(cfg, s, "a", db, BeforeWriteBack, reply);
    }
  }

  lemma LateWriteBackIsNotCounted(m: Manager, t: Table, db: Database, reply: Reply)
    ensures !CountedAgainstNew(m, t, db, 0, BeforeWriteBack, reply)
  {
  }
}
