/** What a half undone promotion means for the IDs: an instance that is its own backup repeats one by itself. */
module ClusterRaces {
  import opened Wrappers
  import opened Sequences
  import opened SnowflakeGenerator
  import opened WorkerLeaseStore
  import opened WorkerLeaseManager
  import opened ClusterProtocol
  import opened ClusterLimits
  import Lease = LeaseProtocol
  import Races = LeaseRaces
  import Service = SnowflakeService

  /** A call in which the clock is behind at first and shows `t` after the switch. */
  function FallBack(id: string, t: int, now: int): Event {
    Serve(id, Reading(t - 1, t - 1), Reading(t, t), Reply(now, Fine, {}))
  }

  /** The call promotes the first backup and issues sequence 0 of millisecond `t` on it. */
  lemma FallBackIssues(cfg: Config, rules: Rules, s: State, id: string, t: int)
    requires id in s.lease.running && id in s.members && s.lease.running[id].mgr.valid
    requires s.lease.running[id].mgr.backups != [] && s.members[id].gen.lastTimestamp == t >= 0
    requires Near(cfg, t, s.lease.now) && Near(cfg, t - 1, s.lease.now)
    ensures Allowed(cfg, rules, s, FallBack(id, t, s.lease.now))
    ensures Do(cfg, s, FallBack(id, t, s.lease.now)).issued ==
            s.issued + [Issue(id, Ticket(t, s.lease.running[id].mgr.backups[0], 0))]
  {
    var ev, g, w := FallBack(id, t, s.lease.now), s.members[id].gen, s.lease.running[id].mgr.backups[0];
    Service.ServeByCases(ServiceOf(s, id), ev.first, ev.second, s.lease.table, ev.reply);
    assert !MustWait(SwitchWorker(g, w), t);
    hide Service.Serve, NextSequence;
  }

  /** At the turn of a millisecond, an instance whose worker is also its first backup repeats an ID. */
  lemma OwnBackupRepeatsId(cfg: Config, rules: Rules, s: State, id: string, t: int) returns (s': State)
    requires id in s.lease.running && id in s.members && s.lease.running[id].mgr.valid
    requires s.lease.running[id].mgr.backups != []
    requires s.members[id].gen == NewGenerator(s.lease.running[id].mgr.backups[0])
    requires t >= 0 && Near(cfg, t, s.lease.now) && Near(cfg, t - 1, s.lease.now)
    ensures Reaches(cfg, rules, s, s') && !Distinct(IdsIssued(cfg, s'))
  {
    hide Reaches, Allowed, Do, Near;
    ReachesItself(cfg, rules, s);
    ServeFirstOfMillisecond(cfg, rules, s, id, t);
    ReachesNext(cfg, rules, s, s, ServeAt(id, t));
    var s1 := Do(cfg, s, ServeAt(id, t));
    FallBackIssues(cfg, rules, s1, id, t);
    ReachesNext(cfg, rules, s, s1, FallBack(id, t, s.lease.now));
    s' := Do(cfg, s1, FallBack(id, t, s.lease.now));
    SameTicketSameId(cfg, s', |s.issued|, |s.issued| + 1);
  }

  /** After an interrupted tick, the generator of the instance having switched to the promoted worker. */
  function Interrupted(cfg: Config, s: State, id: string, db: Database, at: Races.Moment, reply: Reply): State
    requires id in s.lease.running && id in s.members && s.lease.running[id].mgr.backups != []
  {
    s.(lease := Races.Interrupted(cfg.lease, s.lease, id, db, at, reply),
       members := s.members[id := s.members[id].(gen := NewGenerator(s.lease.running[id].mgr.backups[0]))])
  }

  /**
   From every healthy state: if a promotion falls into a tick that confirms the promoted worker's renewal,
   and the clock is seen to fall back once more by a nanosecond at the turn of a millisecond, the instance
   repeats an ID, although every release is seen and every rest is kept.
   */
  lemma InterruptedTickRepeatsId(cfg: Config, rules: Rules, s: State, id: string, db: Database, at: Races.Moment,
                                 reply: Reply, t: int) returns (s': State)
    requires Sound(cfg) && Lease.Inv(cfg.lease, cfg.lease.Timeout(), s.lease) && SchemaRows(s.lease.table)
    requires Lease.Enabled(s.lease, Lease.Renewal(id, db)) && id in s.members && db(1).fault.Fine?
    requires s.lease.running[id].mgr.backups != []
    requires t >= 0 && Near(cfg, t, s.lease.now) && Near(cfg, t - 1, s.lease.now)
    ensures Reaches(cfg, rules, Interrupted(cfg, s, id, db, at, reply), s') && !Distinct(IdsIssued(cfg, s'))
  {
    hide Reaches, Near, Lease.Inv, Races.InterruptedTick;
    Races.InterruptedOutcome(cfg.lease, s.lease, id, db, at, reply);
    s' := OwnBackupRepeatsId(cfg, rules, Interrupted(cfg, s, id, db, at, reply), id, t);
  }
}
