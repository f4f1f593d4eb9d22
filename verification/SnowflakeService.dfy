/**
 The Snowflake service of one instance: the generator behind the validity gate, with a switch to a
 backup worker when the clock runs backwards. Calls are taken one after the other.
 */
module SnowflakeService {
  import opened Wrappers
  import opened Sequences
  import opened SnowflakeLayout
  import opened SnowflakeGenerator
  import opened WorkerLeaseStore
  import opened WorkerLeaseManager

  /** `mgr` is None for a statically configured worker. */
  datatype Service = Service(gen: GenState, mgr: Option<Manager>)

  datatype ServeError =
    | WorkerIdInvalid
    | ClockMovedBackwards(offset: int)
    | GeneratorError(cause: ClockBackwards)
    | InvalidArgument

  /** One GenerateSnowflakeID call; `second` is read only after a switch, `reply` answers the release. */
  function Serve(sv: Service, first: Reading, second: Reading, t: Table, reply: Reply)
    : (Service, Table, Result<Ticket, ServeError>)
  {
    if sv.mgr.Some? && !sv.mgr.value.valid then (sv, t, Err(WorkerIdInvalid))
    else
      var (g1, r1) := Generate(sv.gen, first);
      if r1.Ok? then (sv.(gen := g1), t, Ok(r1.value))
      else if sv.mgr.None? then (sv, t, Err(GeneratorError(r1.error)))
      else
        var (m, t', backup) := Consume(sv.mgr.value, t, reply);
        if backup.None? then (Service(sv.gen, Some(m)), t', Err(ClockMovedBackwards(r1.error.offset)))
        else
          var (g2, r2) := Generate(SwitchWorker(g1, backup.value), second);
          (Service(g2, Some(m)), t',
           if r2.Ok? then Ok(r2.value) else Err(ClockMovedBackwards(r2.error.offset)))
  }

  /** What can happen to a service: a call, or a renewal tick of its manager. */
  datatype Event =
    | Call(first: Reading, second: Reading, t: Table, reply: Reply)
    | LeaseTick(t: Table, db: Database)

  predicate Feasible(sv: Service, ev: Event) { ev.Call? ==> Possible(sv.gen, ev.first) }

  function Step(sv: Service, ev: Event): (Service, seq<Ticket>) {
    match ev
    case Call(first, second, t, reply) =>
      var (sv', _, r) := Serve(sv, first, second, t, reply);
      (sv', if r.Ok? then [r.value] else [])
    case LeaseTick(t, db) =>
      (if sv.mgr.Some? then sv.(mgr := Some(RenewOnce(sv.mgr.value, t, db, 0).0)) else sv, [])
  }

  /** Any history of a service; every event brings its own clock readings and its own table. */
  function Steps(sv: Service, evs: seq<Event>): (Service, seq<Ticket>) {
    if evs == [] then (sv, [])
    else
      var (sv1, issued) := Steps(sv, evs[..|evs| - 1]);
      if Feasible(sv1, evs[|evs| - 1]) then
        var (sv2, more) := Step(sv1, evs[|evs| - 1]);
        (sv2, issued + more)
      else (sv1, issued)
  }

  function Backups(sv: Service): seq<int> { if sv.mgr.Some? then sv.mgr.value.backups else [] }

  // ---------- uniqueness within one service ----------

  /** The ticket is not above the state of the generator. */
  ghost predicate NotAbove(g: GenState, t: Ticket) {
    !LexLess(g.lastTimestamp, g.sequence, t.timestamp, t.sequence)
  }

  ghost predicate WorkersOf(acquired: set<int>, sv: Service, issued: seq<Ticket>) {
    && sv.gen.worker in acquired
    && (forall w :: w in Backups(sv) ==> w in acquired)
    && (forall t :: t in issued ==> t.worker in acquired && 0 <= t.sequence <= MAX_SEQUENCE)
  }

  /** Backups are untouched, and the current worker has not been used beyond the generator's state. */
  ghost predicate Inv(sv: Service, issued: seq<Ticket>) {
    && ValidGen(sv.gen)
    && Distinct(Backups(sv))
    && sv.gen.worker !in Backups(sv)
    && (forall t :: t in issued ==> t.worker !in Backups(sv))
    && (forall t :: t in issued && t.worker == sv.gen.worker ==> NotAbove(sv.gen, t))
    && Distinct(issued)
  }

  lemma GenerateKeepsInv(sv: Service, issued: seq<Ticket>, r: Reading)
    requires Inv(sv, issued) && Possible(sv.gen, r)
    ensures var (g, out) := Generate(sv.gen, r);
            Inv(sv.(gen := g), issued + if out.Ok? then [out.value] else [])
  {
    GenerateRises(sv.gen, r);
    hide Generate, Possible, MustWait;
    var (g, out) := Generate(sv.gen, r);
    if out.Ok? {
      assert out.value !in issued;
      assert Distinct(issued + [out.value]);
      forall t | t in issued + [out.value] && t.worker == g.worker ensures NotAbove(g, t) {
        if t in issued {
          assert NotAbove(sv.gen, t);
        }
      }
    } else {
      assert issued + [] == issued;
    }
  }

  lemma SwitchKeepsInv(sv: Service, issued: seq<Ticket>)
    requires Inv(sv, issued) && sv.mgr.Some? && Backups(sv) != []
    ensures var m := sv.mgr.value;
            && Inv(Service(sv.gen, Some(Promote(m))), issued)
            && Inv(Service(SwitchWorker(sv.gen, m.backups[0]), Some(Promote(m))), issued)
  {
    var b := sv.mgr.value.backups;
    assert [b[0]] + b[1..] == b;
    DistinctCons(b[0], b[1..]);
  }

  lemma SwitchedNeverWaits(g: GenState, worker: int, now: int)
    ensures !MustWait(SwitchWorker(g, worker), now)
  {
    NextSequenceIsModulo(SwitchWorker(g, worker));
  }

  lemma ServeKeepsInv(sv: Service, issued: seq<Ticket>, first: Reading, second: Reading, t: Table, reply: Reply)
    requires Inv(sv, issued) && Possible(sv.gen, first)
    ensures var (sv', _, r) := Serve(sv, first, second, t, reply);
            Inv(sv', issued + if r.Ok? then [r.value] else [])
  {
    GenerateKeepsInv(sv, issued, first);
    GenerateRises(sv.gen, first);
    assert issued + [] == issued;
    if (sv.mgr.Some? ==> sv.mgr.value.valid) && Generate(sv.gen, first).1.Err? && sv.mgr.Some? {
      var m := sv.mgr.value;
      if m.backups != [] {
        SwitchKeepsInv(sv, issued);
        SwitchedNeverWaits(sv.gen, m.backups[0], second.now);
        GenerateKeepsInv(Service(SwitchWorker(sv.gen, m.backups[0]), Some(Promote(m))), issued, second);
      }
    }
  }

  lemma TickKeepsInv(sv: Service, issued: seq<Ticket>, t: Table, db: Database)
    requires Inv(sv, issued) && sv.mgr.Some?
    ensures Inv(sv.(mgr := Some(RenewOnce(sv.mgr.value, t, db, 0).0)), issued)
  {
    var m := sv.mgr.value;
    var t1 := Renew(t, m.primary, m.owner, db(0)).0;
    LiveIsSubsequence(t1, m.backups, m.owner, db, 1);
    SubsequenceDistinct(RenewBackups(t1, m.backups, m.owner, db, 1).1, m.backups);
  }

  lemma StepKeepsInv(sv: Service, issued: seq<Ticket>, ev: Event)
    requires Inv(sv, issued) && Feasible(sv, ev)
    ensures Inv(Step(sv, ev).0, issued + Step(sv, ev).1)
  {
    match ev
    case Call(first, second, t, reply) => ServeKeepsInv(sv, issued, first, second, t, reply);
    case LeaseTick(t, db) =>
      assert issued + [] == issued;
      if sv.mgr.Some? {
        TickKeepsInv(sv, issued, t, db);
      }
  }

  /** Only workers the service was given ever appear, in the generator, the backups or an ID. */
  lemma StepKeepsWorkers(acquired: set<int>, sv: Service, issued: seq<Ticket>, ev: Event)
    requires WorkersOf(acquired, sv, issued) && ValidGen(sv.gen) && Feasible(sv, ev)
    ensures WorkersOf(acquired, Step(sv, ev).0, issued + Step(sv, ev).1)
  {
    match ev
    case Call(first, second, t, reply) =>
      GenerateRises(sv.gen, first);
      if Backups(sv) != [] {
        var b := Backups(sv)[0];
        SwitchedNeverWaits(sv.gen, b, second.now);
        GenerateRises(SwitchWorker(sv.gen, b), second);
        assert b in Backups(sv);
      }
    case LeaseTick(t, db) =>
      if sv.mgr.Some? {
        var m := sv.mgr.value;
        var t1 := Renew(t, m.primary, m.owner, db(0)).0;
        LiveIsSubsequence(t1, m.backups, m.owner, db, 1);
        SubsequenceDistinct(RenewBackups(t1, m.backups, m.owner, db, 1).1, m.backups);
      }
  }

  /** A new service: a new generator on a static worker, or on the primary of a manager that is valid. */
  ghost predicate JustBuilt(sv: Service) {
    && sv.gen == NewGenerator(sv.gen.worker)
    && (sv.mgr.Some? ==> sv.mgr.value.primary == sv.gen.worker && sv.mgr.value.valid)
  }

  function WorkersOfService(sv: Service): seq<int> { [sv.gen.worker] + Backups(sv) }

  lemma {:induction false} StepsKeepInv(acquired: set<int>, sv: Service, evs: seq<Event>)
    requires JustBuilt(sv) && Distinct(WorkersOfService(sv)) && WorkersOf(acquired, sv, [])
    ensures var (sv', issued) := Steps(sv, evs); Inv(sv', issued) && WorkersOf(acquired, sv', issued)
  {
    if evs == [] {
      DistinctCons(sv.gen.worker, Backups(sv));
    } else {
      var front := evs[..|evs| - 1];
      StepsKeepInv(acquired, sv, front);
      hide Inv, WorkersOf, Step, Feasible;
      var (sv1, issued) := Steps(sv, front);
      if Feasible(sv1, evs[|evs| - 1]) {
        StepKeepsInv(sv1, issued, evs[|evs| - 1]);
        assert ValidGen(sv1.gen) by { InvIsValid(sv1, issued); }
        StepKeepsWorkers(acquired, sv1, issued, evs[|evs| - 1]);
      }
    }
  }

  lemma InvIsValid(sv: Service, issued: seq<Ticket>)
    requires Inv(sv, issued)
    ensures ValidGen(sv.gen) && Distinct(issued)
  {
  }

  function IdsOf(node: Node, issued: seq<Ticket>): (ids: seq<int>)
    ensures |ids| == |issued|
  {
    seq(|issued|, i requires 0 <= i < |issued| => IdOf(node, issued[i]))
  }

  ghost predicate ClockInWindow(node: Node, issued: seq<Ticket>) {
    forall t :: t in issued ==> InWindow(t.timestamp - node.epoch)
  }

  /** Distinct tickets of one node are distinct int64 IDs as long as the clock stays in its window. */
  lemma DistinctIds(node: Node, issued: seq<Ticket>)
    requires Distinct(issued) && ClockInWindow(node, issued)
    requires forall t :: t in issued ==> FieldsInRange(node.datacenter, t.worker, t.sequence)
    ensures Distinct(IdsOf(node, issued))
  {
    hide IdOf, FieldsInRange;
    forall i, j | 0 <= i < j < |issued| ensures IdsOf(node, issued)[i] != IdsOf(node, issued)[j] {
      assert issued[i] in issued && issued[j] in issued;
      TicketFromId(node, issued[i], issued[j]);
    }
  }

  lemma TicketFromId(node: Node, a: Ticket, b: Ticket)
    requires FieldsInRange(node.datacenter, a.worker, a.sequence)
    requires FieldsInRange(node.datacenter, b.worker, b.sequence)
    requires InWindow(a.timestamp - node.epoch) && InWindow(b.timestamp - node.epoch)
    ensures IdOf(node, a) == IdOf(node, b) ==> a == b
  {
    PackInjective(a.timestamp - node.epoch, node.datacenter, a.worker, a.sequence,
                  b.timestamp - node.epoch, node.datacenter, b.worker, b.sequence);
  }

  /** From workers that are all different, all IDs are, whatever the clock and the table do. */
  lemma DistinctWorkersSuffice(node: Node, sv: Service, evs: seq<Event>)
    requires JustBuilt(sv) && Distinct(WorkersOfService(sv)) && 0 <= node.datacenter <= MAX_DATACENTER
    requires forall w :: w in WorkersOfService(sv) ==> 0 <= w <= MAX_WORKER
    requires ClockInWindow(node, Steps(sv, evs).1)
    ensures Distinct(IdsOf(node, Steps(sv, evs).1))
  {
    var acquired := set w | w in WorkersOfService(sv);
    StepsKeepInv(acquired, sv, evs);
    var issued := Steps(sv, evs).1;
    forall t | t in issued ensures FieldsInRange(node.datacenter, t.worker, t.sequence) {
      assert t.worker in acquired;
    }
    InvIsValid(Steps(sv, evs).0, issued);
    DistinctIds(node, issued);
  }

  /** A call in millisecond `ms`, and calls whose clock is a millisecond behind until it switches worker. */
  function FirstCall(ms: int): Event { Call(Reading(ms, ms), Reading(ms, ms), map[], Reply(0, Fine, {})) }

  function SwitchingCall(ms: int): Event { Call(Reading(ms - 1, ms - 1), Reading(ms, ms), map[], Reply(0, Fine, {})) }

  function Tour(ms: int, n: nat): seq<Event> {
    if n == 0 then [FirstCall(ms)] else Tour(ms, n - 1) + [SwitchingCall(ms)]
  }

  /** The state of a service that has issued one ID on each of its first n + 1 workers. */
  ghost predicate Toured(sv0: Service, ms: int, n: nat, sv: Service, issued: seq<Ticket>) {
    && n < |WorkersOfService(sv0)|
    && sv.gen == GenState(WorkersOfService(sv0)[n], ms, 0)
    && (sv.mgr.Some? <==> sv0.mgr.Some?)
    && (sv.mgr.Some? ==> sv.mgr.value.valid && sv.mgr.value.backups == Backups(sv0)[n..])
    && |issued| == n + 1 && forall i :: 0 <= i <= n ==> issued[i] == Ticket(ms, WorkersOfService(sv0)[i], 0)
  }

  lemma TourFirst(sv0: Service, ms: int)
    requires JustBuilt(sv0) && ms >= 1
    ensures Toured(sv0, ms, 0, Steps(sv0, [FirstCall(ms)]).0, Steps(sv0, [FirstCall(ms)]).1)
  {
    var evs := [FirstCall(ms)];
    assert evs[..0] == [] && Steps(sv0, []) == (sv0, []);
    assert !MustWait(sv0.gen, ms);
    assert Backups(sv0)[0..] == Backups(sv0);
  }

  lemma TourNext(sv0: Service, ms: int, n: nat, sv: Service, issued: seq<Ticket>)
    requires ms >= 1 && Toured(sv0, ms, n, sv, issued) && n + 1 < |WorkersOfService(sv0)|
    ensures Feasible(sv, SwitchingCall(ms))
    ensures var (sv', more) := Step(sv, SwitchingCall(ms)); Toured(sv0, ms, n + 1, sv', issued + more)
  {
    var m := sv.mgr.value;
    assert m.backups[0] == WorkersOfService(sv0)[n + 1];
    assert m.backups[1..] == Backups(sv0)[n + 1..];
    hide NextSequence;
  }

  lemma {:induction false} TourIssuesOnEach(sv0: Service, ms: int, n: nat)
    requires JustBuilt(sv0) && ms >= 1 && n < |WorkersOfService(sv0)|
    ensures Toured(sv0, ms, n, Steps(sv0, Tour(ms, n)).0, Steps(sv0, Tour(ms, n)).1)
  {
    hide Toured, Step, Feasible, FirstCall, SwitchingCall;
    if n == 0 {
      TourFirst(sv0, ms);
    } else {
      TourIssuesOnEach(sv0, ms, n - 1);
      var evs := Tour(ms, n);
      assert evs[..|evs| - 1] == Tour(ms, n - 1);
      TourNext(sv0, ms, n - 1, Steps(sv0, Tour(ms, n - 1)).0, Steps(sv0, Tour(ms, n - 1)).1);
    }
  }

  /** A service that was given a worker twice repeats an ID when its clock keeps falling back. */
  lemma RepeatedWorkerRepeatsId(node: Node, sv: Service, i: nat, j: nat)
    requires JustBuilt(sv) && node.epoch >= 0
    requires i < j < |WorkersOfService(sv)| && WorkersOfService(sv)[i] == WorkersOfService(sv)[j]
    ensures exists evs :: ClockInWindow(node, Steps(sv, evs).1) && !Distinct(IdsOf(node, Steps(sv, evs).1))
  {
    var ms := node.epoch + 1;
    TourIssuesOnEach(sv, ms, j);
    hide Steps, IdOf;
    var issued := Steps(sv, Tour(ms, j)).1;
    assert IdsOf(node, issued)[i] == IdsOf(node, issued)[j];
  }

  /** All IDs one service ever returns are distinct exactly when the workers it was given are. */
  lemma DistinctWorkersExact(node: Node, sv: Service)
    requires JustBuilt(sv) && 0 <= node.datacenter <= MAX_DATACENTER && node.epoch >= 0
    requires forall w :: w in WorkersOfService(sv) ==> 0 <= w <= MAX_WORKER
    ensures Distinct(WorkersOfService(sv)) <==>
            forall evs :: ClockInWindow(node, Steps(sv, evs).1) ==> Distinct(IdsOf(node, Steps(sv, evs).1))
  {
    if Distinct(WorkersOfService(sv)) {
      forall evs | ClockInWindow(node, Steps(sv, evs).1) ensures Distinct(IdsOf(node, Steps(sv, evs).1)) {
        DistinctWorkersSuffice(node, sv, evs);
      }
    } else {
      var i, j :| 0 <= i < j < |WorkersOfService(sv)| && WorkersOfService(sv)[i] == WorkersOfService(sv)[j];
      RepeatedWorkerRepeatsId(node, sv, i, j);
    }
  }

  /** The service the program builds on a lease manager. */
  function ServiceOn(m: Manager): Service { Service(NewGenerator(m.primary), Some(m)) }

  /**
   Within-instance uniqueness. After a prompt start, whatever failed during it, and then whatever the
   clock reads, backwards jumps included, and whatever happens to the table, releases that fail
   included: all IDs one service ever returns are distinct.
   */
  lemma ServiceUniqueness(node: Node, t: Table, owner: string, leaseTimeout: int, n: nat,
                          db: Database, k: nat, evs: seq<Event>)
    requires InTimeOrder(db, k, n) && Prompt(db, k, n, EffectiveTimeout(leaseTimeout))
    requires Startup(t, owner, EffectiveTimeout(leaseTimeout), n, db, k).1.Some?
    requires 0 <= node.datacenter <= MAX_DATACENTER
    requires var m := Startup(t, owner, EffectiveTimeout(leaseTimeout), n, db, k).1.value;
             ClockInWindow(node, Steps(ServiceOn(m), evs).1)
    ensures var m := Startup(t, owner, EffectiveTimeout(leaseTimeout), n, db, k).1.value;
            Distinct(IdsOf(node, Steps(ServiceOn(m), evs).1))
  {
    hide EffectiveTimeout, Startup, Steps;
    StartupDistinct(t, owner, EffectiveTimeout(leaseTimeout), n, db, k);
    var m := Startup(t, owner, EffectiveTimeout(leaseTimeout), n, db, k).1.value;
    assert WorkersOfService(ServiceOn(m)) == Workers(m);
    DistinctWorkersSuffice(node, ServiceOn(m), evs);
  }

  /** Whatever table it starts from, the service never repeats an ID. */
  ghost predicate AlwaysDistinct(node: Node, owner: string, timeout: int, n: nat, db: Database, k: nat) {
    forall t, evs ::
      var m := Startup(t, owner, timeout, n, db, k).1;
      m.Some? && ClockInWindow(node, Steps(ServiceOn(m.value), evs).1) ==>
        Distinct(IdsOf(node, Steps(ServiceOn(m.value), evs).1))
  }

  /**
   The start has to be prompt: when the last backup is asked for after the timeout, cut to whole seconds,
   has passed, the instance can take its own primary again as a backup, and then repeats an ID.
   */
  lemma ServiceUniquenessExact(node: Node, owner: string, leaseTimeout: int, n: nat, db: Database, k: nat)
    requires InTimeOrder(db, k, n) && AllFine(db, k, n)
    requires 0 <= node.datacenter <= MAX_DATACENTER && node.epoch >= 0
    ensures Prompt(db, k, n, EffectiveTimeout(leaseTimeout)) <==>
            AlwaysDistinct(node, owner, EffectiveTimeout(leaseTimeout), n, db, k)
  {
    hide EffectiveTimeout, Startup, Steps, Prompt, Distinct;
    var timeout := EffectiveTimeout(leaseTimeout);
    if Prompt(db, k, n, timeout) {
      forall t, evs | var m := Startup(t, owner, timeout, n, db, k).1;
                      m.Some? && ClockInWindow(node, Steps(ServiceOn(m.value), evs).1)
        ensures Distinct(IdsOf(node, Steps(ServiceOn(Startup(t, owner, timeout, n, db, k).1.value), evs).1))
      {
        ServiceUniqueness(node, t, owner, leaseTimeout, n, db, k, evs);
      }
    } else {
      StartupRepeats(owner, timeout, n, db, k);
      var t := Released(LastStatement(n));
      var m := Startup(t, owner, timeout, n, db, k).1.value;
      SlowStartRepeatsId(node, t, owner, timeout, n, db, k);
      var evs :| ClockInWindow(node, Steps(ServiceOn(m), evs).1) && !Distinct(IdsOf(node, Steps(ServiceOn(m), evs).1));
    }
  }

  lemma SlowStartRepeatsId(node: Node, t: Table, owner: string, timeout: int, n: nat, db: Database, k: nat)
    requires node.epoch >= 0
    requires var m := Startup(t, owner, timeout, n, db, k).1; m.Some? && !Distinct(Workers(m.value))
    ensures var sv := ServiceOn(Startup(t, owner, timeout, n, db, k).1.value);
            exists evs :: ClockInWindow(node, Steps(sv, evs).1) && !Distinct(IdsOf(node, Steps(sv, evs).1))
  {
    hide Steps, Acquire, AcquireBackups;
    var m := Startup(t, owner, timeout, n, db, k).1.value;
    var i, j :| 0 <= i < j < |Workers(m)| && Workers(m)[i] == Workers(m)[j];
    RepeatedWorkerRepeatsId(node, ServiceOn(m), i, j);
  }

  // ---------- the gate, and agreement between generator and manager ----------

  /** Once the flag is down the service issues nothing more and never comes back. */
  lemma {:induction false} InvalidIsFinal(sv: Service, evs: seq<Event>)
    requires sv.mgr.Some? && !sv.mgr.value.valid
    ensures var (sv', issued) := Steps(sv, evs);
            issued == [] && sv'.gen == sv.gen && sv'.mgr.Some? && !sv'.mgr.value.valid
  {
    if evs != [] {
      InvalidIsFinal(sv, evs[..|evs| - 1]);
    }
  }

  ghost predicate Agree(sv: Service) { sv.mgr.Some? ==> sv.gen.worker == sv.mgr.value.primary }

  /** The call promotes a backup: the gate is open, the clock is behind, and there is a backup. */
  predicate Promotes(sv: Service, first: Reading) {
    sv.mgr.Some? && sv.mgr.value.valid && first.now < sv.gen.lastTimestamp && sv.mgr.value.backups != []
  }

  /**
   After a call the generator works on the manager's primary unless the call promoted a backup and
   the release of the old primary reported an error; then they differ.
   */
  lemma AgreementExact(sv: Service, first: Reading, second: Reading, t: Table, reply: Reply)
    requires Agree(sv) && ValidGen(sv.gen) && Possible(sv.gen, first)
    requires sv.mgr.Some? ==> sv.mgr.value.primary !in sv.mgr.value.backups
    ensures Agree(Serve(sv, first, second, t, reply).0) <==> !(Promotes(sv, first) && !reply.fault.Fine?)
  {
    GenerateRises(sv.gen, first);
    if Promotes(sv, first) {
      assert sv.mgr.value.backups[0] in sv.mgr.value.backups;
    }
  }

  /** What a call leaves in the table and returns. */
  function Outcome(sv: Service, ev: Event): (Table, Result<Ticket, ServeError>)
    requires ev.Call?
  {
    var (_, t, r) := Serve(sv, ev.first, ev.second, ev.t, ev.reply);
    (t, r)
  }

  /** Calls alone, without ticks, each on the table the one before it left: what a batch is made of. */
  ghost predicate CallsInARow(sv: Service, t: Table, evs: seq<Event>) {
    evs == [] ||
    (var front, ev := evs[..|evs| - 1], evs[|evs| - 1];
     && CallsInARow(sv, t, front) && ev.Call? && Feasible(Steps(sv, front).0, ev) && ev.t == TableAfter(sv, t, front))
  }

  function TableAfter(sv: Service, t: Table, evs: seq<Event>): Table {
    if evs == [] then t
    else
      var front, ev := evs[..|evs| - 1], evs[|evs| - 1];
      if ev.Call? then Outcome(Steps(sv, front).0, ev).0 else TableAfter(sv, t, front)
  }

  lemma FirstReadingPossible(g: GenState)
    ensures Possible(g, Reading(g.lastTimestamp + 1, 0))
  {
  }

  /** The outcomes of a call, one by one. */
  lemma ServeByCases(sv: Service, first: Reading, second: Reading, t: Table, reply: Reply)
    ensures sv.mgr.Some? && !sv.mgr.value.valid ==>
      Serve(sv, first, second, t, reply) == (sv, t, Err(WorkerIdInvalid))
    ensures (sv.mgr.Some? ==> sv.mgr.value.valid) ==>
      var (g1, r1) := Generate(sv.gen, first);
      && (r1.Ok? ==> Serve(sv, first, second, t, reply) == (sv.(gen := g1), t, Ok(r1.value)))
      && (r1.Err? ==> g1 == sv.gen)
      && (r1.Err? && sv.mgr.None? ==> Serve(sv, first, second, t, reply) == (sv, t, Err(GeneratorError(r1.error))))
      && (r1.Err? && sv.mgr.Some? ==>
            var (m, t', backup) := Consume(sv.mgr.value, t, reply);
            && (backup.None? ==> Serve(sv, first, second, t, reply) ==
                                 (Service(sv.gen, Some(m)), t', Err(ClockMovedBackwards(r1.error.offset))))
            && (backup.Some? ==>
                  var (g2, r2) := Generate(SwitchWorker(sv.gen, backup.value), second);
                  Serve(sv, first, second, t, reply) ==
                  (Service(g2, Some(m)), t',
                   if r2.Ok? then Ok(r2.value) else Err(ClockMovedBackwards(r2.error.offset)))))
  {
    hide Consume;
  }

  /** One more call in the row. */
  lemma CallAppended(sv: Service, t: Table, evs: seq<Event>, ev: Event)
    requires CallsInARow(sv, t, evs) && ev.Call? && Feasible(Steps(sv, evs).0, ev) && ev.t == TableAfter(sv, t, evs)
    ensures var (sv', _, r) := Serve(Steps(sv, evs).0, ev.first, ev.second, ev.t, ev.reply);
            var all := evs + [ev];
            && all[..|evs|] == evs && CallsInARow(sv, t, all)
            && Steps(sv, all) == (sv', Steps(sv, evs).1 + if r.Ok? then [r.value] else [])
            && TableAfter(sv, t, all) == Outcome(Steps(sv, evs).0, ev).0
            && Outcome(Steps(sv, evs).0, ev).1 == r
  {
    assert (evs + [ev])[..|evs + [ev]| - 1] == evs;
    hide Serve, Feasible;
  }

  lemma IdAppended(node: Node, issued: seq<Ticket>, t: Ticket)
    ensures IdsOf(node, issued + [t]) == IdsOf(node, issued) + [IdOf(node, t)]
  {
    hide IdOf;
  }

  // ---------- the mutable object ----------

  /** If the next call has to wait for a later millisecond, the clock gets there. */
  ghost predicate WaitEnds(g: GenState, clock: nat -> int, taken: nat) {
    MustWait(g, clock(taken)) ==> Overtakes(clock, taken + 1, g.lastTimestamp)
  }

  /** The clock keeps to the last timestamp while `i` calls use up the sequence numbers that are left. */
  ghost predicate FullAfter(g: GenState, clock: nat -> int, taken: nat, i: nat) {
    && (forall k: nat :: taken <= k <= taken + i ==> clock(k) == g.lastTimestamp)
    && (g.sequence + i + 1) % (MAX_SEQUENCE + 1) == 0
  }

  /** If one of the next `count` calls has to wait for that reason, the clock gets on. */
  ghost predicate WaitsEnd(g: GenState, clock: nat -> int, taken: nat, count: nat) {
    forall i: nat :: i < count && FullAfter(g, clock, taken, i) ==> Overtakes(clock, taken + i + 1, g.lastTimestamp)
  }

  /** The call counted up in the same millisecond, by one reading, or began to count anew. */
  ghost predicate Counted(g: GenState, g': GenState, clock: nat -> int, taken: nat, taken': nat) {
    || (g'.lastTimestamp == g.lastTimestamp == clock(taken) && g'.sequence == NextSequence(g) && taken' == taken + 1)
    || 0 <= g'.sequence <= 1
  }

  lemma GenerateCounts(g: GenState, r: Reading)
    requires Generate(g, r).1.Ok?
    ensures var g' := Generate(g, r).0;
            || (r.now == g.lastTimestamp == g'.lastTimestamp && !MustWait(g, r.now) && g'.sequence == NextSequence(g))
            || g'.sequence == 0
  {
    hide NextSequence;
  }

  lemma SwitchedCounts(g: GenState, worker: int, r: Reading)
    requires Generate(SwitchWorker(g, worker), r).1.Ok?
    ensures 0 <= Generate(SwitchWorker(g, worker), r).0.sequence <= 1
  {
    NextSequenceIsModulo(SwitchWorker(g, worker));
    hide NextSequence;
  }

  /** After `done` calls: still in the millisecond of `g0`, or counting from the start of another. */
  ghost predicate Underway(g0: GenState, taken0: nat, g: GenState, clock: nat -> int, taken: nat, done: nat) {
    || (done > 0 && 0 <= g.sequence <= done)
    || (&& taken == taken0 + done && g.lastTimestamp == g0.lastTimestamp
        && (forall k: nat :: taken0 <= k < taken ==> clock(k) == g0.lastTimestamp)
        && (g.sequence - g0.sequence - done) % (MAX_SEQUENCE + 1) == 0)
  }

  lemma UnderwayWaitEnds(g0: GenState, taken0: nat, g: GenState, clock: nat -> int, taken: nat, count: nat, done: nat)
    requires WaitsEnd(g0, clock, taken0, count) && done < count && done < MAX_SEQUENCE
    requires Underway(g0, taken0, g, clock, taken, done)
    ensures WaitEnds(g, clock, taken)
  {
    NextSequenceIsModulo(g);
    hide NextSequence;
    if MustWait(g, clock(taken)) {
      assert FullAfter(g0, clock, taken0, done);
    }
  }

  lemma StaysUnderway(g0: GenState, taken0: nat, g: GenState, g': GenState, clock: nat -> int, taken: nat, taken': nat,
                      done: nat)
    requires Underway(g0, taken0, g, clock, taken, done) && done < MAX_SEQUENCE
    requires Counted(g, g', clock, taken, taken')
    ensures Underway(g0, taken0, g', clock, taken', done + 1)
  {
    NextSequenceIsModulo(g);
    hide NextSequence;
  }

  class SnowflakeServer {
    const generator: Generator
    const lease: LeaseManager?

    constructor (generator: Generator, lease: LeaseManager?)
      ensures this.generator == generator && this.lease == lease
    {
      this.generator, this.lease := generator, lease;
    }

    function State(): Service
      reads generator, lease
    {
      Service(generator.State(), if lease != null then Some(lease.State()) else None)
    }

    ghost function Rows(): Table
      reads if lease != null then {lease.store} else {}
    {
      if lease != null then lease.store.table else map[]
    }

    predicate Open()
      reads lease
    {
      lease == null || lease.valid
    }

    /** One call, together with the event that describes it. */
    method GenerateSnowflakeID() returns (r: Result<int, ServeError>, ghost ev: Event)
      requires Open() ==> WaitEnds(generator.State(), generator.clock, generator.taken)
      modifies generator, lease, if lease != null then {lease.store} else {}
      ensures r.Ok? ==> Counted(old(generator.State()), generator.State(), generator.clock,
                                old(generator.taken), generator.taken)
      ensures ev.Call? && ev.t == old(Rows()) && Feasible(old(State()), ev)
      ensures var (sv, t, ticket) := Serve(old(State()), ev.first, ev.second, ev.t, ev.reply);
              && State() == sv && Rows() == t
              && r == if ticket.Ok? then Ok(IdOf(generator.node, ticket.value)) else Err(ticket.error)
    {
      FirstReadingPossible(generator.State());
      hide Serve, IdOf, Generate, Consume, NextSequence;
      ghost var sv, t := State(), Rows();
      ghost var reply := if lease != null then lease.store.database(lease.store.calls) else Reply(0, Fine, {});
      if lease != null && !lease.valid {
        ev := Call(Reading(generator.lastTimestamp + 1, 0), Reading(0, 0), t, reply);
        ServeByCases(sv, ev.first, ev.second, t, reply);
        return Err(WorkerIdInvalid), ev;
      }
      var id;
      ghost var first;
      id, first := generator.GenerateID();
      if id.Ok? {
        GenerateCounts(old(generator.State()), first);
      }
      if id.Ok? || lease == null {
        ev := Call(first, Reading(0, 0), t, reply);
        ServeByCases(sv, first, ev.second, t, reply);
        return if id.Ok? then Ok(id.value) else Err(GeneratorError(id.error)), ev;
      }
      ServeByCases(sv, first, Reading(0, 0), t, reply);
      ghost var second;
      r, second := SwitchAndRetry(id.error.offset);
      ServeByCases(sv, first, second, t, reply);
      ev := Call(first, second, t, reply);
    }

    /** The second half of a call whose first attempt found the clock behind by `offset`. */
    method SwitchAndRetry(offset: int) returns (r: Result<int, ServeError>, ghost second: Reading)
      requires lease != null
      modifies generator, lease, lease.store
      ensures r.Ok? ==> 0 <= generator.sequence <= 1
      ensures var (m, t, backup) :=
                Consume(old(lease.State()), old(lease.store.table), lease.store.database(old(lease.store.calls)));
              && lease.State() == m && lease.store.table == t
              && if backup.None? then
                   r == Err(ClockMovedBackwards(offset)) && generator.State() == old(generator.State())
                 else
                   var (g, ticket) := Generate(SwitchWorker(old(generator.State()), backup.value), second);
                   && generator.State() == g
                   && r == if ticket.Ok? then Ok(IdOf(generator.node, ticket.value))
                           else Err(ClockMovedBackwards(ticket.error.offset))
    {
      hide IdOf, Generate, Consume, NextSequence;
      var backup := lease.ConsumeBackupWorkerID();
      if backup.None? {
        return Err(ClockMovedBackwards(offset)), Reading(0, 0);
      }
      generator.SwitchWorkerID(backup.value);
      SwitchedNeverWaits(generator.State(), backup.value, generator.clock(generator.taken));
      var again;
      again, second := generator.GenerateID();
      if again.Ok? {
        SwitchedCounts(old(generator.State()), backup.value, second);
      }
      r := if again.Ok? then Ok(again.value) else Err(ClockMovedBackwards(again.error.offset));
    }

    /**
     Either exactly `count` IDs, the tickets of the calls made, or an error, which is that of the first
     call that fails; the calls are a history to which `ServiceUniqueness` applies.
     */
    method GenerateBatchSnowflakeIDs(count: int) returns (r: Result<seq<int>, ServeError>, ghost evs: seq<Event>)
      requires Open() && 1 <= count <= 1000 ==>
        WaitsEnd(generator.State(), generator.clock, generator.taken, count)
      modifies generator, lease, if lease != null then {lease.store} else {}
      ensures CallsInARow(old(State()), old(Rows()), evs)
      ensures State() == Steps(old(State()), evs).0 && Rows() == TableAfter(old(State()), old(Rows()), evs)
      ensures !(1 <= count <= 1000) ==> r == Err(InvalidArgument) && evs == []
      ensures r.Ok? ==> r.value == IdsOf(generator.node, Steps(old(State()), evs).1) && |r.value| == count
      ensures r.Err? && 1 <= count <= 1000 ==>
        && evs != [] && |Steps(old(State()), evs).1| == |evs| - 1
        && Outcome(Steps(old(State()), evs[..|evs| - 1]).0, evs[|evs| - 1]).1 == Err(r.error)
    {
      evs := [];
      if count <= 0 || count > 1000 {
        return Err(InvalidArgument), evs;
      }
      var ids := [];
      ghost var start, rows := State(), Rows();
      ghost var open, g0, clock, taken0 := Open(), generator.State(), generator.clock, generator.taken;
      for i := 0 to count
        invariant CallsInARow(start, rows, evs) && |evs| == i
        invariant State() == Steps(start, evs).0 && Rows() == TableAfter(start, rows, evs)
        invariant ids == IdsOf(generator.node, Steps(start, evs).1) && |ids| == i
        invariant Underway(g0, taken0, generator.State(), clock, generator.taken, i)
        invariant !open ==> !Open()
      {
        hide Serve, IdOf, IdsOf, Feasible, Underway, Counted, WaitEnds, CallsInARow, TableAfter, Steps;
        if open {
          UnderwayWaitEnds(g0, taken0, generator.State(), clock, generator.taken, count, i);
        }
        ghost var g, taken := generator.State(), generator.taken;
        ghost var issued, before := Steps(start, evs).1, evs;
        var one;
        ghost var ev;
        one, ev := GenerateSnowflakeID();
        CallAppended(start, rows, before, ev);
        evs := evs + [ev];
        if one.Err? {
          return Err(one.error), evs;
        }
        StaysUnderway(g0, taken0, g, generator.State(), clock, taken, generator.taken, i);
        IdAppended(generator.node, issued, Outcome(Steps(start, before).0, ev).1.value);
        ids := ids + [one.value];
      }
      return Ok(ids), evs;
    }
  }
}
