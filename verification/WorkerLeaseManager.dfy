/**
 The lease manager of one instance: a primary worker, backups, and a count of failed renewals.
 A renewal tick and a promotion are taken one after the other, never interleaved; see `LeaseRaces`
 for what goes wrong otherwise.
 */
module WorkerLeaseManager {
  import opened Wrappers
  import opened Sequences
  import opened WorkerLeaseStore

  const MAX_RENEW_FAIL: nat := 2

  datatype Manager = Manager(owner: string, primary: int, backups: seq<int>, valid: bool, renewFail: nat)

  function Workers(m: Manager): seq<int> { [m.primary] + m.backups }

  // ---------- the operations ----------

  /** Up to `n` backups, stopping at the first failure. */
  function AcquireBackups(t: Table, owner: string, timeout: int, n: nat, db: Database, k: nat)
    : (Table, seq<int>, bool)
  {
    if n == 0 then (t, [], false)
    else
      var (t1, got, stopped) := AcquireBackups(t, owner, timeout, n - 1, db, k);
      if stopped then (t1, got, true)
      else
        var (t2, w) := Acquire(t1, owner, timeout, db(k + |got|));
        if w.None? then (t2, got, true) else (t2, got + [w.value], false)
  }

  function Startup(t: Table, owner: string, timeout: int, backupCount: nat, db: Database, k: nat)
    : (Table, Option<Manager>)
  {
    var (t1, primary) := Acquire(t, owner, timeout, db(k));
    if primary.None? then (t1, None)
    else
      var (t2, backups, _) := AcquireBackups(t1, owner, timeout, backupCount, db, k + 1);
      (t2, Some(Manager(owner, primary.value, backups, true, 0)))
  }

  function CountRenewal(m: Manager, ok: bool): Manager {
    if ok then m.(renewFail := 0)
    else m.(renewFail := m.renewFail + 1, valid := m.valid && m.renewFail + 1 < MAX_RENEW_FAIL)
  }

  /** Renews each backup in turn and keeps those whose renewal succeeded. */
  function RenewBackups(t: Table, backups: seq<int>, owner: string, db: Database, k: nat): (Table, seq<int>) {
    if backups == [] then (t, [])
    else
      var n := |backups| - 1;
      var (t1, live) := RenewBackups(t, backups[..n], owner, db, k);
      var (t2, ok) := Renew(t1, backups[n], owner, db(k + n));
      (t2, if ok then live + [backups[n]] else live)
  }

  function RenewOnce(m: Manager, t: Table, db: Database, k: nat): (Manager, Table) {
    var (t1, ok) := Renew(t, m.primary, m.owner, db(k));
    var (t2, live) := RenewBackups(t1, m.backups, m.owner, db, k + 1);
    (CountRenewal(m, ok).(backups := live), t2)
  }

  function Promote(m: Manager): Manager
    requires m.backups != []
  {
    Manager(m.owner, m.backups[0], m.backups[1..], true, 0)
  }

  /** The first backup becomes primary and the old primary is released; None if the caller sees an error. */
  function Consume(m: Manager, t: Table, reply: Reply): (Manager, Table, Option<int>) {
    if m.backups == [] then (m, t, None)
    else
      var (t1, noError) := Release(t, m.primary, m.owner, reply);
      (Promote(m), t1, if noError then Some(m.backups[0]) else None)
  }

  function ReleaseAll(t: Table, workers: seq<int>, owner: string, db: Database, k: nat): Table {
    if workers == [] then t
    else
      var n := |workers| - 1;
      Release(ReleaseAll(t, workers[..n], owner, db, k), workers[n], owner, db(k + n)).0
  }

  function Close(m: Manager, t: Table, db: Database, k: nat): Table {
    ReleaseAll(t, Workers(m), m.owner, db, k)
  }

  /** Backups are acquired one by one up to the number wanted, or up to the first attempt that fails. */
  lemma {:induction false} BackupsStop(t: Table, owner: string, timeout: int, n: nat, db: Database, k: nat)
    ensures var (t', got, stopped) := AcquireBackups(t, owner, timeout, n, db, k);
            var (t1, got1, stopped1) := AcquireBackups(t, owner, timeout, |got|, db, k);
            && got1 == got && !stopped1 && |got| <= n
            && if stopped then |got| < n && Acquire(t1, owner, timeout, db(k + |got|)) == (t', None)
               else |got| == n && t1 == t'
  {
    hide Acquire;
    if n > 0 {
      BackupsStop(t, owner, timeout, n - 1, db, k);
    }
  }

  /** There is a manager exactly if there is a primary, and its backups are all those that could be acquired. */
  lemma StartupExact(t: Table, owner: string, timeout: int, n: nat, db: Database, k: nat)
    ensures var (t', m) := Startup(t, owner, timeout, n, db, k);
            var (t1, primary) := Acquire(t, owner, timeout, db(k));
            if primary.None? then m == None && t' == t1
            else
              && m.Some? && m.value == Manager(owner, primary.value, m.value.backups, true, 0)
              && var got := m.value.backups;
                 var (t2, got2, _) := AcquireBackups(t1, owner, timeout, |got|, db, k + 1);
                 && got2 == got && |got| <= n
                 && (t', None) == if |got| == n then (t2, None) else Acquire(t2, owner, timeout, db(k + 1 + |got|))
  {
    hide Acquire, AcquireBackups;
    var (t1, primary) := Acquire(t, owner, timeout, db(k));
    if primary.Some? {
      BackupsStop(t1, owner, timeout, n, db, k + 1);
    }
  }

  // ---------- what ticks and closing do to each worker ----------

  ghost predicate SameAt(t: Table, t': Table, w: int) { (w in t <==> w in t') && (w in t ==> t'[w] == t[w]) }

  lemma {:induction false} RenewBackupsFrame(t: Table, backups: seq<int>, id: string, db: Database, k: nat)
    ensures RenewBackups(t, backups, id, db, k).0.Keys == t.Keys
    ensures forall w :: w !in backups ==> SameAt(t, RenewBackups(t, backups, id, db, k).0, w)
  {
    if backups != [] {
      var n := |backups| - 1;
      RenewBackupsFrame(t, backups[..n], id, db, k);
      assert forall w :: w !in backups ==> w !in backups[..n];
    }
  }

  /** Each backup's own renewal decides alone whether it survives and what becomes of its row. */
  lemma {:induction false} EachBackupRenewed(t: Table, backups: seq<int>, id: string, db: Database, k: nat, i: nat)
    requires i < |backups| && Distinct(backups)
    ensures var (t', live) := RenewBackups(t, backups, id, db, k);
            && (backups[i] in live <==> db(k + i).fault.Fine? && Holds(t, backups[i], id))
            && SameAt(Renew(t, backups[i], id, db(k + i)).0, t', backups[i])
            && (i == 0 && backups[0] in live ==> live[0] == backups[0])
  {
    var n := |backups| - 1;
    var front := backups[..n];
    var (t1, live) := RenewBackups(t, front, id, db, k);
    LiveIsSubsequence(t, front, id, db, k);
    SubsequenceDistinct(live, front);
    assert Distinct(front) && backups[n] !in front && backups[n] !in live;
    hide Subsequence, Distinct;
    if i < n {
      EachBackupRenewed(t, front, id, db, k, i);
      assert front[i] == backups[i] && backups[n] != backups[i];
    } else {
      RenewBackupsFrame(t, front, id, db, k);
    }
  }

  /**
   A tick, worker by worker. The primary stays; a backup stays exactly when the table still has it leased to
   this owner and the answer to its own renewal arrives; the order stays. Every worker's row is what its own
   renewal makes of it, and all other rows are untouched.
   */
  lemma TickExact(m: Manager, t: Table, db: Database, k: nat)
    requires Distinct(Workers(m))
    ensures var (m', t') := RenewOnce(m, t, db, k);
            && m'.owner == m.owner && m'.primary == m.primary && Subsequence(m'.backups, m.backups)
            && SameAt(Renew(t, m.primary, m.owner, db(k)).0, t', m.primary)
            && (forall i: nat :: i < |m.backups| ==>
                  && (m.backups[i] in m'.backups <==> db(k + 1 + i).fault.Fine? && Holds(t, m.backups[i], m.owner))
                  && SameAt(Renew(t, m.backups[i], m.owner, db(k + 1 + i)).0, t', m.backups[i]))
            && forall w :: w !in Workers(m) ==> SameAt(t, t', w)
  {
    DistinctCons(m.primary, m.backups);
    var t1 := Renew(t, m.primary, m.owner, db(k)).0;
    RenewBackupsFrame(t1, m.backups, m.owner, db, k + 1);
    LiveIsSubsequence(t1, m.backups, m.owner, db, k + 1);
    var (m', t') := RenewOnce(m, t, db, k);
    forall i: nat | i < |m.backups|
      ensures m.backups[i] in m'.backups <==> db(k + 1 + i).fault.Fine? && Holds(t, m.backups[i], m.owner)
      ensures SameAt(Renew(t, m.backups[i], m.owner, db(k + 1 + i)).0, t', m.backups[i])
    {
      EachBackupRenewed(t1, m.backups, m.owner, db, k + 1, i);
      assert m.backups[i] in m.backups;
    }
    hide RenewBackups;
  }

  lemma {:induction false} LiveIsSubsequence(t: Table, backups: seq<int>, owner: string, db: Database, k: nat)
    ensures Subsequence(RenewBackups(t, backups, owner, db, k).1, backups)
  {
    if backups != [] {
      LiveIsSubsequence(t, backups[..|backups| - 1], owner, db, k);
    }
  }

  /** A release that reaches the database frees its worker, whatever happens to the other releases. */
  lemma {:induction false} ReleaseAllFrees(t: Table, workers: seq<int>, owner: string, db: Database, k: nat, i: nat)
    requires i < |workers| && !db(k + i).fault.FailBefore? && owner != ""
    requires workers[i] in t && t[workers[i]].owner == owner
    ensures var t' := ReleaseAll(t, workers, owner, db, k);
            workers[i] in t' && t'[workers[i]] == LeaseRow(false, "", t[workers[i]].leaseTime)
  {
    var n := |workers| - 1;
    ReleasesOnly(t, workers[..n], owner, db, k, workers[i]);
    if i < n {
      ReleaseAllFrees(t, workers[..n], owner, db, k, i);
    }
  }

  /** A row of the owner is either left alone or released. */
  lemma {:induction false} ReleasesOnly(t: Table, workers: seq<int>, owner: string, db: Database, k: nat, w: int)
    requires owner != "" && w in t && t[w].owner == owner
    ensures var t' := ReleaseAll(t, workers, owner, db, k);
            w in t' && (t'[w] == t[w] || t'[w] == LeaseRow(false, "", t[w].leaseTime))
  {
    if workers != [] {
      ReleasesOnly(t, workers[..|workers| - 1], owner, db, k, w);
    }
  }

  lemma {:induction false} ReleaseAllFrame(t: Table, workers: seq<int>, owner: string, db: Database, k: nat, w: int)
    requires (w in t && t[w].owner == owner) ==>
               forall i: nat :: i < |workers| && workers[i] == w ==> db(k + i).fault.FailBefore?
    ensures SameAt(t, ReleaseAll(t, workers, owner, db, k), w)
  {
    if workers != [] {
      var front := workers[..|workers| - 1];
      assert forall i: nat :: i < |front| ==> front[i] == workers[i];
      ReleaseAllFrame(t, front, owner, db, k, w);
    }
  }

  /**
   Closing, worker by worker: the primary is released by the first statement and each backup by its own. A row
   of the instance whose statement reaches the database is released and without owner, and every other row
   stays as it was: that of a worker it does not have, of another owner, or whose statements all failed.
   */
  lemma CloseExact(m: Manager, t: Table, db: Database, k: nat, w: int)
    requires m.owner != ""
    ensures var t' := Close(m, t, db, k);
            if w in t && t[w].owner == m.owner && ReleaseArrives(m, db, k, w)
            then w in t' && t'[w] == LeaseRow(false, "", t[w].leaseTime)
            else SameAt(t, t', w)
  {
    if w in t && t[w].owner == m.owner && ReleaseArrives(m, db, k, w) {
      var i: nat :| i < |Workers(m)| && Workers(m)[i] == w && !db(k + i).fault.FailBefore?;
      ReleaseAllFrees(t, Workers(m), m.owner, db, k, i);
    } else {
      ReleaseAllFrame(t, Workers(m), m.owner, db, k, w);
    }
  }

  /** Statement `k + i` of a closing instance is about its i-th worker, counting the primary as the first. */
  ghost predicate ReleaseArrives(m: Manager, db: Database, k: nat, w: int) {
    exists i: nat :: i < |Workers(m)| && Workers(m)[i] == w && !db(k + i).fault.FailBefore?
  }

  // ---------- starting: no worker is acquired twice ----------

  /** The database's time at the i-th statement of a start. */
  function TimeAt(db: Database, k: nat, i: nat): int { db(k + i).now }

  ghost predicate InTimeOrder(db: Database, k: nat, n: nat) {
    forall i: nat, j: nat :: i <= j <= n ==> TimeAt(db, k, i) <= TimeAt(db, k, j)
  }

  /** There are 32 workers, so no later statement can succeed for the first time. */
  function LastStatement(n: nat): nat { if n <= MAX_WORKER_ROW + 1 then n else MAX_WORKER_ROW + 1 }

  /** The last backup is asked for before the lease of the primary runs out. */
  predicate Prompt(db: Database, k: nat, n: nat, timeout: int) {
    n == 0 || TimeAt(db, k, LastStatement(n)) <= TimeAt(db, k, 0) + timeout
  }

  /** What a start has taken so far is held since it began. */
  ghost predicate TakenSince(t: Table, ws: seq<int>, since: int) {
    && Distinct(ws)
    && forall w :: w in ws ==> 0 <= w <= MAX_WORKER_ROW && w in t && t[w].active && t[w].leaseTime >= since
  }

  lemma AtMostAllWorkers(ws: seq<int>)
    requires Distinct(ws) && forall w :: w in ws ==> 0 <= w <= MAX_WORKER_ROW
    ensures |ws| <= MAX_WORKER_ROW + 1
  {
    var all := Interval(0, MAX_WORKER_ROW + 1);
    IntervalMembers(0, MAX_WORKER_ROW + 1);
    assert forall w :: w in ws ==> w in all;
    DistinctFits(ws, all);
  }

  lemma AcquireTakesOther(t: Table, owner: string, timeout: int, reply: Reply, ws: seq<int>, since: int)
    requires TakenSince(t, ws, since) && since <= reply.now <= since + timeout
    ensures var (t', w) := Acquire(t, owner, timeout, reply);
            TakenSince(t', if w.Some? then ws + [w.value] else ws, since)
  {
    forall w | w in ws ensures !Free(t[w], reply.now, timeout) {
    }
  }

  lemma {:induction false} BackupsTakeOthers(t: Table, owner: string, timeout: int, n: nat, db: Database, k: nat,
                                             m: nat, primary: int)
    requires n <= m && InTimeOrder(db, k, m) && Prompt(db, k, m, timeout) && TakenSince(t, [primary], TimeAt(db, k, 0))
    ensures var (t', got, stopped) := AcquireBackups(t, owner, timeout, n, db, k + 1);
            TakenSince(t', [primary] + got, TimeAt(db, k, 0)) && |got| <= n
  {
    hide Acquire, TakenSince;
    if n == 0 {
      assert [primary] + [] == [primary];
    } else {
      BackupsTakeOthers(t, owner, timeout, n - 1, db, k, m, primary);
      var (t1, got, stopped) := AcquireBackups(t, owner, timeout, n - 1, db, k + 1);
      if !stopped {
        TakenFit(t1, [primary] + got, TimeAt(db, k, 0));
        var i := 1 + |got|;
        assert i <= LastStatement(m) <= m;
        assert db(k + 1 + |got|).now == TimeAt(db, k, i);
        AcquireTakesOther(t1, owner, timeout, db(k + i), [primary] + got, TimeAt(db, k, 0));
        var w := Acquire(t1, owner, timeout, db(k + i)).1;
        if w.Some? {
          assert [primary] + got + [w.value] == [primary] + (got + [w.value]);
        }
      }
    }
  }

  lemma TakenFit(t: Table, ws: seq<int>, since: int)
    requires TakenSince(t, ws, since)
    ensures |ws| <= MAX_WORKER_ROW + 1
  {
    AtMostAllWorkers(ws);
  }

  /** A prompt start acquires every worker at most once, whatever fails and whatever is locked. */
  lemma StartupDistinct(t: Table, owner: string, timeout: int, n: nat, db: Database, k: nat)
    requires InTimeOrder(db, k, n) && Prompt(db, k, n, timeout)
    ensures var m := Startup(t, owner, timeout, n, db, k).1;
            m.Some? ==>
              && m.value == Manager(owner, m.value.primary, m.value.backups, true, 0)
              && Distinct(Workers(m.value)) && forall w :: w in Workers(m.value) ==> 0 <= w <= MAX_WORKER_ROW
  {
    var (t1, primary) := Acquire(t, owner, timeout, db(k));
    assert db(k).now == TimeAt(db, k, 0);
    if primary.Some? {
      BackupsTakeOthers(t1, owner, timeout, n, db, k, n, primary.value);
    }
  }

  /** No statement of the start fails or is kept from a row. */
  ghost predicate AllFine(db: Database, k: nat, n: nat) {
    forall i: nat :: i <= n ==> FineAt(db, k, i)
  }

  ghost predicate FineAt(db: Database, k: nat, i: nat) { db(k + i) == Reply(TimeAt(db, k, i), Fine, {}) }

  /** A table with the workers 0 to n - 1, all of them released. */
  function Released(n: nat): (t: Table)
    ensures forall w :: w in t <==> 0 <= w < n
    ensures forall w :: w in t ==> !t[w].active
  {
    if n == 0 then map[] else Released(n - 1)[n - 1 := LeaseRow(false, "", 0)]
  }

  /** The first backups acquired are a prefix of all of them. */
  lemma {:induction false} BackupsGrow(t: Table, owner: string, timeout: int, i: nat, n: nat, db: Database, k: nat)
    requires i <= n
    ensures AcquireBackups(t, owner, timeout, i, db, k).1 <= AcquireBackups(t, owner, timeout, n, db, k).1
    decreases n
  {
    if i < n {
      BackupsGrow(t, owner, timeout, i, n - 1, db, k);
    }
  }

  /** Workers 0 to i are taken, each when it was its turn, and those after them are still released. */
  ghost predicate TakenInTurn(t: Table, size: nat, i: nat, since: int) {
    && t.Keys == Released(size).Keys && i < size
    && t[0].leaseTime == since && forall w :: i < w < size ==> !t[w].active
  }

  /** The i-th backup, if the ones before it were all acquired. */
  lemma NextBackup(t: Table, owner: string, timeout: int, i: nat, db: Database, k: nat)
    requires i >= 1 && !AcquireBackups(t, owner, timeout, i - 1, db, k).2
    ensures var (t1, got, _) := AcquireBackups(t, owner, timeout, i - 1, db, k);
            var (t2, w) := Acquire(t1, owner, timeout, db(k + |got|));
            AcquireBackups(t, owner, timeout, i, db, k) ==
            if w.None? then (t2, got, true) else (t2, got + [w.value], false)
  {
    hide Acquire;
  }

  /** As long as nothing is taken twice, the backups are taken in turn. */
  lemma {:induction false} BackupsInTurn(owner: string, timeout: int, size: nat, i: nat, n: nat, db: Database, k: nat)
    requires i < size <= n && size <= MAX_WORKER_ROW + 1 && AllFine(db, k, n)
    ensures var t1 := Released(size)[0 := LeaseRow(true, owner, TimeAt(db, k, 0))];
            var (t, got, stopped) := AcquireBackups(t1, owner, timeout, i, db, k + 1);
            Distinct([0] + got) ==> !stopped && got == Interval(1, i + 1) && TakenInTurn(t, size, i, TimeAt(db, k, 0))
  {
    hide Interval, TakenInTurn, Released, AcquireBackups, Acquire, Distinct;
    var t1 := Released(size)[0 := LeaseRow(true, owner, TimeAt(db, k, 0))];
    if i == 0 {
      PrimaryInTurn(owner, timeout, size, db, k);
    } else {
      BackupsInTurn(owner, timeout, size, i - 1, n, db, k);
      BackupsGrow(t1, owner, timeout, i - 1, i, db, k + 1);
      var (t, got, stopped) := AcquireBackups(t1, owner, timeout, i - 1, db, k + 1);
      var got' := AcquireBackups(t1, owner, timeout, i, db, k + 1).1;
      if Distinct([0] + got') {
        PrefixDistinct([0] + got, [0] + got');
        assert FineAt(db, k, i) && k + 1 + |got| == k + i;
        NextBackup(t1, owner, timeout, i, db, k + 1);
        NextInTurn(t, owner, timeout, size, i, db(k + i), TimeAt(db, k, 0));
        AppendInTurn(i, Acquire(t, owner, timeout, db(k + i)).1.value);
      }
    }
  }

  lemma PrimaryInTurn(owner: string, timeout: int, size: nat, db: Database, k: nat)
    requires 1 <= size
    ensures var t1 := Released(size)[0 := LeaseRow(true, owner, TimeAt(db, k, 0))];
            && AcquireBackups(t1, owner, timeout, 0, db, k + 1) == (t1, Interval(1, 1), false)
            && TakenInTurn(t1, size, 0, TimeAt(db, k, 0))
  {
  }

  lemma AppendInTurn(i: nat, v: int)
    requires 1 <= i && 0 <= v <= i && Distinct([0] + (Interval(1, i) + [v]))
    ensures v == i && Interval(1, i) + [v] == Interval(1, i + 1)
  {
    var ws := [0] + (Interval(1, i) + [v]);
    assert ws[i] == v && forall j :: 0 <= j < i ==> ws[j] == j;
    var u := if v < i then v else 0;
    assert ws[u] != ws[i];
  }

  /** The next acquisition takes worker i, or one of those before it, whose lease has run out. */
  lemma NextInTurn(t: Table, owner: string, timeout: int, size: nat, i: nat, reply: Reply, since: int)
    requires 1 <= i < size <= MAX_WORKER_ROW + 1 && TakenInTurn(t, size, i - 1, since)
    requires reply.fault.Fine? && reply.locked == {}
    ensures var (t', w) := Acquire(t, owner, timeout, reply);
            w.Some? && 0 <= w.value <= i && (w.value == i ==> TakenInTurn(t', size, i, since))
  {
    assert Free(t[i], reply.now, timeout);
  }

  lemma PrefixDistinct<T>(s: seq<T>, whole: seq<T>)
    requires s <= whole && Distinct(whole)
    ensures Distinct(s)
  {
    assert forall i :: 0 <= i < |s| ==> s[i] == whole[i];
  }

  /** A start that takes too long acquires some worker of its own a second time. */
  lemma StartupRepeats(owner: string, timeout: int, n: nat, db: Database, k: nat)
    requires AllFine(db, k, n) && !Prompt(db, k, n, timeout)
    ensures var m := Startup(Released(LastStatement(n)), owner, timeout, n, db, k).1;
            m.Some? && !Distinct(Workers(m.value))
  {
    var size := LastStatement(n);
    var t0 := Released(size);
    var t1 := t0[0 := LeaseRow(true, owner, TimeAt(db, k, 0))];
    assert FineAt(db, k, 0);
    assert FirstFree(t0, 0, timeout, db(k)) == Some(0);
    BackupsGrow(t1, owner, timeout, size, n, db, k + 1);
    hide FirstFree, AcquireBackups, Released;
    var some := AcquireBackups(t1, owner, timeout, size, db, k + 1).1;
    var all := AcquireBackups(t1, owner, timeout, n, db, k + 1).1;
    if Distinct([0] + all) {
      PrefixDistinct([0] + some, [0] + all);
      OneTooMany(owner, timeout, size, n, db, k);
    }
  }

  /** When all workers of the table are taken, the lease of the first has run out, and it is taken again. */
  lemma OneTooMany(owner: string, timeout: int, size: nat, n: nat, db: Database, k: nat)
    requires 1 <= size <= n && size <= MAX_WORKER_ROW + 1 && AllFine(db, k, n)
    requires TimeAt(db, k, size) > TimeAt(db, k, 0) + timeout
    ensures var t1 := Released(size)[0 := LeaseRow(true, owner, TimeAt(db, k, 0))];
            !Distinct([0] + AcquireBackups(t1, owner, timeout, size, db, k + 1).1)
  {
    hide Interval, AcquireBackups, Released, FirstFree, Distinct;
    var t1 := Released(size)[0 := LeaseRow(true, owner, TimeAt(db, k, 0))];
    BackupsInTurn(owner, timeout, size, size - 1, n, db, k);
    BackupsGrow(t1, owner, timeout, size - 1, size, db, k + 1);
    var (t, got, stopped) := AcquireBackups(t1, owner, timeout, size - 1, db, k + 1);
    var got' := AcquireBackups(t1, owner, timeout, size, db, k + 1).1;
    if Distinct([0] + got') {
      PrefixDistinct([0] + got, [0] + got');
      assert FineAt(db, k, size) && k + 1 + |got| == k + size;
      assert Free(t[0], TimeAt(db, k, size), timeout);
      NextBackup(t1, owner, timeout, size, db, k + 1);
      AppendInTurn(size, FirstFree(t, 0, timeout, db(k + size)).value);
    }
  }

  /** Starts acquire distinct workers from every table exactly when they are prompt. */
  lemma StartupDistinctExact(owner: string, timeout: int, n: nat, db: Database, k: nat)
    requires InTimeOrder(db, k, n) && AllFine(db, k, n)
    ensures Prompt(db, k, n, timeout) <==>
            forall t :: var m := Startup(t, owner, timeout, n, db, k).1; m.Some? ==> Distinct(Workers(m.value))
  {
    if Prompt(db, k, n, timeout) {
      forall t ensures var m := Startup(t, owner, timeout, n, db, k).1; m.Some? ==> Distinct(Workers(m.value)) {
        StartupDistinct(t, owner, timeout, n, db, k);
      }
    } else {
      StartupRepeats(owner, timeout, n, db, k);
    }
  }

  // ---------- worker accounting ----------

  datatype Action = Tick(t: Table, db: Database) | Consumption(t: Table, reply: Reply)

  /**
   One action on the manager together with the list of all primaries it ever had. Each action comes
   with an arbitrary table, so nothing is assumed about what happens to the table in between.
   */
  function Act(m: Manager, used: seq<int>, a: Action): (Manager, seq<int>) {
    match a
    case Tick(t, db) => (RenewOnce(m, t, db, 0).0, used)
    case Consumption(t, reply) =>
      var m' := Consume(m, t, reply).0;
      (m', if m.backups == [] then used else used + [m'.primary])
  }

  function ActAll(m: Manager, used: seq<int>, actions: seq<Action>): (Manager, seq<int>) {
    if actions == [] then (m, used)
    else
      var (m1, used1) := ActAll(m, used, actions[..|actions| - 1]);
      Act(m1, used1, actions[|actions| - 1])
  }

  /** The primaries so far, then the current backups, are read off the acquired list left to right. */
  ghost predicate Accounted(acquired: seq<int>, m: Manager, used: seq<int>) {
    && used != [] && used[|used| - 1] == m.primary
    && Subsequence(used + m.backups, acquired)
  }

  lemma ActKeepsAccount(acquired: seq<int>, m: Manager, used: seq<int>, a: Action)
    requires Accounted(acquired, m, used)
    ensures Accounted(acquired, Act(m, used, a).0, Act(m, used, a).1)
  {
    match a
    case Tick(t, db) =>
      var t1 := Renew(t, m.primary, m.owner, db(0)).0;
      var live := RenewBackups(t1, m.backups, m.owner, db, 1).1;
      LiveIsSubsequence(t1, m.backups, m.owner, db, 1);
      SubsequencePrepend(used, live, m.backups);
      SubsequenceTrans(used + live, used + m.backups, acquired);
    case Consumption(t, reply) =>
      if m.backups != [] {
        assert used + [m.backups[0]] + m.backups[1..] == used + m.backups;
      }
  }

  /** From workers acquired once each, no worker becomes primary twice, and the backups only ever shrink. */
  lemma {:induction false} ActionsKeepAccount(acquired: seq<int>, m: Manager, used: seq<int>, actions: seq<Action>)
    requires Accounted(acquired, m, used) && Distinct(acquired)
    ensures var (m', used') := ActAll(m, used, actions);
            && Accounted(acquired, m', used')
            && Distinct(used' + m'.backups)
            && Distinct(Workers(m'))
            && Subsequence(m'.backups, acquired)
  {
    if actions != [] {
      var front := actions[..|actions| - 1];
      ActionsKeepAccount(acquired, m, used, front);
      var (m1, used1) := ActAll(m, used, front);
      ActKeepsAccount(acquired, m1, used1, actions[|actions| - 1]);
    }
    var (m', used') := ActAll(m, used, actions);
    SubsequenceDistinct(used' + m'.backups, acquired);
    var n := |used'| - 1;
    var whole := used' + m'.backups;
    forall i, j | 0 <= i < j < |m'.backups| + 1 ensures Workers(m')[i] != Workers(m')[j] {
      assert Workers(m')[i] == whole[n + i] && Workers(m')[j] == whole[n + j];
    }
    DropFront(used', m'.backups, acquired);
  }

  /**
   After a prompt start and under any ticks and promotions, no worker becomes primary twice, the backups
   only ever shrink as a subsequence of the acquired list, and primary and backups are free of duplicates.
   */
  lemma WorkerAccounting(t: Table, owner: string, timeout: int, n: nat, db: Database, k: nat, actions: seq<Action>)
    requires InTimeOrder(db, k, n) && Prompt(db, k, n, timeout) && Startup(t, owner, timeout, n, db, k).1.Some?
    ensures var m := Startup(t, owner, timeout, n, db, k).1.value;
            var (m', used) := ActAll(m, [m.primary], actions);
            && Accounted(Workers(m), m', used)
            && Distinct(used + m'.backups)
            && Distinct(Workers(m'))
            && Subsequence(m'.backups, Workers(m))
  {
    StartupDistinct(t, owner, timeout, n, db, k);
    var m := Startup(t, owner, timeout, n, db, k).1.value;
    SubsequenceRefl(Workers(m));
    ActionsKeepAccount(Workers(m), m, [m.primary], actions);
  }

  lemma {:induction false} DropFront<T>(front: seq<T>, s: seq<T>, whole: seq<T>)
    requires Subsequence(front + s, whole)
    ensures Subsequence(s, whole)
    decreases |whole|
  {
    if s != [] {
      var n, m := |s| - 1, |whole| - 1;
      assert (front + s)[..|front + s| - 1] == front + s[..n];
      if s[n] == whole[m] && Subsequence(front + s[..n], whole[..m]) {
        DropFront(front, s[..n], whole[..m]);
      } else {
        DropFront(front, s, whole[..m]);
      }
    }
  }

  // ---------- validity as a property of the history ----------

  datatype Observation = Renewed(ok: bool) | Promoted

  /** What the history of primary renewals and promotions makes of the flag and the counter. */
  function Replay(history: seq<Observation>): (bool, nat) {
    if history == [] then (true, 0)
    else
      var (valid, fails) := Replay(history[..|history| - 1]);
      match history[|history| - 1]
      case Promoted => (true, 0)
      case Renewed(true) => (valid, 0)
      case Renewed(false) => (valid && fails + 1 < MAX_RENEW_FAIL, fails + 1)
  }

  /** Two renewals in a row failed, and no promotion came after them. */
  ghost predicate TwoFailuresSincePromotion(history: seq<Observation>) {
    exists i :: TwoFailuresAt(history, i)
  }

  ghost predicate TwoFailuresAt(history: seq<Observation>, i: int) {
    && 0 <= i < |history| - 1
    && history[i] == Renewed(false) && history[i + 1] == Renewed(false)
    && forall j :: i < j < |history| ==> history[j] != Promoted
  }

  /** The flag is down exactly after two failures in a row; later successes do not raise it again. */
  lemma {:induction false} ValidityIsHistory(history: seq<Observation>)
    ensures var (valid, fails) := Replay(history);
            && (!valid <==> TwoFailuresSincePromotion(history))
            && (fails > 0 <==> history != [] && history[|history| - 1] == Renewed(false))
  {
    if history != [] {
      var n := |history| - 1;
      var front := history[..n];
      ValidityIsHistory(front);
      if history[n].Renewed? {
        forall i | TwoFailuresAt(front, i) ensures TwoFailuresAt(history, i) {
        }
        forall i | TwoFailuresAt(history, i) && i + 1 < n ensures TwoFailuresAt(front, i) {
          assert forall j :: i < j < n ==> front[j] == history[j];
        }
        if n > 0 && history[n] == Renewed(false) && front[n - 1] == Renewed(false) {
          assert TwoFailuresAt(history, n - 1);
        }
      } else {
        assert forall i :: TwoFailuresAt(history, i) ==> history[n] != Promoted;
      }
    }
  }

  /** The manager's flag and counter are the ones of its history, from a fresh manager on. */
  function Observe(m: Manager, a: Action): seq<Observation> {
    match a
    case Tick(t, db) => [Renewed(Renew(t, m.primary, m.owner, db(0)).1)]
    case Consumption(t, reply) => if m.backups == [] then [] else [Promoted]
  }

  function History(m: Manager, actions: seq<Action>): seq<Observation> {
    if actions == [] then []
    else
      var front := actions[..|actions| - 1];
      History(m, front) + Observe(ActAll(m, [], front).0, actions[|actions| - 1])
  }

  lemma ActFollowsHistory(m: Manager, used: seq<int>, a: Action, h: seq<Observation>)
    requires (m.valid, m.renewFail) == Replay(h)
    ensures var m' := Act(m, used, a).0; (m'.valid, m'.renewFail) == Replay(h + Observe(m, a))
  {
    hide Renew, RenewBackups;
    var o := Observe(m, a);
    if o == [] {
      assert h + o == h;
    } else {
      assert (h + o)[..|h + o| - 1] == h;
    }
  }

  lemma {:induction false} ManagerFollowsHistory(m: Manager, actions: seq<Action>)
    requires m.valid && m.renewFail == 0
    ensures var m' := ActAll(m, [], actions).0;
            && (m'.valid, m'.renewFail) == Replay(History(m, actions))
            && (!m'.valid <==> TwoFailuresSincePromotion(History(m, actions)))
  {
    if actions != [] {
      var front := actions[..|actions| - 1];
      ManagerFollowsHistory(m, front);
      hide Act, Observe, TwoFailuresSincePromotion;
      var (m1, used1) := ActAll(m, [], front);
      ActFollowsHistory(m1, used1, actions[|actions| - 1], History(m, front));
    }
    ValidityIsHistory(History(m, actions));
  }

  // ---------- the mutable object ----------

  class LeaseManager {
    const store: Store
    const owner: string
    var primaryWorker: int
    var backups: seq<int>
    var valid: bool
    var renewFail: nat

    function State(): Manager
      reads this
    {
      Manager(owner, primaryWorker, backups, valid, renewFail)
    }

    constructor (store: Store, m: Manager)
      ensures State() == m && this.store == store
    {
      this.store, owner := store, m.owner;
      primaryWorker, backups, valid, renewFail := m.primary, m.backups, m.valid, m.renewFail;
    }

    static method New(store: Store, owner: string, leaseTimeout: int, backupCount: nat)
      returns (r: Option<LeaseManager>)
      modifies store
      ensures var (t, m) := Startup(old(store.table), owner, EffectiveTimeout(leaseTimeout), backupCount,
                                    store.database, old(store.calls));
              && store.table == t
              && (r.Some? <==> m.Some?)
              && (r.Some? ==> fresh(r.value) && r.value.store == store && r.value.State() == m.value)
    {
      hide Acquire, EffectiveTimeout;
      ghost var k := store.calls + 1;
      var primary := store.AcquireWorkerID(owner, leaseTimeout);
      if primary.None? {
        return None;
      }
      ghost var t1 := store.table;
      var backups: seq<int> := [];
      var stopped := false;
      var i := 0;
      while i < backupCount && !stopped
        invariant i <= backupCount && store.calls == k + |backups| + (if stopped then 1 else 0)
        invariant (store.table, backups, stopped) ==
                  AcquireBackups(t1, owner, EffectiveTimeout(leaseTimeout), i, store.database, k)
      {
        var w := store.AcquireWorkerID(owner, leaseTimeout);
        if w.None? {
          stopped := true;
        } else {
          backups := backups + [w.value];
        }
        i := i + 1;
      }
      StoppedStays(t1, owner, EffectiveTimeout(leaseTimeout), i, backupCount, store.database, k);
      var m := new LeaseManager(store, Manager(owner, primary.value, backups, true, 0));
      r := Some(m);
    }

    method RunTick()
      modifies this, store
      ensures (State(), store.table) == RenewOnce(old(State()), old(store.table), store.database, old(store.calls))
    {
      hide Renew;
      var renewing := backups;
      var ok := store.RenewLease(primaryWorker, owner);
      if !ok {
        renewFail := renewFail + 1;
        if renewFail >= MAX_RENEW_FAIL {
          valid := false;
        }
      } else {
        renewFail := 0;
      }
      if |renewing| == 0 {
        return;
      }
      var live := RenewEach(renewing);
      backups := live;
    }

    method RenewEach(renewing: seq<int>) returns (live: seq<int>)
      modifies store
      ensures (store.table, live) == RenewBackups(old(store.table), renewing, owner, store.database, old(store.calls))
    {
      hide Renew;
      ghost var k, t := store.calls, store.table;
      live := [];
      for i := 0 to |renewing|
        invariant store.calls == k + i
        invariant (store.table, live) == RenewBackups(t, renewing[..i], owner, store.database, k)
      {
        assert renewing[..i + 1][..i] == renewing[..i];
        var renewed := store.RenewLease(renewing[i], owner);
        if renewed {
          live := live + [renewing[i]];
        }
      }
      assert renewing[..|renewing|] == renewing;
    }

    method ConsumeBackupWorkerID() returns (r: Option<int>)
      modifies this, store
      ensures (State(), store.table, r) == Consume(old(State()), old(store.table), store.database(old(store.calls)))
    {
      if |backups| == 0 {
        return None;
      }
      var backup, oldPrimary := backups[0], primaryWorker;
      backups := backups[1..];
      primaryWorker := backup;
      valid := true;
      renewFail := 0;
      var noError := store.ReleaseWorkerID(oldPrimary, owner);
      r := if noError then Some(backup) else None;
    }

    method Shutdown()
      modifies store
      ensures store.table == Close(State(), old(store.table), store.database, old(store.calls))
    {
      ghost var k, t0 := store.calls, store.table;
      var workers := [primaryWorker] + backups;
      for i := 0 to |workers|
        invariant store.calls == k + i
        invariant store.table == ReleaseAll(t0, workers[..i], owner, store.database, k)
      {
        assert workers[..i + 1][..i] == workers[..i];
        var _ := store.ReleaseWorkerID(workers[i], owner);
      }
      assert workers[..|workers|] == workers;
    }
  }

  lemma {:induction false} StoppedStays(t: Table, owner: string, timeout: int, i: nat, n: nat, db: Database, k: nat)
    requires i <= n && (AcquireBackups(t, owner, timeout, i, db, k).2 || i == n)
    ensures AcquireBackups(t, owner, timeout, n, db, k) == AcquireBackups(t, owner, timeout, i, db, k)
    decreases n
  {
    if i < n {
      StoppedStays(t, owner, timeout, i, n - 1, db, k);
    }
  }
}
