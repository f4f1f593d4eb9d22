/**
 The `worker_id_alloc` table. Each operation is one atomic guarded statement; the database's clock,
 the rows other transactions have locked, and failures (before or after the effect) are parameters.

 All times are nanoseconds.
 */
module WorkerLeaseStore {
  import opened Wrappers

  datatype LeaseRow = LeaseRow(active: bool, owner: string, leaseTime: int)

  type Table = map<int, LeaseRow>

  datatype Fault = Fine | FailBefore | FailAfter

  datatype Reply = Reply(now: int, fault: Fault, locked: set<int>)

  /** How the database answers the k-th statement of a run. */
  type Database = nat -> Reply

  const MAX_WORKER_ROW: int := 31
  const SECOND: int := 1_000_000_000

  /** The worker ids that the schema admits. */
  ghost predicate SchemaRows(t: Table) { forall w :: w in t ==> 0 <= w <= MAX_WORKER_ROW }

  /** The statement receives the timeout cut to whole seconds, towards zero. */
  function EffectiveTimeout(leaseTimeout: int): int {
    if leaseTimeout >= 0 then (leaseTimeout / SECOND) * SECOND else -((-leaseTimeout / SECOND) * SECOND)
  }

  predicate Free(row: LeaseRow, now: int, timeout: int) { !row.active || row.leaseTime < now - timeout }

  /** The lowest worker id from `w` up that is free and not locked by another transaction. */
  function FirstFree(t: Table, w: int, timeout: int, reply: Reply): (r: Option<int>)
    requires 0 <= w
    ensures r.Some? ==>
      && w <= r.value <= MAX_WORKER_ROW && r.value in t && r.value !in reply.locked
      && Free(t[r.value], reply.now, timeout)
    ensures forall v ::
      v in t && v !in reply.locked && Free(t[v], reply.now, timeout) && w <= v <= MAX_WORKER_ROW ==>
        r.Some? && r.value <= v
    decreases MAX_WORKER_ROW + 1 - w
  {
    if w > MAX_WORKER_ROW then None
    else if w in t && w !in reply.locked && Free(t[w], reply.now, timeout) then Some(w)
    else FirstFree(t, w + 1, timeout, reply)
  }

  function Acquire(t: Table, owner: string, timeout: int, reply: Reply): (Table, Option<int>) {
    if reply.fault.FailBefore? then (t, None)
    else
      var w := FirstFree(t, 0, timeout, reply);
      if w.None? then (t, None)
      else (t[w.value := LeaseRow(true, owner, reply.now)], if reply.fault.Fine? then w else None)
  }

  predicate Holds(t: Table, w: int, owner: string) { w in t && t[w].active && t[w].owner == owner }

  /** True exactly when the caller learns that its lease was extended. */
  function Renew(t: Table, w: int, owner: string, reply: Reply): (Table, bool) {
    if reply.fault.FailBefore? || !Holds(t, w, owner) then (t, false)
    else (t[w := t[w].(leaseTime := reply.now)], reply.fault.Fine?)
  }

  /** False exactly when the caller sees an error; finding no row to release is not one. */
  function Release(t: Table, w: int, owner: string, reply: Reply): (Table, bool) {
    if reply.fault.FailBefore? || w !in t || t[w].owner != owner then (t, reply.fault.Fine?)
    else (t[w := t[w].(active := false, owner := "")], reply.fault.Fine?)
  }

  // ---------- what the statements do to each row ----------

  /** The timeout is what is left of the configured one without its fraction of a second, whatever its sign. */
  lemma EffectiveTimeoutIsSeconds(seconds: nat, fraction: nat)
    requires fraction < SECOND
    ensures EffectiveTimeout(seconds * SECOND + fraction) == seconds * SECOND
    ensures EffectiveTimeout(-(seconds * SECOND + fraction)) == -(seconds * SECOND)
  {
  }

  /** With a timeout of that many whole seconds, the statement may take the row; the schema has workers 0 to 31. */
  predicate Takeable(t: Table, w: int, reply: Reply, seconds: int) {
    && 0 <= w <= 31 && w in t && w !in reply.locked
    && (t[w].active ==> t[w].leaseTime < reply.now - seconds * SECOND)
  }

  /**
   An acquisition that reaches the database takes the lowest worker that is not locked and was released, or
   not renewed for more than the whole seconds of the timeout; the caller learns of it unless the answer is
   lost. Nothing else changes, and nothing at all if there is no such worker.
   */
  lemma AcquireExact(t: Table, owner: string, seconds: nat, fraction: nat, reply: Reply, w: int)
    requires fraction < SECOND
    ensures var (t', r) := Acquire(t, owner, EffectiveTimeout(seconds * SECOND + fraction), reply);
            var lowest := Takeable(t, w, reply, seconds) && forall v :: Takeable(t, v, reply, seconds) ==> w <= v;
            && (r == Some(w) <==> lowest && reply.fault.Fine?)
            && (if lowest && !reply.fault.FailBefore? then w in t' && t'[w] == LeaseRow(true, owner, reply.now)
                else (w in t' <==> w in t) && (w in t ==> t'[w] == t[w]))
  {
    EffectiveTimeoutIsSeconds(seconds, fraction);
    hide EffectiveTimeout;
    var timeout := seconds * SECOND;
    assert forall v :: Takeable(t, v, reply, seconds) <==>
      0 <= v <= MAX_WORKER_ROW && v in t && v !in reply.locked && Free(t[v], reply.now, timeout);
    hide Takeable;
    var first := FirstFree(t, 0, timeout, reply);
    assert first.Some? ==> Takeable(t, first.value, reply, seconds);
    assert forall v :: Takeable(t, v, reply, seconds) ==> first.Some? && first.value <= v;
  }

  /**
   A renewal that reaches the database moves the lease of an active row of this owner to the present, and
   only that; the caller learns of it exactly if the answer arrives.
   */
  lemma RenewExact(t: Table, w: int, owner: string, reply: Reply, v: int)
    ensures var (t', ok) := Renew(t, w, owner, reply);
            var renewed := w in t && t[w].active && t[w].owner == owner && !reply.fault.FailBefore?;
            && (ok <==> renewed && reply.fault.Fine?)
            && (v in t' <==> v in t)
            && (v in t ==> t'[v] == if renewed && v == w then LeaseRow(true, owner, reply.now) else t[v])
  {
  }

  class Store {
    const database: Database
    var table: Table
    var calls: nat

    constructor (database: Database, table: Table)
      ensures this.database == database && this.table == table && calls == 0
    {
      this.database, this.table, calls := database, table, 0;
    }

    method AcquireWorkerID(owner: string, leaseTimeout: int) returns (r: Option<int>)
      modifies this
      ensures calls == old(calls) + 1
      ensures (table, r) == Acquire(old(table), owner, EffectiveTimeout(leaseTimeout), database(old(calls)))
    {
      var reply := database(calls);
      calls := calls + 1;
      var timeout := EffectiveTimeout(leaseTimeout);
      if reply.fault.FailBefore? {
        return None;
      }
      var w := FirstFree(table, 0, timeout, reply);
      if w.None? {
        return None;
      }
      table := table[w.value := LeaseRow(true, owner, reply.now)];
      r := if reply.fault.Fine? then w else None;
    }

    method RenewLease(w: int, owner: string) returns (ok: bool)
      modifies this
      ensures calls == old(calls) + 1
      ensures (table, ok) == Renew(old(table), w, owner, database(old(calls)))
    {
      var reply := database(calls);
      calls := calls + 1;
      if reply.fault.FailBefore? {
        return false;
      }
      var matched := Holds(table, w, owner);
      if matched {
        table := table[w := table[w].(leaseTime := reply.now)];
      }
      ok := matched && reply.fault.Fine?;
    }

    method ReleaseWorkerID(w: int, owner: string) returns (noError: bool)
      modifies this
      ensures calls == old(calls) + 1
      ensures (table, noError) == Release(old(table), w, owner, database(old(calls)))
    {
      var reply := database(calls);
      calls := calls + 1;
      if !reply.fault.FailBefore? && w in table && table[w].owner == owner {
        table := table[w := table[w].(active := false, owner := "")];
      }
      noError := reply.fault.Fine?;
    }
  }
}
