/**
 The generator: one worker id, the last timestamp used and the sequence within it. A call reads the
 clock once, or, after 4096 IDs in one millisecond, until the clock has moved past that millisecond.
 */
module SnowflakeGenerator {
  import opened Wrappers
  import opened Bits
  import opened SnowflakeLayout

  /** Where the generator runs: the constants packed into each ID. */
  datatype Node = Node(datacenter: int, epoch: int)

  datatype GenState = GenState(worker: int, lastTimestamp: int, sequence: int)

  /** The fields of one ID before packing. */
  datatype Ticket = Ticket(timestamp: int, worker: int, sequence: int)

  /** The clock readings of one call: the first one, and the one that ends the wait if it has to wait. */
  datatype Reading = Reading(now: int, after: int)

  /** The clock was behind the last timestamp by `offset` milliseconds. */
  datatype ClockBackwards = ClockBackwards(offset: int)

  function NewGenerator(worker: int): GenState { GenState(worker, -1, 0) }

  function SwitchWorker(g: GenState, worker: int): GenState { GenState(worker, -1, 0) }

  function NextSequence(g: GenState): int { And(g.sequence + 1, MAX_SEQUENCE) }

  predicate MustWait(g: GenState, now: int) { now == g.lastTimestamp && NextSequence(g) == 0 }

  /** The second reading ends the wait only if it is past the last timestamp. */
  predicate Possible(g: GenState, r: Reading) { MustWait(g, r.now) ==> r.after > g.lastTimestamp }

  function Generate(g: GenState, r: Reading): (GenState, Result<Ticket, ClockBackwards>) {
    if r.now < g.lastTimestamp then (g, Err(ClockBackwards(Wrap64(g.lastTimestamp - r.now))))
    else
      var sequence := if r.now == g.lastTimestamp then NextSequence(g) else 0;
      var timestamp := if MustWait(g, r.now) then r.after else r.now;
      (GenState(g.worker, timestamp, sequence), Ok(Ticket(timestamp, g.worker, sequence)))
  }

  function IdOf(node: Node, t: Ticket): int {
    Pack(Wrap64(t.timestamp - node.epoch), node.datacenter, t.worker, t.sequence)
  }

  ghost predicate ValidGen(g: GenState) { 0 <= g.sequence <= MAX_SEQUENCE }

  lemma NextSequenceIsModulo(g: GenState)
    ensures NextSequence(g) == (g.sequence + 1) % 4096
  {
    Powers();
    AndMask(g.sequence + 1, 12);
    hide And, Pow2;
  }

  /**
   One call either fails and changes nothing, because the clock is behind, or produces a
   (timestamp, sequence) pair above every earlier one; in the same millisecond it is the very next
   pair, and a call that had to wait starts a strictly later millisecond at sequence 0.
   */
  lemma GenerateRises(g: GenState, r: Reading)
    requires ValidGen(g) && Possible(g, r)
    ensures var (g', result) := Generate(g, r);
            && ValidGen(g') && g'.worker == g.worker
            && (result.Err? <==> r.now < g.lastTimestamp)
            && (result.Err? ==> g' == g)
            && (result.Err? && IsInt64(g.lastTimestamp - r.now) ==> result.error.offset == g.lastTimestamp - r.now > 0)
            && (result.Ok? ==>
                  var t := result.value;
                  && t == Ticket(g'.lastTimestamp, g.worker, g'.sequence)
                  && (t.timestamp == r.now || t.timestamp == r.after)
                  && LexLess(g.lastTimestamp, g.sequence, t.timestamp, t.sequence)
                  && (t.timestamp == g.lastTimestamp ==> t.sequence == g.sequence + 1)
                  && (MustWait(g, r.now) ==>
                        g.sequence == MAX_SEQUENCE && t.timestamp > g.lastTimestamp && t.sequence == 0))
  {
    NextSequenceIsModulo(g);
    hide And, NextSequence;
  }

  // ---------- many calls on one worker ----------

  ghost predicate AllPossible(g: GenState, rs: seq<Reading>)
    decreases |rs|
  {
    rs == [] || (AllPossible(g, rs[..|rs| - 1]) && Possible(After(g, rs[..|rs| - 1]), rs[|rs| - 1]))
  }

  function After(g: GenState, rs: seq<Reading>): GenState {
    if rs == [] then g else Generate(After(g, rs[..|rs| - 1]), rs[|rs| - 1]).0
  }

  function Tickets(g: GenState, rs: seq<Reading>): seq<Ticket> {
    if rs == [] then []
    else
      var front := rs[..|rs| - 1];
      var r := Generate(After(g, front), rs[|rs| - 1]).1;
      Tickets(g, front) + if r.Ok? then [r.value] else []
  }

  /**
   The tickets `ts` issued since state `g0`, now at `g`: their pairs rise strictly from the one
   stored in `g0` to the one stored in `g`, and within a millisecond the sequence counts up by one.
   */
  ghost predicate Risen(g0: GenState, g: GenState, ts: seq<Ticket>) {
    && ValidGen(g) && g.worker == g0.worker
    && (if ts == [] then g == g0
        else ts[|ts| - 1] == Ticket(g.lastTimestamp, g.worker, g.sequence))
    && (forall i :: 0 <= i < |ts| ==> ts[i].worker == g0.worker && 0 <= ts[i].sequence <= MAX_SEQUENCE)
    && (forall i :: 0 <= i < |ts| ==> LexLess(g0.lastTimestamp, g0.sequence, ts[i].timestamp, ts[i].sequence))
    && (forall i, j :: 0 <= i < j < |ts| ==> LexLess(ts[i].timestamp, ts[i].sequence, ts[j].timestamp, ts[j].sequence))
    && (forall i, j :: 0 <= i < j < |ts| && ts[i].timestamp == ts[j].timestamp ==>
          ts[j].sequence == ts[i].sequence + (j - i))
  }

  lemma RisenStep(g0: GenState, g: GenState, ts: seq<Ticket>, r: Reading)
    requires Risen(g0, g, ts) && Possible(g, r)
    ensures var (g', result) := Generate(g, r);
            Risen(g0, g', ts + if result.Ok? then [result.value] else [])
  {
    GenerateRises(g, r);
    hide Generate, Possible, MustWait;
    var (g', out) := Generate(g, r);
    if out.Err? {
      assert ts + [] == ts;
    } else {
      AppendRisen(g0, g, ts, g', out.value);
    }
  }

  lemma AppendRisen(g0: GenState, g: GenState, ts: seq<Ticket>, g': GenState, t: Ticket)
    requires Risen(g0, g, ts) && ValidGen(g') && g'.worker == g.worker
    requires t == Ticket(g'.lastTimestamp, g'.worker, g'.sequence)
    requires LexLess(g.lastTimestamp, g.sequence, t.timestamp, t.sequence)
    requires t.timestamp == g.lastTimestamp ==> t.sequence == g.sequence + 1
    ensures Risen(g0, g', ts + [t])
  {
    var n := |ts|;
    forall i | 0 <= i < n
      ensures LexLess(ts[i].timestamp, ts[i].sequence, t.timestamp, t.sequence)
      ensures ts[i].timestamp == t.timestamp ==> t.sequence == ts[i].sequence + (n - i)
    {
      if i < n - 1 {
        assert LexLess(ts[i].timestamp, ts[i].sequence, ts[n - 1].timestamp, ts[n - 1].sequence);
      }
    }
    assert n > 0 ==> LexLess(g0.lastTimestamp, g0.sequence, ts[n - 1].timestamp, ts[n - 1].sequence);
    hide LexLess;
  }

  /**
   For every clock whatsoever, the pairs issued on one worker rise strictly, and no millisecond
   carries more than 4096 of them.
   */
  lemma {:induction false} TicketsRise(g: GenState, rs: seq<Reading>)
    requires ValidGen(g) && AllPossible(g, rs)
    ensures Risen(g, After(g, rs), Tickets(g, rs))
    ensures var ts := Tickets(g, rs);
            forall i, j :: 0 <= i < j < |ts| && ts[i].timestamp == ts[j].timestamp ==> j - i <= MAX_SEQUENCE
  {
    if rs != [] {
      var front := rs[..|rs| - 1];
      TicketsRise(g, front);
      RisenStep(g, After(g, front), Tickets(g, front), rs[|rs| - 1]);
    }
  }

  /** As numbers, the IDs one worker issues rise strictly, for every clock that stays in the window. */
  lemma IdsRise(node: Node, g: GenState, rs: seq<Reading>, i: nat, j: nat)
    requires ValidGen(g) && AllPossible(g, rs) && i < j < |Tickets(g, rs)|
    requires FieldsInRange(node.datacenter, g.worker, 0)
    requires InWindow(Tickets(g, rs)[i].timestamp - node.epoch) && InWindow(Tickets(g, rs)[j].timestamp - node.epoch)
    ensures IdOf(node, Tickets(g, rs)[i]) < IdOf(node, Tickets(g, rs)[j])
  {
    TicketsRise(g, rs);
    var a, b := Tickets(g, rs)[i], Tickets(g, rs)[j];
    PackKeepsOrder(a.timestamp - node.epoch, a.sequence, b.timestamp - node.epoch, b.sequence,
                   node.datacenter, g.worker);
  }

  // ---------- the mutable object ----------

  /** The clock shows some reading past `last` at or after the reading number `from`. */
  ghost predicate Overtakes(clock: nat -> int, from: nat, last: int) {
    exists k: nat :: k >= from && clock(k) > last
  }

  class Generator {
    const node: Node
    const clock: nat -> int   // every reading the clock will ever give
    var taken: nat            // readings taken so far
    var worker: int
    var lastTimestamp: int
    var sequence: int

    function State(): GenState
      reads this
    {
      GenState(worker, lastTimestamp, sequence)
    }

    constructor (worker: int, node: Node, clock: nat -> int)
      ensures State() == NewGenerator(worker) && taken == 0 && this.node == node && this.clock == clock
    {
      this.worker, this.node, this.clock := worker, node, clock;
      lastTimestamp, sequence, taken := -1, 0, 0;
    }

    /** Needs only that the wait for the next millisecond ends; it stops at the first later reading. */
    method GenerateID() returns (r: Result<int, ClockBackwards>, ghost reading: Reading)
      requires MustWait(State(), clock(taken)) ==> Overtakes(clock, taken + 1, lastTimestamp)
      modifies this
      ensures taken > old(taken) && reading == Reading(clock(old(taken)), clock(taken - 1))
      ensures Possible(old(State()), reading)
      ensures var (g, ticket) := Generate(old(State()), reading);
              State() == g && r == if ticket.Ok? then Ok(IdOf(node, ticket.value)) else Err(ticket.error)
      ensures if MustWait(old(State()), clock(old(taken)))
              then forall k :: old(taken) < k < taken - 1 ==> clock(k) <= old(lastTimestamp)
              else taken == old(taken) + 1
    {
      hide Pack, And, Or, Wrap64;
      ghost var from := taken;
      var timestamp := clock(taken);
      taken := taken + 1;
      reading := Reading(timestamp, timestamp);
      if timestamp < lastTimestamp {
        return Err(ClockBackwards(Wrap64(lastTimestamp - timestamp))), reading;
      }
      if timestamp == lastTimestamp {
        sequence := And(sequence + 1, MAX_SEQUENCE);
        if sequence == 0 {
          ghost var passed :| passed >= taken && clock(passed) > lastTimestamp;
          while timestamp <= lastTimestamp
            invariant State() == old(State()).(sequence := 0)
            invariant from < taken && timestamp == clock(taken - 1)
            invariant timestamp <= lastTimestamp ==> taken <= passed
            invariant forall k :: from < k < taken - 1 ==> clock(k) <= lastTimestamp
            decreases passed + 1 - taken, timestamp <= lastTimestamp
          {
            timestamp := clock(taken);
            taken := taken + 1;
          }
          reading := Reading(clock(from), timestamp);
        }
      } else {
        sequence := 0;
      }
      lastTimestamp := timestamp;
      r := Ok(Pack(Wrap64(timestamp - node.epoch), node.datacenter, worker, sequence));
    }

    /** The fields an ID of this node was made from; see `ParseUndoesPack`. */
    method ParseID(id: int) returns (p: Parsed)
      ensures p == Parse(id, node.epoch)
      ensures forall t: Ticket ::
        id == IdOf(node, t) && IsInt64(t.timestamp) && IsInt64(node.epoch) &&
        FieldsInRange(node.datacenter, t.worker, t.sequence) && InWindow(Wrap64(t.timestamp - node.epoch)) ==>
        p == Parsed(t.timestamp, node.datacenter, t.worker, t.sequence)
    {
      p := Parsed(Wrap64(Sar(id, TIMESTAMP_SHIFT) + node.epoch),
                  And(Sar(id, DATACENTER_SHIFT), MAX_DATACENTER),
                  And(Sar(id, WORKER_SHIFT), MAX_WORKER),
                  And(id, MAX_SEQUENCE));
      forall t: Ticket |
        id == IdOf(node, t) && IsInt64(t.timestamp) && IsInt64(node.epoch) &&
        FieldsInRange(node.datacenter, t.worker, t.sequence) && InWindow(Wrap64(t.timestamp - node.epoch))
        ensures p == Parsed(t.timestamp, node.datacenter, t.worker, t.sequence)
      {
        ParseUndoesPack(t.timestamp, node.epoch, node.datacenter, t.worker, t.sequence);
      }
    }

    method SwitchWorkerID(newWorker: int)
      modifies this
      ensures State() == SwitchWorker(old(State()), newWorker) && taken == old(taken)
    {
      worker := newWorker;
      sequence := 0;
      lastTimestamp := -1;
    }
  }
}
