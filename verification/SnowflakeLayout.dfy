/**
 The bit layout of a Snowflake ID: 42 bits of milliseconds since the epoch (with sign), 5 bits of
 datacenter, 5 bits of worker, 12 bits of sequence, put together with int64 shifts and ors.
 */
module SnowflakeLayout {
  import opened Bits

  const WORKER_BITS: nat := 5
  const DATACENTER_BITS: nat := 5
  const SEQUENCE_BITS: nat := 12
  const WORKER_SHIFT: nat := SEQUENCE_BITS
  const DATACENTER_SHIFT: nat := SEQUENCE_BITS + WORKER_BITS
  const TIMESTAMP_SHIFT: nat := SEQUENCE_BITS + WORKER_BITS + DATACENTER_BITS
  const MAX_WORKER: int := 31
  const MAX_DATACENTER: int := 31
  const MAX_SEQUENCE: int := 4095
  const WINDOW: int := 0x200_0000_0000  // 2^41 milliseconds, about 69 years

  lemma Powers()
    ensures Pow2(5) == 32 && Pow2(12) == 4096 && Pow2(17) == 131072 && Pow2(22) == 4194304
  {
  }

  /** The shift-and-or expression; `elapsed` is timestamp - epoch. */
  function Pack(elapsed: int, datacenter: int, worker: int, sequence: int): int {
    Or(Or(Or(Shl(elapsed, TIMESTAMP_SHIFT), Shl(datacenter, DATACENTER_SHIFT)), Shl(worker, WORKER_SHIFT)), sequence)
  }

  predicate FieldsInRange(datacenter: int, worker: int, sequence: int) {
    0 <= datacenter <= MAX_DATACENTER && 0 <= worker <= MAX_WORKER && 0 <= sequence <= MAX_SEQUENCE
  }

  datatype Parsed = Parsed(timestamp: int, datacenter: int, worker: int, sequence: int)

  function Parse(id: int, epoch: int): Parsed {
    Parsed(Wrap64(Sar(id, TIMESTAMP_SHIFT) + epoch),
           And(Sar(id, DATACENTER_SHIFT), MAX_DATACENTER),
           And(Sar(id, WORKER_SHIFT), MAX_WORKER),
           And(id, MAX_SEQUENCE))
  }

  predicate InWindow(elapsed: int) { -WINDOW <= elapsed < WINDOW }

  /** What is left of `elapsed` in 42 signed bits. */
  function Low42(elapsed: int): (r: int)
    ensures InWindow(r) && (InWindow(elapsed) ==> r == elapsed)
  {
    (elapsed + WINDOW) % (2 * WINDOW) - WINDOW
  }

  lemma ShiftedTimestamp(elapsed: int)
    ensures Shl(elapsed, TIMESTAMP_SHIFT) == Low42(elapsed) * 4194304
  {
    Powers();
    var q, r := (elapsed + WINDOW) / (2 * WINDOW), (elapsed + WINDOW) % (2 * WINDOW);
    DivModUnique(elapsed * 4194304 + TWO_63, TWO_64, q, r * 4194304);
  }

  /** The fields do not overlap and nothing overflows: packing is plain positional notation. */
  lemma PackValue(elapsed: int, datacenter: int, worker: int, sequence: int)
    requires FieldsInRange(datacenter, worker, sequence)
    ensures Pack(elapsed, datacenter, worker, sequence) ==
            Low42(elapsed) * 4194304 + datacenter * 131072 + worker * 4096 + sequence
    ensures IsInt64(Pack(elapsed, datacenter, worker, sequence))
  {
    Powers();
    ShiftedTimestamp(elapsed);
    hide Or, Low42, Wrap64, Pow2;
    var high := Low42(elapsed);
    var t, d, w := high * 4194304, datacenter * 131072, worker * 4096;
    assert Shl(datacenter, DATACENTER_SHIFT) == d && Shl(worker, WORKER_SHIFT) == w;
    DivModUnique(t, 4194304, high, 0);
    DivModUnique(t + d, 131072, high * 32 + datacenter, 0);
    DivModUnique(t + d + w, 4096, (high * 32 + datacenter) * 32 + worker, 0);
    OrDisjoint(t, d, TIMESTAMP_SHIFT);
    OrDisjoint(t + d, w, DATACENTER_SHIFT);
    OrDisjoint(t + d + w, sequence, WORKER_SHIFT);
  }

  lemma ParseFields(id: int, epoch: int)
    ensures Parse(id, epoch) ==
            Parsed(Wrap64(id / 4194304 + epoch), (id / 131072) % 32, (id / 4096) % 32, id % 4096)
  {
    Powers();
    AndMask(id / 131072, 5);
    AndMask(id / 4096, 5);
    AndMask(id, 12);
  }

  /** Positional notation can be read back digit by digit. */
  lemma ReadBack(t: int, datacenter: int, worker: int, sequence: int)
    requires FieldsInRange(datacenter, worker, sequence)
    ensures var id := t * 4194304 + datacenter * 131072 + worker * 4096 + sequence;
            id / 4194304 == t && (id / 131072) % 32 == datacenter && (id / 4096) % 32 == worker && id % 4096 == sequence
  {
    var id := t * 4194304 + datacenter * 131072 + worker * 4096 + sequence;
    DivModUnique(id, 4194304, t, datacenter * 131072 + worker * 4096 + sequence);
    DivModUnique(id, 131072, t * 32 + datacenter, worker * 4096 + sequence);
    DivModUnique(id, 4096, (t * 32 + datacenter) * 32 + worker, sequence);
    DivModUnique(t * 32 + datacenter, 32, t, datacenter);
    DivModUnique((t * 32 + datacenter) * 32 + worker, 32, t * 32 + datacenter, worker);
  }

  lemma Digits(id: int)
    ensures id == (id / 4194304) * 4194304 + ((id / 131072) % 32) * 131072 + ((id / 4096) % 32) * 4096 + id % 4096
  {
    var a := id / 4096;
    var b := a / 32;
    DivModUnique(id, 131072, b, (a % 32) * 4096 + id % 4096);
    DivModUnique(id, 4194304, b / 32, (b % 32) * 131072 + (a % 32) * 4096 + id % 4096);
  }

  /**
   Parsing an ID gives back the datacenter, worker and sequence it was made from, always, and the
   timestamp exactly when it lies within 2^41 milliseconds of the epoch.
   */
  lemma ParseUndoesPack(timestamp: int, epoch: int, datacenter: int, worker: int, sequence: int)
    requires IsInt64(timestamp) && IsInt64(epoch) && FieldsInRange(datacenter, worker, sequence)
    ensures var elapsed := Wrap64(timestamp - epoch);
            var p := Parse(Pack(elapsed, datacenter, worker, sequence), epoch);
            && p.datacenter == datacenter && p.worker == worker && p.sequence == sequence
            && (p.timestamp == timestamp <==> InWindow(elapsed))
  {
    hide Pack, Low42, And, Or, Wrap64;
    var elapsed := Wrap64(timestamp - epoch);
    var t := Low42(elapsed);
    WrapUndone(timestamp, -epoch);
    WrapUndone(t, epoch);
    PackValue(elapsed, datacenter, worker, sequence);
    var id := Pack(elapsed, datacenter, worker, sequence);
    ParseFields(id, epoch);
    ReadBack(t, datacenter, worker, sequence);
  }

  /** Packing the parsed fields gives back any int64 whatsoever, for every epoch. */
  lemma PackUndoesParse(id: int, epoch: int)
    requires IsInt64(id) && IsInt64(epoch)
    ensures var p := Parse(id, epoch);
            && FieldsInRange(p.datacenter, p.worker, p.sequence)
            && Pack(Wrap64(p.timestamp - epoch), p.datacenter, p.worker, p.sequence) == id
  {
    hide Pack, Parse, And, Or, Wrap64;
    ParseFields(id, epoch);
    var p := Parse(id, epoch);
    var t := id / 4194304;
    WrapUndone(t, epoch);
    Digits(id);
    assert Wrap64(p.timestamp - epoch) == t;
    PackValue(t, p.datacenter, p.worker, p.sequence);
  }

  ghost predicate LexLess(t1: int, s1: int, t2: int, s2: int) {
    t1 < t2 || (t1 == t2 && s1 < s2)
  }

  /** On one worker, IDs are ordered as int64 exactly as their (timestamp, sequence) pairs are. */
  lemma PackKeepsOrder(e1: int, s1: int, e2: int, s2: int, datacenter: int, worker: int)
    requires InWindow(e1) && InWindow(e2)
    requires FieldsInRange(datacenter, worker, s1) && FieldsInRange(datacenter, worker, s2)
    ensures Pack(e1, datacenter, worker, s1) < Pack(e2, datacenter, worker, s2) <==> LexLess(e1, s1, e2, s2)
  {
    hide Pack, And, Or;
    PackValue(e1, datacenter, worker, s1);
    PackValue(e2, datacenter, worker, s2);
  }

  /** Two packings coincide exactly when all fields do, the time being taken modulo 2^42 milliseconds. */
  lemma PackInjective(e1: int, d1: int, w1: int, s1: int, e2: int, d2: int, w2: int, s2: int)
    requires FieldsInRange(d1, w1, s1) && FieldsInRange(d2, w2, s2)
    ensures Pack(e1, d1, w1, s1) == Pack(e2, d2, w2, s2) <==>
            Low42(e1) == Low42(e2) && d1 == d2 && w1 == w2 && s1 == s2
  {
    hide Pack, Low42, And, Or;
    PackValue(e1, d1, w1, s1);
    PackValue(e2, d2, w2, s2);
    ReadBack(Low42(e1), d1, w1, s1);
    ReadBack(Low42(e2), d2, w2, s2);
  }
}
