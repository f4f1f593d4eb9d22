/**
 The client's prefetch buffers: bounded queues of IDs, refilled in batches from the server.

 `Queue` with its events covers every interleaving of callers, refills and closes on one buffer;
 `Stock` covers one caller without background refills; the class is the client object.
 */
module Client {
  import opened Wrappers
  import opened Sequences

  datatype Error = ClientClosed | InvalidArgument | ConnectionFailed

  datatype Config = Config(
    bufferSize: int, refillThreshold: int, batchFetchSize: int, asyncRefill: bool, bufferEnabled: bool)

  /** What a client without settings of its own uses. */
  const DEFAULT_CONFIG := Config(100, 20, 50, true, true)

  /** The defaults fill in for values that make no sense. */
  function Normalize(c: Config): (r: Config)
    ensures r.bufferSize >= 1 && r.batchFetchSize >= 1
  {
    var size := if c.bufferSize <= 0 then 100 else c.bufferSize;
    Config(size,
           if c.refillThreshold < 0 || c.refillThreshold >= size then 20 else c.refillThreshold,
           if c.batchFetchSize <= 0 then 50 else c.batchFetchSize,
           c.asyncRefill, c.bufferEnabled)
  }

  /** Values that make sense are kept, each other one is the default, and the switches are never touched. */
  lemma NormalizeExact(c: Config)
    ensures var r := Normalize(c);
            && r.bufferSize == (if c.bufferSize >= 1 then c else DEFAULT_CONFIG).bufferSize
            && r.batchFetchSize == (if c.batchFetchSize >= 1 then c else DEFAULT_CONFIG).batchFetchSize
            && r.refillThreshold ==
               (if 0 <= c.refillThreshold < r.bufferSize then c else DEFAULT_CONFIG).refillThreshold
            && r.asyncRefill == c.asyncRefill && r.bufferEnabled == c.bufferEnabled
    ensures Normalize(Normalize(c)) == Normalize(c) && Normalize(DEFAULT_CONFIG) == DEFAULT_CONFIG
  {
  }

  ghost predicate ValidConfig(c: Config) { c.bufferSize >= 1 && c.batchFetchSize >= 1 }

  /** How many IDs a refill asks for, if any. */
  function ToFetch(c: Config, buf: seq<int>): int {
    var room := c.bufferSize - |buf|;
    if room > c.batchFetchSize then c.batchFetchSize else room
  }

  /** A reply is appended and what does not fit is cut off. */
  function Appended(c: Config, buf: seq<int>, ids: seq<int>): (r: seq<int>)
    requires ValidConfig(c)
    ensures |r| <= c.bufferSize && r <= buf + ids
    ensures |buf + ids| <= c.bufferSize ==> r == buf + ids
  {
    if |buf + ids| > c.bufferSize then (buf + ids)[..c.bufferSize] else buf + ids
  }

  // ---------- every interleaving on one buffer ----------

  /** `appended`, `fetched`: all replies in the order in which they were appended or arrived. */
  datatype Queue = Queue(
    buf: seq<int>, handed: seq<int>, direct: seq<int>, appended: seq<int>, fetched: seq<int>)

  /** The lock-protected steps, and replies that bypass the buffer or are never used. */
  datatype Event = Take | Append(ids: seq<int>) | Direct(ids: seq<int>) | Unused(ids: seq<int>) | Close

  function Step(c: Config, q: Queue, ev: Event): Queue
    requires ValidConfig(c)
  {
    match ev
    case Take => if q.buf == [] then q else q.(buf := q.buf[1..], handed := q.handed + [q.buf[0]])
    case Append(ids) =>
      q.(buf := Appended(c, q.buf, ids), appended := q.appended + ids, fetched := q.fetched + ids)
    case Direct(ids) => q.(direct := q.direct + ids, fetched := q.fetched + ids)
    case Unused(ids) => q.(fetched := q.fetched + ids)
    case Close => q.(buf := [])
  }

  function Steps(c: Config, q: Queue, evs: seq<Event>): Queue
    requires ValidConfig(c)
  {
    if evs == [] then q else Step(c, Steps(c, q, evs[..|evs| - 1]), evs[|evs| - 1])
  }

  const EMPTY_QUEUE := Queue([], [], [], [], [])

  ghost predicate Inv(c: Config, q: Queue) {
    && |q.buf| <= c.bufferSize
    && Subsequence(q.handed + q.buf, q.appended)
    && multiset(q.handed) + multiset(q.buf) + multiset(q.direct) <= multiset(q.fetched)
  }

  lemma AppendKeepsInv(c: Config, q: Queue, ids: seq<int>)
    requires ValidConfig(c) && Inv(c, q)
    ensures Inv(c, Step(c, q, Append(ids)))
  {
    var buf := Appended(c, q.buf, ids);
    AppendKeepsOrder(c, q, ids);
    AppendKeepsCounts(q.buf, ids, buf);
    hide Subsequence, Appended;
  }

  lemma AppendKeepsOrder(c: Config, q: Queue, ids: seq<int>)
    requires ValidConfig(c) && Subsequence(q.handed + q.buf, q.appended)
    ensures Subsequence(q.handed + Appended(c, q.buf, ids), q.appended + ids)
  {
    hide Subsequence;
    var all, buf := q.handed + q.buf + ids, Appended(c, q.buf, ids);
    SubsequenceAppend(q.handed + q.buf, q.appended, ids);
    SubsequencePrefix(all, |q.handed| + |buf|, q.appended + ids);
    assert all[..|q.handed| + |buf|] == q.handed + buf;
  }

  lemma AppendKeepsCounts(buf: seq<int>, ids: seq<int>, kept: seq<int>)
    requires kept <= buf + ids
    ensures multiset(kept) <= multiset(buf) + multiset(ids)
  {
    assert kept + (buf + ids)[|kept|..] == buf + ids;
    assert multiset(buf + ids) == multiset(buf) + multiset(ids);
    assert multiset(buf + ids) == multiset(kept) + multiset((buf + ids)[|kept|..]);
  }

  lemma StepKeepsInv(c: Config, q: Queue, ev: Event)
    requires ValidConfig(c) && Inv(c, q)
    ensures Inv(c, Step(c, q, ev))
  {
    match ev
    case Append(ids) => AppendKeepsInv(c, q, ids);
    case Take =>
      if q.buf != [] {
        assert q.handed + [q.buf[0]] + q.buf[1..] == q.handed + q.buf;
        assert [q.buf[0]] + q.buf[1..] == q.buf;
      }
    case Close =>
      SubsequencePrefix(q.handed + q.buf, |q.handed|, q.appended);
      assert (q.handed + q.buf)[..|q.handed|] == q.handed && q.handed + [] == q.handed;
    case Direct(_) =>
    case Unused(_) =>
  }

  /**
   Queue conservation. The buffer never exceeds its size; the IDs handed out and then those buffered
   are read off the appended replies from left to right; and if the server never repeats an ID, no ID
   is handed out twice, whether through the buffer or around it.
   */
  lemma {:induction false} QueueConservation(c: Config, evs: seq<Event>)
    requires ValidConfig(c)
    ensures var q := Steps(c, EMPTY_QUEUE, evs);
            && Inv(c, q)
            && (Distinct(q.fetched) ==> Distinct(q.handed + q.direct))
  {
    if evs != [] {
      QueueConservation(c, evs[..|evs| - 1]);
      StepKeepsInv(c, Steps(c, EMPTY_QUEUE, evs[..|evs| - 1]), evs[|evs| - 1]);
    }
    var q := Steps(c, EMPTY_QUEUE, evs);
    if Distinct(q.fetched) {
      DistinctCount(q.fetched);
      assert multiset(q.handed + q.direct) == multiset(q.handed) + multiset(q.direct);
      forall x ensures multiset(q.handed + q.direct)[x] <= 1 {
        assert multiset(q.fetched)[x] <= 1;
      }
      CountDistinct(q.handed + q.direct);
    }
  }

  lemma {:induction false} DistinctCount<T>(s: seq<T>)
    requires Distinct(s)
    ensures forall x :: multiset(s)[x] <= 1
  {
    if s != [] {
      var n := |s| - 1;
      assert s == s[..n] + [s[n]];
      assert forall i :: 0 <= i < n ==> s[..n][i] != s[n];
      DistinctCount(s[..n]);
    }
  }

  lemma CountDistinct<T>(s: seq<T>)
    requires forall x :: multiset(s)[x] <= 1
    ensures Distinct(s)
  {
    forall i, j | 0 <= i < j < |s| ensures s[i] != s[j] {
      assert s == s[..i] + ([s[i]] + s[i + 1..]);
      var rest := s[i + 1..];
      assert rest[j - i - 1] == s[j] && s[j] in multiset(rest);
      assert multiset(s) == multiset(s[..i]) + (multiset{s[i]} + multiset(rest));
      assert multiset(s)[s[i]] >= 1 + multiset(rest)[s[i]];
    }
  }

  /** A reply that is appended fits beside what is buffered, and the buffer is empty when the client closes. */
  predicate CutsNothing(c: Config, q: Queue, ev: Event) {
    match ev
    case Append(ids) => |q.buf| + |ids| <= c.bufferSize
    case Close => q.buf == []
    case _ => true
  }

  predicate NothingCut(c: Config, evs: seq<Event>)
    requires ValidConfig(c)
  {
    evs == [] ||
    (NothingCut(c, evs[..|evs| - 1]) && CutsNothing(c, Steps(c, EMPTY_QUEUE, evs[..|evs| - 1]), evs[|evs| - 1]))
  }

  ghost predicate Whole(q: Queue) { q.handed + q.buf == q.appended }

  ghost predicate Short(q: Queue) { |q.handed| + |q.buf| < |q.appended| }

  lemma StepKeepsWhole(c: Config, q: Queue, ev: Event)
    requires ValidConfig(c)
    ensures Short(q) ==> Short(Step(c, q, ev))
    ensures Whole(q) ==> if CutsNothing(c, q, ev) then Whole(Step(c, q, ev)) else Short(Step(c, q, ev))
  {
    if Whole(q) {
      assert |q.handed + q.buf| == |q.handed| + |q.buf|;
      if ev.Take? && q.buf != [] {
        assert q.handed + [q.buf[0]] + q.buf[1..] == q.handed + q.buf;
      } else if ev.Append? && CutsNothing(c, q, ev) {
        assert q.handed + (q.buf + ev.ids) == q.handed + q.buf + ev.ids;
      }
    }
  }

  /**
   Over every interleaving, the IDs handed out and then those buffered are all the IDs appended exactly
   when nothing was cut off and nothing was dropped on closing; afterwards some are missing for ever.
   */
  lemma {:induction false} NothingCutExact(c: Config, evs: seq<Event>)
    requires ValidConfig(c)
    ensures var q := Steps(c, EMPTY_QUEUE, evs);
            && (q.handed + q.buf == q.appended <==> NothingCut(c, evs))
            && (!NothingCut(c, evs) ==> |q.handed| + |q.buf| < |q.appended|)
  {
    if evs == [] {
      assert Steps(c, EMPTY_QUEUE, []) == EMPTY_QUEUE;
    } else {
      hide Step, CutsNothing;
      var front, ev := evs[..|evs| - 1], evs[|evs| - 1];
      NothingCutExact(c, front);
      StepKeepsWhole(c, Steps(c, EMPTY_QUEUE, front), ev);
      var q := Steps(c, EMPTY_QUEUE, evs);
      assert |q.handed + q.buf| == |q.handed| + |q.buf|;
    }
  }

  /** Three refills that each found the buffer empty: no reply is longer than asked, and IDs are lost. */
  lemma RacingRefillsLoseIds(x: seq<int>, y: seq<int>, z: seq<int>)
    requires var asked := ToFetch(DEFAULT_CONFIG, []); |x| == asked && |y| == asked && |z| == asked
    ensures var q := Steps(DEFAULT_CONFIG, EMPTY_QUEUE, [Append(x), Append(y), Append(z)]);
            q.buf == x + y && q.appended == x + y + z && q.handed + q.buf != q.appended
  {
    var c := DEFAULT_CONFIG;
    StepsSnoc(c, EMPTY_QUEUE, [], Append(x));
    var q1 := Step(c, EMPTY_QUEUE, Append(x));
    assert q1.buf == x && q1.appended == x by { assert [] + x == x; }
    StepsSnoc(c, EMPTY_QUEUE, [] + [Append(x)], Append(y));
    StepsSnoc(c, EMPTY_QUEUE, [] + [Append(x)] + [Append(y)], Append(z));
    assert [] + [Append(x)] + [Append(y)] + [Append(z)] == [Append(x), Append(y), Append(z)];
    assert (x + y + z)[..c.bufferSize] == x + y;
    assert |[] + (x + y)| < |x + y + z|;
  }

  lemma StepsSnoc(c: Config, q: Queue, evs: seq<Event>, ev: Event)
    requires ValidConfig(c)
    ensures Steps(c, q, evs + [ev]) == Step(c, Steps(c, q, evs), ev)
  {
    assert (evs + [ev])[..|evs + [ev]| - 1] == evs;
  }

  // ---------- one caller, no background refill ----------

  /** The server's answer to the k-th request, which asks for a number of IDs. */
  type Server = (nat, int) -> Result<seq<int>, Error>

  /** Its answer to the k-th request if that one asks for a single ID. */
  type SingleServer = nat -> Result<int, Error>

  datatype Stock = Stock(buf: seq<int>, calls: nat, received: seq<int>)

  function Refill(c: Config, server: Server, s: Stock): (Stock, Option<Error>)
    requires ValidConfig(c)
  {
    var n := ToFetch(c, s.buf);
    if n <= 0 then (s, None)
    else
      match server(s.calls, n)
      case Err(e) => (s.(calls := s.calls + 1), Some(e))
      case Ok(ids) => (Stock(Appended(c, s.buf, ids), s.calls + 1, s.received + ids), None)
  }

  /** A refill may ask for `n` IDs: at most a batch, and no more than fit. */
  predicate MayAsk(c: Config, buf: seq<int>, n: int) { 1 <= n <= c.batchFetchSize && |buf| + n <= c.bufferSize }

  /** What the request for `n` IDs makes of the stock. */
  ghost predicate AskedFor(c: Config, server: Server, s: Stock, n: int, s': Stock, failed: Option<Error>) {
    && s'.calls == s.calls + 1
    && match server(s.calls, n)
       case Err(e) => failed == Some(e) && s'.buf == s.buf && s'.received == s.received
       case Ok(ids) =>
         && failed == None && s'.received == s.received + ids
         && s'.buf <= s.buf + ids
         && |s'.buf| == if |s.buf| + |ids| <= c.bufferSize then |s.buf| + |ids| else c.bufferSize
  }

  /**
   A refill makes a request exactly when the buffer has room, and asks for as many IDs as it may. What
   arrives is appended as far as it fits, so an answer no longer than asked is buffered whole.
   */
  lemma RefillExact(c: Config, server: Server, s: Stock)
    requires ValidConfig(c)
    ensures var (s', failed) := Refill(c, server, s);
            if |s.buf| >= c.bufferSize then s' == s && failed == None
            else exists n ::
              && MayAsk(c, s.buf, n) && (forall m :: MayAsk(c, s.buf, m) ==> m <= n)
              && AskedFor(c, server, s, n, s', failed)
              && (server(s.calls, n).Ok? && |server(s.calls, n).value| <= n ==>
                    s'.buf == s.buf + server(s.calls, n).value)
  {
    if |s.buf| < c.bufferSize {
      var n := ToFetch(c, s.buf);
      assert MayAsk(c, s.buf, n) && forall m :: MayAsk(c, s.buf, m) ==> m <= n;
      var (s', failed) := Refill(c, server, s);
      assert AskedFor(c, server, s, n, s', failed);
    }
  }

  /** What a caller that finds the buffer empty asks for, and the answer to request `k` then. */
  function AnswerTo(c: Config, server: Server, k: nat): Result<seq<int>, Error> { server(k, ToFetch(c, [])) }

  /** The answer is an error or brings an ID; after any other the caller asks again. */
  predicate Substantial(c: Config, server: Server, k: nat) {
    AnswerTo(c, server, k).Err? || AnswerTo(c, server, k).value != []
  }

  /** From request `k` on some answer is substantial; otherwise the caller would ask for ever. */
  ghost predicate AnswersFrom(c: Config, server: Server, k: nat) {
    exists j: nat :: j >= k && Substantial(c, server, j)
  }

  /** The next ID when at most `patience` empty answers come first. */
  function NextWithin(c: Config, server: Server, s: Stock, patience: nat): (Stock, Result<int, Error>)
    requires ValidConfig(c)
    decreases patience
  {
    if s.buf != [] then (s.(buf := s.buf[1..]), Ok(s.buf[0]))
    else
      var (s1, failed) := Refill(c, server, s);
      if failed.Some? then (s1, Err(failed.value))
      else if s1.buf != [] then (s1.(buf := s1.buf[1..]), Ok(s1.buf[0]))
      else if patience == 0 then (s1, Err(ConnectionFailed))
      else NextWithin(c, server, s1, patience - 1)
  }

  /** The next substantial answer from `k` on. */
  ghost function NextSubstantial(c: Config, server: Server, k: nat): (j: nat)
    requires AnswersFrom(c, server, k)
    ensures j >= k && Substantial(c, server, j) && forall i: nat :: k <= i < j ==> !Substantial(c, server, i)
  {
    var far: nat :| far >= k && Substantial(c, server, far);
    FirstSubstantial(c, server, k, far)
  }

  ghost function FirstSubstantial(c: Config, server: Server, k: nat, far: nat): (j: nat)
    requires k <= far && Substantial(c, server, far)
    ensures j >= k && Substantial(c, server, j) && forall i: nat :: k <= i < j ==> !Substantial(c, server, i)
    decreases far
  {
    if exists i: nat :: k <= i < far && Substantial(c, server, i) then
      var nearer: nat :| k <= nearer < far && Substantial(c, server, nearer);
      FirstSubstantial(c, server, k, nearer)
    else far
  }

  /** How many empty answers come before it. */
  ghost function PatienceAt(c: Config, server: Server, k: nat): nat {
    if AnswersFrom(c, server, k) then NextSubstantial(c, server, k) - k else 0
  }

  lemma PatienceCountsDown(c: Config, server: Server, k: nat)
    requires AnswersFrom(c, server, k) && !Substantial(c, server, k)
    ensures AnswersFrom(c, server, k + 1)
    ensures PatienceAt(c, server, k) == PatienceAt(c, server, k + 1) + 1
  {
    var p := NextSubstantial(c, server, k);
    assert p >= k + 1 && Substantial(c, server, p);
    var q := NextSubstantial(c, server, k + 1);
    assert !(p < q) && !(q < p);
  }

  ghost function NextFrom(c: Config, server: Server, s: Stock): (Stock, Result<int, Error>)
    requires ValidConfig(c)
  {
    NextWithin(c, server, s, PatienceAt(c, server, s.calls))
  }

  /** Taking the first ID, asking for more when there is none, and again when the answer is empty. */
  lemma NextByCases(c: Config, server: Server, s: Stock)
    requires ValidConfig(c) && (s.buf == [] ==> AnswersFrom(c, server, s.calls))
    ensures s.buf != [] ==> NextFrom(c, server, s) == (s.(buf := s.buf[1..]), Ok(s.buf[0]))
    ensures s.buf == [] ==>
      var (s1, failed) := Refill(c, server, s);
      && NextFrom(c, server, s) == (if failed.Some? then (s1, Err(failed.value)) else NextFrom(c, server, s1))
      && (failed.None? && s1.buf == [] ==>
            AnswersFrom(c, server, s1.calls) && PatienceAt(c, server, s.calls) == PatienceAt(c, server, s1.calls) + 1)
  {
    if s.buf == [] && !Substantial(c, server, s.calls) {
      PatienceCountsDown(c, server, s.calls);
    }
  }

  ghost function NextStep(c: Config, server: Server): Stock -> (Stock, Result<int, Error>)
    requires ValidConfig(c)
  {
    s => NextFrom(c, server, s)
  }

  /** Whenever the loop of a batch finds the buffer empty, it will be answered. */
  ghost predicate Answered(c: Config, server: Server, s: Stock, count: nat)
    requires ValidConfig(c)
  {
    forall i: nat :: i < count ==> AnsweredAt(c, server, s, i)
  }

  ghost predicate AnsweredAt(c: Config, server: Server, s: Stock, i: nat)
    requires ValidConfig(c)
  {
    var (s1, _, failed) := Repeat(NextStep(c, server), s, i);
    failed.None? && s1.buf == [] ==> AnswersFrom(c, server, s1.calls)
  }

  /** `n` calls, the caller going on after errors: the IDs drawn. */
  ghost function Calls(c: Config, server: Server, n: nat): (Stock, seq<int>)
    requires ValidConfig(c)
  {
    if n == 0 then (Stock([], 0, []), [])
    else
      var (s, drawn) := Calls(c, server, n - 1);
      var (s1, r) := NextFrom(c, server, s);
      (s1, if r.Ok? then drawn + [r.value] else drawn)
  }

  /** The answer fits into an empty buffer. */
  predicate FitsBuffer(c: Config, server: Server, k: nat) {
    AnswerTo(c, server, k).Ok? ==> |AnswerTo(c, server, k).value| <= c.bufferSize
  }

  ghost predicate AllFit(c: Config, server: Server, calls: nat) {
    forall k: nat :: k < calls ==> FitsBuffer(c, server, k)
  }

  /** IDs are missing as soon as some answer did not fit, and not before. */
  ghost predicate Kept(c: Config, server: Server, s: Stock, drawn: seq<int>) {
    if AllFit(c, server, s.calls) then drawn + s.buf == s.received else |drawn| + |s.buf| < |s.received|
  }

  lemma RefillKeeps(c: Config, server: Server, s: Stock, drawn: seq<int>)
    requires ValidConfig(c) && Kept(c, server, s, drawn) && s.buf == []
    ensures Kept(c, server, Refill(c, server, s).0, drawn)
  {
    var s1 := Refill(c, server, s).0;
    assert s1.calls == s.calls + 1;
    assert AllFit(c, server, s1.calls) <==> AllFit(c, server, s.calls) && FitsBuffer(c, server, s.calls);
    assert drawn + [] == drawn;
    if AnswerTo(c, server, s.calls).Ok? {
      var ids := AnswerTo(c, server, s.calls).value;
      assert [] + ids == ids;
    }
  }

  lemma {:induction false} NextKeeps(c: Config, server: Server, s: Stock, drawn: seq<int>, patience: nat)
    requires ValidConfig(c) && Kept(c, server, s, drawn)
    ensures var (s', r) := NextWithin(c, server, s, patience);
            Kept(c, server, s', if r.Ok? then drawn + [r.value] else drawn)
    decreases patience
  {
    if s.buf != [] {
      assert drawn + s.buf == drawn + [s.buf[0]] + s.buf[1..];
    } else {
      RefillKeeps(c, server, s, drawn);
      var (s1, failed) := Refill(c, server, s);
      if failed.None? {
        if s1.buf != [] {
          assert drawn + s1.buf == drawn + [s1.buf[0]] + s1.buf[1..];
        } else if patience > 0 {
          NextKeeps(c, server, s1, drawn, patience - 1);
        }
      }
    }
  }

  /**
   With one caller and no background refill, and whatever fails on the way: the IDs drawn and then those
   buffered are all the IDs ever received exactly when no answer was longer than the buffer.
   */
  lemma {:induction false} NothingLostExact(c: Config, server: Server, n: nat)
    requires ValidConfig(c)
    ensures var (s, drawn) := Calls(c, server, n);
            drawn + s.buf == s.received <==> forall k: nat :: k < s.calls ==> FitsBuffer(c, server, k)
  {
    CallsKeep(c, server, n);
    var (s, drawn) := Calls(c, server, n);
    assert |drawn + s.buf| == |drawn| + |s.buf|;
  }

  lemma {:induction false} CallsKeep(c: Config, server: Server, n: nat)
    requires ValidConfig(c)
    ensures Kept(c, server, Calls(c, server, n).0, Calls(c, server, n).1)
  {
    if n > 0 {
      hide NextWithin;
      CallsKeep(c, server, n - 1);
      var (s, drawn) := Calls(c, server, n - 1);
      var p: nat :| NextFrom(c, server, s) == NextWithin(c, server, s, p);
      NextKeeps(c, server, s, drawn, p);
    }
  }

  // ---------- what a client does is a run of the queue ----------

  /** Single calls, batches, background refills, and closing. */
  datatype Op = NextOne | NextMany(count: int) | Background | Shut

  datatype View = View(stock: Stock, closed: bool, drawn: seq<int>, direct: seq<int>)

  const NEW_CLIENT := View(Stock([], 0, []), false, [], [])

  /** An answer that goes straight to the caller. */
  function Pass(v: View, r: Result<seq<int>, Error>): View {
    v.(stock := v.stock.(calls := v.stock.calls + 1), direct := if r.Ok? then v.direct + r.value else v.direct)
  }

  function One(r: Result<int, Error>): Result<seq<int>, Error> { if r.Ok? then Ok([r.value]) else Err(r.error) }

  ghost function Operate(c: Config, server: Server, single: SingleServer, v: View, op: Op): View
    requires ValidConfig(c)
  {
    match op
    case NextOne =>
      if v.closed then v
      else if !c.bufferEnabled then Pass(v, One(single(v.stock.calls)))
      else
        var (s, r) := NextFrom(c, server, v.stock);
        v.(stock := s, drawn := if r.Ok? then v.drawn + [r.value] else v.drawn)
    case NextMany(count) =>
      if !(1 <= count <= 1000) then v
      else if !c.bufferEnabled || count > c.bufferSize then Pass(v, server(v.stock.calls, count))
      else if v.closed then v
      else
        var (s, ids, _) := Repeat(NextStep(c, server), v.stock, count);
        v.(stock := s, drawn := v.drawn + ids)
    case Background => v.(stock := Refill(c, server, v.stock).0)
    case Shut => v.(stock := v.stock.(buf := []), closed := true)
  }

  ghost function OperateAll(c: Config, server: Server, single: SingleServer, ops: seq<Op>): View
    requires ValidConfig(c)
  {
    if ops == [] then NEW_CLIENT
    else Operate(c, server, single, OperateAll(c, server, single, ops[..|ops| - 1]), ops[|ops| - 1])
  }

  /** Some run of the queue has the same IDs in the same places. */
  ghost predicate Mirrors(c: Config, q: Queue, stock: Stock, drawn: seq<int>, direct: seq<int>)
    requires ValidConfig(c)
  {
    && (exists evs :: Steps(c, EMPTY_QUEUE, evs) == q)
    && q.buf == stock.buf && q.handed == drawn && q.direct == direct && q.appended == stock.received
    && multiset(q.fetched) == multiset(q.appended) + multiset(q.direct)
  }

  lemma ReachedByStep(c: Config, q: Queue, ev: Event)
    requires ValidConfig(c) && exists evs :: Steps(c, EMPTY_QUEUE, evs) == q
    ensures exists evs :: Steps(c, EMPTY_QUEUE, evs) == Step(c, q, ev)
  {
    var evs :| Steps(c, EMPTY_QUEUE, evs) == q;
    StepsSnoc(c, EMPTY_QUEUE, evs, ev);
  }

  lemma RefillIsAppend(c: Config, server: Server, q: Queue, s: Stock, drawn: seq<int>, direct: seq<int>)
    returns (q': Queue)
    requires ValidConfig(c) && Mirrors(c, q, s, drawn, direct)
    ensures Mirrors(c, q', Refill(c, server, s).0, drawn, direct)
  {
    var n := ToFetch(c, s.buf);
    if n > 0 && server(s.calls, n).Ok? {
      var ids := server(s.calls, n).value;
      ReachedByStep(c, q, Append(ids));
      q' := Step(c, q, Append(ids));
      assert multiset(q.fetched + ids) == multiset(q.fetched) + multiset(ids);
      assert multiset(q.appended + ids) == multiset(q.appended) + multiset(ids);
    } else {
      q' := q;
    }
  }

  lemma FirstIsTaken(c: Config, q: Queue, s: Stock, drawn: seq<int>, direct: seq<int>) returns (q': Queue)
    requires ValidConfig(c) && Mirrors(c, q, s, drawn, direct) && s.buf != []
    ensures Mirrors(c, q', s.(buf := s.buf[1..]), drawn + [s.buf[0]], direct)
  {
    ReachedByStep(c, q, Take);
    q' := Step(c, q, Take);
  }

  lemma {:induction false} NextIsEvents(c: Config, server: Server, q: Queue, s: Stock, drawn: seq<int>,
                                        direct: seq<int>, patience: nat) returns (q': Queue)
    requires ValidConfig(c) && Mirrors(c, q, s, drawn, direct)
    ensures var (s', r) := NextWithin(c, server, s, patience);
            Mirrors(c, q', s', if r.Ok? then drawn + [r.value] else drawn, direct)
    decreases patience
  {
    hide Mirrors;
    if s.buf != [] {
      q' := FirstIsTaken(c, q, s, drawn, direct);
    } else {
      var (s1, failed) := Refill(c, server, s);
      q' := RefillIsAppend(c, server, q, s, drawn, direct);
      if failed.None? && s1.buf != [] {
        q' := FirstIsTaken(c, q', s1, drawn, direct);
      } else if failed.None? && patience > 0 {
        q' := NextIsEvents(c, server, q', s1, drawn, direct, patience - 1);
      }
    }
  }

  lemma {:induction false} BatchIsEvents(c: Config, server: Server, q: Queue, s: Stock, drawn: seq<int>,
                                         direct: seq<int>, count: nat) returns (q': Queue)
    requires ValidConfig(c) && Mirrors(c, q, s, drawn, direct)
    ensures var (s', ids, _) := Repeat(NextStep(c, server), s, count); Mirrors(c, q', s', drawn + ids, direct)
  {
    hide Mirrors, NextWithin;
    if count == 0 {
      q' := q;
      assert drawn + [] == drawn;
    } else {
      q' := BatchIsEvents(c, server, q, s, drawn, direct, count - 1);
      var (s1, ids, failed) := Repeat(NextStep(c, server), s, count - 1);
      if failed.None? {
        q' := NextFromIsEvents(c, server, q', s1, drawn + ids, direct);
        var r := NextFrom(c, server, s1).1;
        assert r.Ok? ==> drawn + ids + [r.value] == drawn + (ids + [r.value]);
      }
    }
  }

  lemma OperateIsEvents(c: Config, server: Server, single: SingleServer, q: Queue, v: View, op: Op)
    returns (q': Queue)
    requires ValidConfig(c) && Mirrors(c, q, v.stock, v.drawn, v.direct)
    ensures var v' := Operate(c, server, single, v, op); Mirrors(c, q', v'.stock, v'.drawn, v'.direct)
  {
    hide NextFrom, Refill;
    q' := q;
    match op {
      case NextOne =>
        if !v.closed && !c.bufferEnabled {
          q' := DirectIsEvent(c, q, v, One(single(v.stock.calls)));
        } else if !v.closed {
          q' := NextFromIsEvents(c, server, q, v.stock, v.drawn, v.direct);
        }
      case NextMany(count) =>
        if 1 <= count <= 1000 {
          if !c.bufferEnabled || count > c.bufferSize {
            q' := DirectIsEvent(c, q, v, server(v.stock.calls, count));
          } else if !v.closed {
            q' := BatchIsEvents(c, server, q, v.stock, v.drawn, v.direct, count);
          }
        }
      case Background =>
        q' := RefillIsAppend(c, server, q, v.stock, v.drawn, v.direct);
      case Shut =>
        ReachedByStep(c, q, Close);
        q' := Step(c, q, Close);
    }
  }

  lemma NextFromIsEvents(c: Config, server: Server, q: Queue, s: Stock, drawn: seq<int>, direct: seq<int>)
    returns (q': Queue)
    requires ValidConfig(c) && Mirrors(c, q, s, drawn, direct)
    ensures var (s', r) := NextFrom(c, server, s);
            Mirrors(c, q', s', if r.Ok? then drawn + [r.value] else drawn, direct)
  {
    hide Mirrors, NextWithin;
    q' := NextIsEvents(c, server, q, s, drawn, direct, PatienceAt(c, server, s.calls));
  }

  lemma DirectIsEvent(c: Config, q: Queue, v: View, r: Result<seq<int>, Error>) returns (q': Queue)
    requires ValidConfig(c) && Mirrors(c, q, v.stock, v.drawn, v.direct)
    ensures Mirrors(c, q', Pass(v, r).stock, Pass(v, r).drawn, Pass(v, r).direct)
  {
    q' := q;
    if r.Ok? {
      ReachedByStep(c, q, Direct(r.value));
      q' := Step(c, q, Direct(r.value));
      assert multiset(q.fetched + r.value) == multiset(q.fetched) + multiset(r.value);
      assert multiset(q.direct + r.value) == multiset(q.direct) + multiset(r.value);
    }
  }

  lemma {:induction false} ClientMirrors(c: Config, server: Server, single: SingleServer, ops: seq<Op>)
    returns (q: Queue)
    requires ValidConfig(c)
    ensures var v := OperateAll(c, server, single, ops); Mirrors(c, q, v.stock, v.drawn, v.direct)
  {
    if ops == [] {
      q := EMPTY_QUEUE;
      assert Steps(c, EMPTY_QUEUE, []) == q;
    } else {
      hide Mirrors, Operate;
      q := ClientMirrors(c, server, single, ops[..|ops| - 1]);
      q := OperateIsEvents(c, server, single, q, OperateAll(c, server, single, ops[..|ops| - 1]), ops[|ops| - 1]);
    }
  }

  /**
   What a client does, whatever the server answers: its buffer stays within bounds, the IDs drawn and then
   those buffered are read off the answers from left to right, and if the answers never repeat an ID, none
   is returned twice, through the buffer or around it.
   */
  lemma ClientConservation(c: Config, server: Server, single: SingleServer, ops: seq<Op>)
    requires ValidConfig(c)
    ensures var v := OperateAll(c, server, single, ops);
            && |v.stock.buf| <= c.bufferSize
            && Subsequence(v.drawn + v.stock.buf, v.stock.received)
            && (Distinct(v.stock.received + v.direct) ==> Distinct(v.drawn + v.direct))
  {
    var q := ClientMirrors(c, server, single, ops);
    var v := OperateAll(c, server, single, ops);
    var evs :| Steps(c, EMPTY_QUEUE, evs) == q;
    QueueConservation(c, evs);
    hide OperateAll, Steps;
    if Distinct(v.stock.received + v.direct) {
      DistinctCount(v.stock.received + v.direct);
      assert multiset(v.stock.received + v.direct) == multiset(q.fetched);
      CountDistinct(q.fetched);
    }
  }

  // ---------- the client object ----------

  class IdClient {
    const config: Config
    const server: Server                       // replies for Snowflake batches
    const single: SingleServer                 // replies for single Snowflake IDs
    const segmentServer: string -> Server      // replies for segment batches, by tag
    const segmentSingle: string -> SingleServer
    var calls: nat
    var segmentCalls: map<string, nat>
    var closed: bool
    var snowflakeBuf: seq<int>
    var snowflakeRefilling: bool
    var segmentBufs: map<string, seq<int>>
    var segmentRefilling: map<string, bool>
    ghost var received: seq<int>
    ghost var segmentReceived: map<string, seq<int>>

    ghost predicate Valid()
      reads this
    {
      && ValidConfig(config)
      && |snowflakeBuf| <= config.bufferSize
      && (forall t :: t in segmentBufs ==> |segmentBufs[t]| <= config.bufferSize)
    }

    constructor (config: Config, server: Server, single: SingleServer,
                 segmentServer: string -> Server, segmentSingle: string -> SingleServer)
      ensures Valid() && this.config == Normalize(config)
      ensures this.server == server && this.single == single
      ensures this.segmentServer == segmentServer && this.segmentSingle == segmentSingle
      ensures !closed && Snowflakes() == Stock([], 0, []) && forall t :: Segments(t) == Stock([], 0, [])
    {
      this.config, this.server, this.single := Normalize(config), server, single;
      this.segmentServer, this.segmentSingle := segmentServer, segmentSingle;
      calls, segmentCalls, closed := 0, map[], false;
      snowflakeBuf, snowflakeRefilling, segmentBufs, segmentRefilling := [], false, map[], map[];
      received, segmentReceived := [], map[];
    }

    ghost function Snowflakes(): Stock
      reads this
    {
      Stock(snowflakeBuf, calls, received)
    }

    function Get<V>(m: map<string, V>, tag: string, zero: V): V { if tag in m then m[tag] else zero }

    ghost function Segments(tag: string): Stock
      reads this
    {
      Stock(Get(segmentBufs, tag, []), Get(segmentCalls, tag, 0), Get(segmentReceived, tag, []))
    }

    method RefillSnowflakeBuffer() returns (failed: Option<Error>)
      requires Valid()
      modifies this
      ensures Valid() && (Snowflakes(), failed) == Refill(config, server, old(Snowflakes()))
      ensures closed == old(closed) && snowflakeRefilling == old(snowflakeRefilling)
      ensures segmentRefilling == old(segmentRefilling) && forall t :: Segments(t) == old(Segments(t))
    {
      var toFetch := config.bufferSize - |snowflakeBuf|;
      if toFetch <= 0 {
        return None;
      }
      if toFetch > config.batchFetchSize {
        toFetch := config.batchFetchSize;
      }
      var reply := server(calls, toFetch);
      calls := calls + 1;
      if reply.Err? {
        return Some(reply.error);
      }
      received := received + reply.value;
      snowflakeBuf := snowflakeBuf + reply.value;
      if |snowflakeBuf| > config.bufferSize {
        snowflakeBuf := snowflakeBuf[..config.bufferSize];
      }
      return None;
    }

    /** True if the caller has to start a background refill; at most one is under way at a time. */
    method TriggerSnowflakeRefill() returns (launch: bool)
      requires Valid()
      modifies this`snowflakeRefilling
      ensures Valid() && launch == (config.asyncRefill && !old(snowflakeRefilling))
      ensures snowflakeRefilling == (old(snowflakeRefilling) || launch)
    {
      launch := config.asyncRefill && !snowflakeRefilling;
      if launch {
        snowflakeRefilling := true;
      }
    }

    method BackgroundRefill()
      requires Valid()
      modifies this
      ensures Valid() && Snowflakes() == Refill(config, server, old(Snowflakes())).0 && !snowflakeRefilling
      ensures closed == old(closed) && segmentRefilling == old(segmentRefilling)
      ensures forall t :: Segments(t) == old(Segments(t))
    {
      var _ := RefillSnowflakeBuffer();
      snowflakeRefilling := false;
    }

    method NextSnowflakeID() returns (r: Result<int, Error>, launch: bool)
      requires Valid()
      requires !closed && config.bufferEnabled && snowflakeBuf == [] ==> AnswersFrom(config, server, calls)
      modifies this
      ensures Valid() && closed == old(closed)
      ensures closed ==> r == Err(ClientClosed) && Snowflakes() == old(Snowflakes())
      ensures !closed && config.bufferEnabled ==> (Snowflakes(), r) == NextFrom(config, server, old(Snowflakes()))
      ensures !closed && !config.bufferEnabled ==>
        r == single(old(calls)) && Snowflakes() == old(Snowflakes()).(calls := old(calls) + 1)
      ensures launch <==> r.Ok? && config.bufferEnabled && config.asyncRefill && !old(snowflakeRefilling) &&
                          |snowflakeBuf| < config.refillThreshold
      ensures snowflakeRefilling == (old(snowflakeRefilling) || launch)
      ensures segmentRefilling == old(segmentRefilling) && forall t :: Segments(t) == old(Segments(t))
      decreases |snowflakeBuf| == 0, PatienceAt(config, server, calls)
    {
      launch := false;
      if closed {
        return Err(ClientClosed), false;
      }
      if !config.bufferEnabled {
        r := single(calls);
        calls := calls + 1;
        return;
      }
      NextByCases(config, server, Snowflakes());
      hide NextFrom, AnswersFrom;
      if |snowflakeBuf| > 0 {
        r := Ok(snowflakeBuf[0]);
        snowflakeBuf := snowflakeBuf[1..];
        if |snowflakeBuf| < config.refillThreshold {
          launch := TriggerSnowflakeRefill();
        }
        return;
      }
      var failed := RefillSnowflakeBuffer();
      if failed.Some? {
        return Err(failed.value), false;
      }
      r, launch := NextSnowflakeID();
    }

    method RefillSegmentBuffer(tag: string) returns (failed: Option<Error>)
      requires Valid()
      modifies this
      ensures Valid() && (Segments(tag), failed) == Refill(config, segmentServer(tag), old(Segments(tag)))
      ensures closed == old(closed) && Snowflakes() == old(Snowflakes())
      ensures segmentRefilling == old(segmentRefilling) && snowflakeRefilling == old(snowflakeRefilling)
      ensures forall t :: t != tag ==> Segments(t) == old(Segments(t))
    {
      hide Appended;
      var buf := Get(segmentBufs, tag, []);
      var toFetch := config.bufferSize - |buf|;
      if toFetch <= 0 {
        return None;
      }
      if toFetch > config.batchFetchSize {
        toFetch := config.batchFetchSize;
      }
      var k := Get(segmentCalls, tag, 0);
      var reply := segmentServer(tag)(k, toFetch);
      segmentCalls := segmentCalls[tag := k + 1];
      if reply.Err? {
        return Some(reply.error);
      }
      AppendToSegment(tag, reply.value);
      return None;
    }

    method AppendToSegment(tag: string, ids: seq<int>)
      requires Valid()
      modifies this`segmentBufs, this`segmentReceived
      ensures Valid()
      ensures var s := old(Segments(tag));
              Segments(tag) == Stock(Appended(config, s.buf, ids), s.calls, s.received + ids)
      ensures forall t :: t != tag ==> Segments(t) == old(Segments(t))
    {
      var all := Get(segmentBufs, tag, []) + ids;
      if |all| > config.bufferSize {
        all := all[..config.bufferSize];
      }
      segmentReceived := segmentReceived[tag := Get(segmentReceived, tag, []) + ids];
      segmentBufs := segmentBufs[tag := all];
    }

    method BackgroundSegmentRefill(tag: string)
      requires Valid()
      modifies this
      ensures Valid() && Segments(tag) == Refill(config, segmentServer(tag), old(Segments(tag))).0
      ensures segmentRefilling == old(segmentRefilling)[tag := false]
      ensures closed == old(closed) && Snowflakes() == old(Snowflakes())
      ensures snowflakeRefilling == old(snowflakeRefilling)
      ensures forall t :: t != tag ==> Segments(t) == old(Segments(t))
    {
      hide Refill;
      var _ := RefillSegmentBuffer(tag);
      segmentRefilling := segmentRefilling[tag := false];
    }

    method NextSegmentID(tag: string) returns (r: Result<int, Error>, launch: bool)
      requires Valid()
      requires !closed && config.bufferEnabled && Segments(tag).buf == [] ==>
        AnswersFrom(config, segmentServer(tag), Segments(tag).calls)
      modifies this
      ensures Valid() && closed == old(closed)
      ensures closed ==> r == Err(ClientClosed) && Segments(tag) == old(Segments(tag))
      ensures !closed && config.bufferEnabled ==>
        (Segments(tag), r) == NextFrom(config, segmentServer(tag), old(Segments(tag)))
      ensures !closed && !config.bufferEnabled ==>
        r == segmentSingle(tag)(old(Segments(tag)).calls) &&
        Segments(tag) == old(Segments(tag)).(calls := old(Segments(tag)).calls + 1)
      ensures launch <==> r.Ok? && config.bufferEnabled && config.asyncRefill &&
                          !Get(old(segmentRefilling), tag, false) && |Segments(tag).buf| < config.refillThreshold
      ensures segmentRefilling == if launch then old(segmentRefilling)[tag := true] else old(segmentRefilling)
      ensures forall t :: t != tag ==> Segments(t) == old(Segments(t))
      ensures Snowflakes() == old(Snowflakes()) && snowflakeRefilling == old(snowflakeRefilling)
      decreases |Get(segmentBufs, tag, [])| == 0, PatienceAt(config, segmentServer(tag), Get(segmentCalls, tag, 0))
    {
      launch := false;
      if closed {
        return Err(ClientClosed), false;
      }
      if !config.bufferEnabled {
        var k := Get(segmentCalls, tag, 0);
        segmentCalls := segmentCalls[tag := k + 1];
        return segmentSingle(tag)(k), false;
      }
      NextByCases(config, segmentServer(tag), Segments(tag));
      hide NextFrom, AnswersFrom;
      var buf := Get(segmentBufs, tag, []);
      if |buf| > 0 {
        segmentBufs := segmentBufs[tag := buf[1..]];
        if |buf| - 1 < config.refillThreshold {
          launch := config.asyncRefill && !Get(segmentRefilling, tag, false);
          if launch {
            segmentRefilling := segmentRefilling[tag := true];
          }
        }
        return Ok(buf[0]), launch;
      }
      var failed := RefillSegmentBuffer(tag);
      if failed.Some? {
        return Err(failed.value), false;
      }
      r, launch := NextSegmentID(tag);
    }

    /** A batch that fits the buffer is taken from it one by one; any other is fetched directly, even when closed. */
    method NextSnowflakeIDs(count: int) returns (r: Result<seq<int>, Error>, launch: bool)
      requires Valid()
      requires !closed && config.bufferEnabled && 1 <= count <= 1000 && count <= config.bufferSize ==>
        Answered(config, server, Snowflakes(), count)
      modifies this
      ensures Valid() && closed == old(closed)
      ensures !(1 <= count <= 1000) ==> r == Err(InvalidArgument) && Snowflakes() == old(Snowflakes())
      ensures 1 <= count <= 1000 && (!config.bufferEnabled || count > config.bufferSize) ==>
        r == server(old(calls), count) && Snowflakes() == old(Snowflakes()).(calls := old(calls) + 1)
      ensures 1 <= count <= 1000 && config.bufferEnabled && count <= config.bufferSize ==>
        if closed then r == Err(ClientClosed) && Snowflakes() == old(Snowflakes())
        else
          var (s, ids, failed) := Repeat(NextStep(config, server), old(Snowflakes()), count);
          Snowflakes() == s && r == if failed.Some? then Err(failed.value) else Ok(ids)
      ensures launch ==> config.asyncRefill && !old(snowflakeRefilling)
      ensures snowflakeRefilling == (old(snowflakeRefilling) || launch)
      ensures segmentRefilling == old(segmentRefilling) && forall t :: Segments(t) == old(Segments(t))
    {
      launch := false;
      if count < 1 || count > 1000 {
        return Err(InvalidArgument), false;
      }
      if !config.bufferEnabled || count > config.bufferSize {
        r := server(calls, count);
        calls := calls + 1;
        return;
      }
      hide NextStep;
      r, launch := TakeOneByOne(count);
    }

    /** The loop of a batch: single calls, up to the first error. */
    method TakeOneByOne(count: nat) returns (r: Result<seq<int>, Error>, launch: bool)
      requires Valid() && config.bufferEnabled && count > 0
      requires !closed ==> Answered(config, server, Snowflakes(), count)
      modifies this
      ensures Valid() && closed == old(closed)
      ensures if closed then r == Err(ClientClosed) && Snowflakes() == old(Snowflakes())
              else
                var (s, ids, failed) := Repeat(NextStep(config, server), old(Snowflakes()), count);
                Snowflakes() == s && r == if failed.Some? then Err(failed.value) else Ok(ids)
      ensures launch ==> config.asyncRefill && !old(snowflakeRefilling)
      ensures snowflakeRefilling == (old(snowflakeRefilling) || launch)
      ensures segmentRefilling == old(segmentRefilling) && forall t :: Segments(t) == old(Segments(t))
    {
      hide NextFrom, AnswersFrom, ValidConfig;
      launch := false;
      ghost var step, start := NextStep(config, server), Snowflakes();
      var ids := [];
      while |ids| < count
        invariant Valid() && closed == old(closed) && |ids| <= count
        invariant closed ==> Snowflakes() == start && ids == []
        invariant !closed ==> (Snowflakes(), ids, None) == Repeat(step, start, |ids|)
        invariant launch ==> config.asyncRefill && !old(snowflakeRefilling)
        invariant snowflakeRefilling == (old(snowflakeRefilling) || launch)
        invariant segmentRefilling == old(segmentRefilling) && forall t :: Segments(t) == old(Segments(t))
        decreases count - |ids|
      {
        ghost var before, i := Snowflakes(), |ids|;
        assert !closed ==> AnsweredAt(config, server, start, i);
        var one, launched := NextSnowflakeID();
        launch := launch || launched;
        assert !closed ==> (Snowflakes(), one) == step(before);
        if one.Err? {
          if !closed {
            FailureEndsRun(step, start, i + 1, count);
          }
          return Err(one.error), launch;
        }
        ids := ids + [one.value];
      }
      return Ok(ids), launch;
    }

    method CloseClient()
      requires Valid()
      modifies this
      ensures Valid() && closed && segmentRefilling == map[]
      ensures Snowflakes() == old(Snowflakes()).(buf := []) && snowflakeRefilling == old(snowflakeRefilling)
      ensures forall t :: Segments(t) == old(Segments(t)).(buf := [])
    {
      closed := true;
      snowflakeBuf := [];
      segmentBufs := map[];
      segmentRefilling := map[];
    }
  }
}
