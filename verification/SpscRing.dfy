/**
 The lock-free single-producer/single-consumer ring. A push or pop is four atomic steps of
 its thread: a relaxed load of the thread's own index, an acquire load of the other index,
 the access to the slot, and a release store of the own index. Any interleaving of the two
 threads is a schedule of such steps.

 An atomic index is modelled by its modification order, the sequence of values stored to it
 (ISO/IEC 9899:2011, section 5.1.2.4). An acquire load may return any entry of that order
 that is not older than the one the thread read last, so loads may be stale but respect
 read-read coherence. A thread's load of the index only it writes returns its last store.
 A slot is read as last written; SpscMemory proves that weaker slot reads add no behaviour.
 */
module SpscRing {
  import opened Words

  const R: nat := 8

  /** The next value of a wrapping index. */
  function Succ(index: Word): Word { (index + 1) % TWO_32 }

  /** The wrapping difference to - from. */
  function Distance(from: Word, to: Word): Word { (to + TWO_32 - from) % TWO_32 }

  datatype Producer =
    | PIdle
    | PLoaded(value: int, tail: Word)               // own index loaded
    | PReady(value: int, tail: Word)                // room seen, slot write pending
    | PWritten(value: int, tail: Word)              // slot written, release store pending

  datatype Consumer =
    | CIdle
    | CLoaded(head: Word)
    | CReady(head: Word)
    | CRead(value: int, head: Word)

  datatype State = State(
    buf: seq<int>,
    heads: seq<Word>,                               // modification order of head
    tails: seq<Word>,                               // modification order of tail
    producer: Producer,
    consumer: Consumer,
    seenHead: nat,                                  // producer's last acquired entry of heads
    seenTail: nat,                                  // consumer's last acquired entry of tails
    // history
    pushed: seq<int>,                               // values of successful pushes
    popped: seq<int>,                               // values of successful pops
    pushAcquired: seq<nat>,                         // entry of heads acquired by push i
    popAcquired: seq<nat>                           // entry of tails acquired by pop i
  ) {
    ghost predicate WellFormed() {
      |buf| == 8 && |heads| > 0 && |tails| > 0
    }
  }

  datatype Step =
    | PushLoadTail(value: int)
    | PushLoadHead(entry: nat)
    | PushWriteSlot
    | PushStoreTail
    | PopLoadHead
    | PopLoadTail(entry: nat)
    | PopReadSlot
    | PopStoreHead

  ghost predicate Enabled(s: State, step: Step) {
    match step
    case PushLoadTail(_) => s.producer.PIdle?
    case PushLoadHead(e) => s.producer.PLoaded? && s.seenHead <= e < |s.heads|
    case PushWriteSlot => s.producer.PReady?
    case PushStoreTail => s.producer.PWritten?
    case PopLoadHead => s.consumer.CIdle?
    case PopLoadTail(e) => s.consumer.CLoaded? && s.seenTail <= e < |s.tails|
    case PopReadSlot => s.consumer.CReady?
    case PopStoreHead => s.consumer.CRead?
  }

  /** The effect of one atomic step. */
  ghost function Apply(s: State, step: Step): (s': State)
    requires s.WellFormed() && Enabled(s, step)
    ensures s'.WellFormed()
  {
    match step
    case PushLoadTail(value) =>
      s.(producer := PLoaded(value, s.tails[|s.tails| - 1]))
    case PushLoadHead(e) =>
      var p := s.producer;
      s.(seenHead := e,
         producer := if Distance(s.heads[e], p.tail) == R then PIdle else PReady(p.value, p.tail))
    case PushWriteSlot =>
      var p := s.producer;
      s.(buf := s.buf[p.tail % R := p.value], producer := PWritten(p.value, p.tail))
    case PushStoreTail =>
      var p := s.producer;
      s.(tails := s.tails + [Succ(p.tail)], producer := PIdle,
         pushed := s.pushed + [p.value], pushAcquired := s.pushAcquired + [s.seenHead])
    case PopLoadHead =>
      s.(consumer := CLoaded(s.heads[|s.heads| - 1]))
    case PopLoadTail(e) =>
      var c := s.consumer;
      s.(seenTail := e,
         consumer := if s.tails[e] == c.head then CIdle else CReady(c.head))
    case PopReadSlot =>
      var c := s.consumer;
      s.(consumer := CRead(s.buf[c.head % R], c.head))
    case PopStoreHead =>
      var c := s.consumer;
      s.(heads := s.heads + [Succ(c.head)], consumer := CIdle,
         popped := s.popped + [c.value], popAcquired := s.popAcquired + [s.seenTail])
  }

  /** An empty ring whose two indices start at the same arbitrary value. */
  ghost function Start(buf: seq<int>, base: Word): State {
    State(buf, [base], [base], PIdle, CIdle, 0, 0, [], [], [], [])
  }

  /** A step its thread is not ready for is skipped. */
  ghost function Next(s: State, step: Step): (s': State)
    requires s.WellFormed()
    ensures s'.WellFormed()
  {
    if Enabled(s, step) then Apply(s, step) else s
  }

  /** The state after a schedule of atomic steps. */
  ghost function Run(s: State, schedule: seq<Step>): (s': State)
    requires s.WellFormed()
    ensures s'.WellFormed()
  {
    if schedule == [] then s
    else Next(Run(s, schedule[..|schedule| - 1]), schedule[|schedule| - 1])
  }

  /** Some schedule leads from an empty ring based at `base` to s. */
  ghost predicate Reachable(base: Word, s: State) {
    exists buf: seq<int>, schedule: seq<Step> ::
      |buf| == 8 && s == Run(Start(buf, base), schedule)
  }

  // ---------- the inductive invariant ----------

  function Index(base: Word, i: nat): Word { (base + i) % TWO_32 }

  ghost predicate Indices(base: Word, s: State) {
    && |s.heads| == |s.popped| + 1
    && |s.tails| == |s.pushed| + 1
    && (forall i | 0 <= i < |s.heads| :: s.heads[i] == Index(base, i))
    && (forall i | 0 <= i < |s.tails| :: s.tails[i] == Index(base, i))
    && (s.producer != PIdle ==> s.producer.tail == Index(base, |s.pushed|))
    && (s.consumer != CIdle ==> s.consumer.head == Index(base, |s.popped|))
  }

  ghost predicate Windows(s: State) {
    && s.seenHead <= |s.popped| <= s.seenTail <= |s.pushed| <= s.seenHead + 8
    && (s.producer.PReady? || s.producer.PWritten? ==> |s.pushed| < s.seenHead + 8)
    && (s.consumer.CReady? || s.consumer.CRead? ==> |s.popped| < s.seenTail)
  }

  ghost predicate Contents(base: Word, s: State)
    requires |s.buf| == 8 && |s.popped| <= |s.pushed|
  {
    && (forall i | 0 <= i < |s.popped| :: s.popped[i] == s.pushed[i])
    && (forall i | |s.popped| <= i < |s.pushed| :: s.buf[Index(base, i) % 8] == s.pushed[i])
    && (s.producer.PWritten? ==> s.buf[Index(base, |s.pushed|) % 8] == s.producer.value)
    && (s.consumer.CRead? ==> |s.popped| < |s.pushed| && s.consumer.value == s.pushed[|s.popped|])
  }

  ghost predicate Acquisitions(s: State) {
    && |s.pushAcquired| == |s.pushed|
    && |s.popAcquired| == |s.popped|
    && (forall i | 0 <= i < |s.pushed| :: i < s.pushAcquired[i] + 8)
    && (forall i | 0 <= i < |s.popped| :: i < s.popAcquired[i])
  }

  ghost predicate Inv(base: Word, s: State) {
    s.WellFormed() && Indices(base, s) && Windows(s) && Contents(base, s) && Acquisitions(s)
  }

  /** The slot of an index does not notice the wrap, since 8 divides 2^32. */
  lemma SlotOf(base: Word, i: nat)
    ensures Index(base, i) % 8 == (base + i) % 8
  {
    var q, r := DivMod(base + i, TWO_32);
    var a, b := DivMod(r, 8);
    assert base + i == 8 * (0x2000_0000 * q + a) + b;
    QuotientUnique(base + i, 8, 0x2000_0000 * q + a, b);
  }

  /** Indices fall into one slot exactly when a multiple of 8 lies between them. */
  lemma SameSlot(base: Word, i: nat, j: nat)
    requires i <= j
    ensures Index(base, i) % 8 == Index(base, j) % 8 <==> (j - i) % 8 == 0
  {
    SlotOf(base, i);
    SlotOf(base, j);
    ModOfDistance(base + i, j - i, 8);
  }

  lemma SlotReusedLater(base: Word, i: nat, j: nat)
    ensures i < j && Index(base, i) % 8 == Index(base, j) % 8 ==> i + 8 <= j
  {
    if i < j { SameSlot(base, i, j); }
  }

  lemma SuccIsIndex(base: Word, j: nat)
    ensures Succ(Index(base, j)) == Index(base, j + 1)
  {
    ModOfNext(base + j, TWO_32);
  }

  /** Indices at most 8 apart are compared correctly by the wrapping subtraction. */
  lemma DistanceIsCount(base: Word, i: nat, j: nat)
    requires i <= j <= i + 8
    ensures Distance(Index(base, i), Index(base, j)) == j - i
    ensures Index(base, i) == Index(base, j) <==> i == j
    ensures Succ(Index(base, j)) == Index(base, j + 1)
  {
    var q, r := DivMod(base + i, TWO_32);
    if r + (j - i) < TWO_32 {
      QuotientUnique(base + j, TWO_32, q, r + (j - i));
    } else {
      QuotientUnique(base + j, TWO_32, q + 1, r + (j - i) - TWO_32);
    }
    SuccIsIndex(base, j);
    var difference := Index(base, j) - Index(base, i);
    QuotientUnique(TWO_32 + difference, TWO_32, if difference < 0 then 0 else 1, j - i);
  }

  lemma LoadKeepsInv(base: Word, s: State, step: Step)
    requires step.PushLoadTail? || step.PushLoadHead? || step.PopLoadHead? || step.PopLoadTail?
    requires Inv(base, s) && Enabled(s, step)
    ensures Inv(base, Apply(s, step))
  {
    if step.PushLoadHead? { DistanceIsCount(base, step.entry, |s.pushed|); }
    if step.PopLoadTail? { DistanceIsCount(base, |s.popped|, step.entry); }
  }

  lemma PushWriteKeepsInv(base: Word, s: State)
    requires Inv(base, s) && Enabled(s, PushWriteSlot)
    ensures Inv(base, Apply(s, PushWriteSlot))
  {
    forall i | |s.popped| <= i < |s.pushed|
      ensures Index(base, i) % 8 != Index(base, |s.pushed|) % 8
    {
      SlotReusedLater(base, i, |s.pushed|);
    }
  }

  lemma PopReadKeepsInv(base: Word, s: State)
    requires Inv(base, s) && Enabled(s, PopReadSlot)
    ensures Inv(base, Apply(s, PopReadSlot))
  {
  }

  lemma PushStoreKeepsInv(base: Word, s: State)
    requires Inv(base, s) && Enabled(s, PushStoreTail)
    ensures Inv(base, Apply(s, PushStoreTail))
  {
    SuccIsIndex(base, |s.pushed|);
  }

  lemma PopStoreKeepsInv(base: Word, s: State)
    requires Inv(base, s) && Enabled(s, PopStoreHead)
    ensures Inv(base, Apply(s, PopStoreHead))
  {
    SuccIsIndex(base, |s.popped|);
  }

  lemma NextKeepsInv(base: Word, s: State, step: Step)
    requires Inv(base, s)
    ensures Inv(base, Next(s, step))
  {
    if Enabled(s, step) {
      match step
      case PushWriteSlot => PushWriteKeepsInv(base, s);
      case PopReadSlot => PopReadKeepsInv(base, s);
      case PushStoreTail => PushStoreKeepsInv(base, s);
      case PopStoreHead => PopStoreKeepsInv(base, s);
      case _ => LoadKeepsInv(base, s, step);
    }
  }

  lemma {:induction false} RunKeepsInv(buf: seq<int>, base: Word, schedule: seq<Step>)
    requires |buf| == 8
    ensures Inv(base, Run(Start(buf, base), schedule))
  {
    if schedule != [] {
      var last := |schedule| - 1;
      RunKeepsInv(buf, base, schedule[..last]);
      NextKeepsInv(base, Run(Start(buf, base), schedule[..last]), schedule[last]);
    }
  }

  lemma ReachableInv(base: Word, s: State)
    requires Reachable(base, s)
    ensures Inv(base, s)
  {
    var buf: seq<int>, schedule: seq<Step> :| |buf| == 8 && s == Run(Start(buf, base), schedule);
    RunKeepsInv(buf, base, schedule);
  }

  // ---------- what holds in every run ----------

  /** FIFO: what was popped is what was pushed, in order; at most 8 values are in flight. */
  lemma Fifo(base: Word, s: State)
    requires Reachable(base, s)
    ensures s.popped <= s.pushed
    ensures 0 <= |s.pushed| - |s.popped| <= 8
    ensures |s.tails| == |s.pushed| + 1 && s.tails[|s.pushed|] == Index(base, |s.pushed|)
    ensures |s.heads| == |s.popped| + 1 && s.heads[|s.popped|] == Index(base, |s.popped|)
  {
    ReachableInv(base, s);
  }

  /** From one thread's check to its store the other thread is never between those on the same slot. */
  lemma SlotExclusive(base: Word, s: State)
    requires Reachable(base, s)
    requires s.producer.PReady? || s.producer.PWritten?
    requires s.consumer.CReady? || s.consumer.CRead?
    ensures s.producer.tail % 8 != s.consumer.head % 8
  {
    ReachableInv(base, s);
    SlotReusedLater(base, |s.popped|, |s.pushed|);
  }

  /** The entry of heads acquired before each slot write, one that is not yet released included. */
  ghost function WriteAcquired(s: State): seq<nat> {
    s.pushAcquired + if s.producer.PReady? || s.producer.PWritten? then [s.seenHead] else []
  }

  /** The entry of tails acquired before each slot read, one that is not yet released included. */
  ghost function ReadAcquired(s: State): seq<nat> {
    s.popAcquired + if s.consumer.CReady? || s.consumer.CRead? then [s.seenTail] else []
  }

  /** Each write acquired all but the last 8 reads before it, each read the write of its value. */
  lemma AcquiredInTime(base: Word, s: State)
    requires Inv(base, s)
    ensures forall p | 0 <= p < |WriteAcquired(s)| :: p < WriteAcquired(s)[p] + 8
    ensures forall c | 0 <= c < |ReadAcquired(s)| :: c < ReadAcquired(s)[c]
    ensures |WriteAcquired(s)| <= |s.popped| + 8 && |ReadAcquired(s)| <= |s.pushed|
  {
  }

  /**
   No data race: write p and read c of the same slot, made or about to be made, are ordered
   by happens-before. Either the pop acquired a tail stored after the write (an entry past
   p), or the push acquired a head stored after the read (an entry past c).
   */
  lemma RaceFree(base: Word, s: State, p: nat, c: nat)
    requires Reachable(base, s)
    requires p < |WriteAcquired(s)| && c < |ReadAcquired(s)|
    requires Index(base, p) % 8 == Index(base, c) % 8
    ensures |s.pushAcquired| == |s.pushed| && |s.popAcquired| == |s.popped|
    ensures p <= c ==> p < ReadAcquired(s)[c]
    ensures c < p ==> c < WriteAcquired(s)[p]
  {
    ReachableInv(base, s);
    AcquiredInTime(base, s);
    SlotReusedLater(base, c, p);
  }

  /** A push gives up exactly when 8 values were in flight at the head it acquired. */
  lemma PushFailsExactlyWhenFull(base: Word, s: State, entry: nat)
    requires Reachable(base, s)
    requires Enabled(s, PushLoadHead(entry))
    ensures Apply(s, PushLoadHead(entry)).producer.PIdle? <==> |s.pushed| == entry + 8
  {
    ReachableInv(base, s);
    DistanceIsCount(base, entry, |s.pushed|);
  }

  /** A pop gives up exactly when all values pushed by the tail it acquired were popped. */
  lemma PopFailsExactlyWhenEmpty(base: Word, s: State, entry: nat)
    requires Reachable(base, s)
    requires Enabled(s, PopLoadTail(entry))
    ensures Apply(s, PopLoadTail(entry)).consumer.CIdle? <==> entry == |s.popped|
  {
    ReachableInv(base, s);
    DistanceIsCount(base, |s.popped|, entry);
  }

  // ---------- the two processes ----------

  /** The producer process: it tries to push the number of values pushed so far. */
  ghost predicate Counting(s: State, schedule: seq<Step>)
    requires s.WellFormed()
  {
    forall k | 0 <= k < |schedule| && schedule[k].PushLoadTail? ::
      var t := Run(s, schedule[..k]);
      Enabled(t, schedule[k]) ==> schedule[k].value == |t.pushed|
  }

  ghost predicate CountsUp(s: State) {
    && (forall i | 0 <= i < |s.pushed| :: s.pushed[i] == i)
    && (s.producer != PIdle ==> s.producer.value == |s.pushed|)
  }

  lemma {:induction false} CountingCountsUp(buf: seq<int>, base: Word, schedule: seq<Step>)
    requires |buf| == 8 && Counting(Start(buf, base), schedule)
    ensures CountsUp(Run(Start(buf, base), schedule))
  {
    if schedule != [] {
      var last := |schedule| - 1;
      forall k | 0 <= k < last ensures schedule[..last][..k] == schedule[..k] {}
      CountingCountsUp(buf, base, schedule[..last]);
    }
  }

  /** The consumer's assertion: the k-th value it pops is k, under every interleaving. */
  lemma ConsumerSeesExpected(buf: seq<int>, base: Word, schedule: seq<Step>, k: nat)
    requires |buf| == 8 && Counting(Start(buf, base), schedule)
    requires k < |Run(Start(buf, base), schedule).popped|
    ensures Run(Start(buf, base), schedule).popped[k] == k
  {
    CountingCountsUp(buf, base, schedule);
    RunKeepsInv(buf, base, schedule);
  }

  // ---------- the ring in memory ----------

  lemma RunOneMore(s: State, schedule: seq<Step>, step: Step)
    requires s.WellFormed()
    ensures Run(s, schedule + [step]) == Next(Run(s, schedule), step)
  {
    assert (schedule + [step])[..|schedule|] == schedule;
  }

  lemma RunFourMore(s: State, schedule: seq<Step>, a: Step, b: Step, c: Step, d: Step)
    requires s.WellFormed()
    ensures Run(s, schedule + [a] + [b] + [c] + [d]) == Next(Next(Next(Next(Run(s, schedule), a), b), c), d)
  {
    RunOneMore(s, schedule, a);
    RunOneMore(s, schedule + [a], b);
    RunOneMore(s, schedule + [a] + [b], c);
    RunOneMore(s, schedule + [a] + [b] + [c], d);
  }

  /** The four steps of a push that sees no pop. */
  ghost function ThenPush(past: seq<Step>, value: int): seq<Step> {
    past + [PushLoadTail(value)] + [PushLoadHead(0)] + [PushWriteSlot] + [PushStoreTail]
  }

  ghost function PushAll(values: seq<int>): seq<Step> {
    if values == [] then [] else ThenPush(PushAll(values[..|values| - 1]), values[|values| - 1])
  }

  ghost predicate OnlyPushed(s: State, values: seq<int>) {
    s.producer.PIdle? && s.seenHead == 0 && |s.heads| == 1 && s.pushed == values
  }

  lemma OneMorePush(base: Word, s: State, value: int)
    requires Inv(base, s) && OnlyPushed(s, s.pushed)
    ensures OnlyPushed(
      Next(Next(Next(Next(s, PushLoadTail(value)), PushLoadHead(0)), PushWriteSlot), PushStoreTail),
      if |s.pushed| < 8 then s.pushed + [value] else s.pushed)
  {
    DistanceIsCount(base, 0, |s.pushed|);
  }

  lemma PushInRun(buf: seq<int>, base: Word, past: seq<Step>, held: seq<int>, value: int)
    requires |buf| == 8 && OnlyPushed(Run(Start(buf, base), past), held)
    ensures OnlyPushed(Run(Start(buf, base), ThenPush(past, value)), if |held| < 8 then held + [value] else held)
  {
    RunKeepsInv(buf, base, past);
    OneMorePush(base, Run(Start(buf, base), past), value);
    RunFourMore(Start(buf, base), past, PushLoadTail(value), PushLoadHead(0), PushWriteSlot, PushStoreTail);
  }

  /** Without a pop the first eight pushes are accepted and every later one is refused. */
  lemma {:induction false} HoldsEight(buf: seq<int>, base: Word, values: seq<int>)
    requires |buf| == 8
    ensures OnlyPushed(Run(Start(buf, base), PushAll(values)), if |values| <= 8 then values else values[..8])
  {
    if values != [] {
      var past, value := values[..|values| - 1], values[|values| - 1];
      var held := if |past| <= 8 then past else past[..8];
      HoldsEight(buf, base, past);
      PushInRun(buf, base, PushAll(past), held, value);
      assert |past| < 8 ==> past + [value] == values;
      assert |past| >= 8 ==> held == values[..8];
    }
  }

  predicate OfProducer(step: Step) {
    step.PushLoadTail? || step.PushLoadHead? || step.PushWriteSlot? || step.PushStoreTail?
  }

  predicate AllOfProducer(steps: seq<Step>) { forall i | 0 <= i < |steps| :: OfProducer(steps[i]) }

  predicate AllOfConsumer(steps: seq<Step>) { forall i | 0 <= i < |steps| :: !OfProducer(steps[i]) }

  /** What only the producer changes. */
  ghost predicate SameProducer(s: State, t: State) {
    && s.producer == t.producer && s.tails == t.tails && s.seenHead == t.seenHead
    && s.pushed == t.pushed && s.pushAcquired == t.pushAcquired
  }

  /** What only the consumer changes. */
  ghost predicate SameConsumer(s: State, t: State) {
    && s.consumer == t.consumer && s.heads == t.heads && s.seenTail == t.seenTail
    && s.popped == t.popped && s.popAcquired == t.popAcquired
  }

  /** The steps of the other thread in the three gaps between the four accesses of a call. */
  datatype Gaps = Gaps(first: seq<Step>, second: seq<Step>, third: seq<Step>)

  /** The schedule `past` continued by a push that acquires the given entry, up to its return. */
  ghost function WithPush(past: seq<Step>, value: int, entry: nat, gaps: Gaps, ok: bool): seq<Step> {
    var acquired := past + [PushLoadTail(value)] + gaps.first + [PushLoadHead(entry)];
    if ok then acquired + gaps.second + [PushWriteSlot] + gaps.third + [PushStoreTail] else acquired
  }

  /** The schedule `past` continued by a pop that acquires the given entry, up to its return. */
  ghost function WithPop(past: seq<Step>, entry: nat, gaps: Gaps, ok: bool): seq<Step> {
    var acquired := past + [PopLoadHead] + gaps.first + [PopLoadTail(entry)];
    if ok then acquired + gaps.second + [PopReadSlot] + gaps.third + [PopStoreHead] else acquired
  }

  lemma HeadChecked(buf: seq<int>, base: Word, schedule: seq<Step>, entry: nat)
    requires |buf| == 8 && Enabled(Run(Start(buf, base), schedule), PushLoadHead(entry))
    ensures var s := Run(Start(buf, base), schedule);
      && |s.pushed| <= entry + 8
      && (Distance(s.heads[entry], s.producer.tail) == 8 <==> |s.pushed| == entry + 8)
  {
    RunKeepsInv(buf, base, schedule);
    DistanceIsCount(base, entry, |Run(Start(buf, base), schedule).pushed|);
  }

  lemma TailChecked(buf: seq<int>, base: Word, schedule: seq<Step>, entry: nat)
    requires |buf| == 8 && Enabled(Run(Start(buf, base), schedule), PopLoadTail(entry))
    ensures var s := Run(Start(buf, base), schedule);
      && |s.popped| <= entry
      && (s.tails[entry] == s.consumer.head <==> |s.popped| == entry)
  {
    RunKeepsInv(buf, base, schedule);
    DistanceIsCount(base, |Run(Start(buf, base), schedule).popped|, entry);
  }

  /**
   The shared ring and the locals of the calls in progress. Each of the first eight methods is
   one access of the C code; Push and Pop are those of one call, with any steps of the other
   thread in between. The ghost history is the schedule of all steps since the ring was empty.
   */
  class Ring {
    var buf: array<int>
    var heads: seq<Word>
    var tails: seq<Word>
    var seenHead: nat
    var seenTail: nat
    var producer: Producer
    var consumer: Consumer
    ghost const initial: seq<int>
    ghost const base: Word
    ghost var history: seq<Step>
    ghost var state: State

    ghost predicate Valid()
      reads this, buf
    {
      && |initial| == 8 && state == Run(Start(initial, base), history)
      && buf[..] == state.buf
      && heads == state.heads && tails == state.tails
      && seenHead == state.seenHead < |heads| && seenTail == state.seenTail < |tails|
      && producer == state.producer && consumer == state.consumer
    }

    constructor (base: Word)
      ensures Valid() && fresh(buf) && this.base == base && history == []
    {
      var memory := new int[R];
      buf, initial := memory, memory[..];
      heads, tails, seenHead, seenTail := [base], [base], 0, 0;
      producer, consumer := PIdle, CIdle;
      this.base, history, state := base, [], Start(memory[..], base);
    }

    /** Advances the ghost state by a step. */
    ghost method Record(step: Step)
      requires |initial| == 8 && state == Run(Start(initial, base), history)
      modifies this`history, this`state
      ensures history == old(history) + [step] && state == Next(old(state), step)
      ensures state == Run(Start(initial, base), history)
    {
      RunOneMore(Start(initial, base), history, step);
      history, state := history + [step], Next(state, step);
    }

    method LoadTail(value: int)
      requires Valid() && producer.PIdle?
      modifies this
      ensures Valid() && buf == old(buf) && SameConsumer(state, old(state))
      ensures history == old(history) + [PushLoadTail(value)]
      ensures producer.PLoaded? && producer.value == value && state.pushed == old(state.pushed)
      ensures seenHead == old(seenHead)
    {
      producer := PLoaded(value, tails[|tails| - 1]);
      Record(PushLoadTail(value));
    }

    method AcquireHead(entry: nat)
      requires Valid() && producer.PLoaded? && seenHead <= entry < |heads|
      modifies this
      ensures Valid() && buf == old(buf) && SameConsumer(state, old(state))
      ensures history == old(history) + [PushLoadHead(entry)]
      ensures seenHead == entry && state.pushed == old(state.pushed)
      ensures if |state.pushed| == entry + 8 then producer.PIdle?
              else producer.PReady? && producer.value == old(producer.value) && |state.pushed| < entry + 8
    {
      HeadChecked(initial, base, history, entry);
      seenHead := entry;
      producer := if Distance(heads[entry], producer.tail) == R then PIdle
                  else PReady(producer.value, producer.tail);
      Record(PushLoadHead(entry));
    }

    method WriteSlot()
      requires Valid() && producer.PReady?
      modifies this, buf
      ensures Valid() && buf == old(buf) && SameConsumer(state, old(state))
      ensures history == old(history) + [PushWriteSlot]
      ensures producer.PWritten? && producer.value == old(producer.value)
      ensures state.pushed == old(state.pushed) && seenHead == old(seenHead)
    {
      buf[producer.tail % R] := producer.value;
      producer := PWritten(producer.value, producer.tail);
      Record(PushWriteSlot);
    }

    method ReleaseTail()
      requires Valid() && producer.PWritten?
      modifies this
      ensures Valid() && buf == old(buf) && SameConsumer(state, old(state))
      ensures history == old(history) + [PushStoreTail]
      ensures producer.PIdle? && state.pushed == old(state.pushed) + [old(producer.value)]
      ensures seenHead == old(seenHead)
    {
      tails := tails + [(producer.tail + 1) % TWO_32];
      producer := PIdle;
      Record(PushStoreTail);
    }

    method LoadHead()
      requires Valid() && consumer.CIdle?
      modifies this
      ensures Valid() && buf == old(buf) && SameProducer(state, old(state))
      ensures history == old(history) + [PopLoadHead]
      ensures consumer.CLoaded? && state.popped == old(state.popped)
      ensures seenTail == old(seenTail)
    {
      consumer := CLoaded(heads[|heads| - 1]);
      Record(PopLoadHead);
    }

    method AcquireTail(entry: nat)
      requires Valid() && consumer.CLoaded? && seenTail <= entry < |tails|
      modifies this
      ensures Valid() && buf == old(buf) && SameProducer(state, old(state))
      ensures history == old(history) + [PopLoadTail(entry)]
      ensures seenTail == entry && state.popped == old(state.popped)
      ensures if |state.popped| == entry then consumer.CIdle? else consumer.CReady? && |state.popped| < entry
    {
      TailChecked(initial, base, history, entry);
      seenTail := entry;
      consumer := if consumer.head == tails[entry] then CIdle else CReady(consumer.head);
      Record(PopLoadTail(entry));
    }

    method ReadSlot()
      requires Valid() && consumer.CReady?
      modifies this
      ensures Valid() && buf == old(buf) && SameProducer(state, old(state))
      ensures history == old(history) + [PopReadSlot]
      ensures |state.popped| < |state.pushed|
      ensures consumer.CRead? && consumer.value == state.pushed[|state.popped|]
      ensures state.popped == old(state.popped) && seenTail == old(seenTail)
    {
      RunKeepsInv(initial, base, history);
      consumer := CRead(buf[consumer.head % R], consumer.head);
      Record(PopReadSlot);
    }

    method ReleaseHead()
      requires Valid() && consumer.CRead?
      modifies this
      ensures Valid() && buf == old(buf) && SameProducer(state, old(state))
      ensures history == old(history) + [PopStoreHead]
      ensures consumer.CIdle? && state.popped == old(state.popped) + [old(consumer.value)]
      ensures seenTail == old(seenTail)
    {
      heads := heads + [(consumer.head + 1) % TWO_32];
      consumer := CIdle;
      Record(PopStoreHead);
    }

    /** One step of the producer's thread; if it is not ready for it, nothing happens. */
    method ProducerStep(step: Step)
      requires Valid() && OfProducer(step)
      modifies this, buf
      ensures Valid() && buf == old(buf) && SameConsumer(state, old(state))
      ensures history == old(history) + [step]
      ensures |tails| >= old(|tails|) && old(state.pushed) <= state.pushed
    {
      if step.PushLoadTail? && producer.PIdle? {
        LoadTail(step.value);
      } else if step.PushLoadHead? && producer.PLoaded? && seenHead <= step.entry < |heads| {
        AcquireHead(step.entry);
      } else if step.PushWriteSlot? && producer.PReady? {
        WriteSlot();
      } else if step.PushStoreTail? && producer.PWritten? {
        ReleaseTail();
      } else {
        Record(step);
      }
    }

    /** One step of the consumer's thread; if it is not ready for it, nothing happens. */
    method ConsumerStep(step: Step)
      requires Valid() && !OfProducer(step)
      modifies this
      ensures Valid() && buf == old(buf) && SameProducer(state, old(state))
      ensures history == old(history) + [step]
      ensures |heads| >= old(|heads|)
    {
      if step.PopLoadHead? && consumer.CIdle? {
        LoadHead();
      } else if step.PopLoadTail? && consumer.CLoaded? && seenTail <= step.entry < |tails| {
        AcquireTail(step.entry);
      } else if step.PopReadSlot? && consumer.CReady? {
        ReadSlot();
      } else if step.PopStoreHead? && consumer.CRead? {
        ReleaseHead();
      } else {
        Record(step);
      }
    }

    method ProducerRuns(steps: seq<Step>)
      requires Valid() && AllOfProducer(steps)
      modifies this, buf
      ensures Valid() && buf == old(buf) && SameConsumer(state, old(state))
      ensures history == old(history) + steps
      ensures |tails| >= old(|tails|) && old(state.pushed) <= state.pushed
    {
      for i := 0 to |steps|
        invariant Valid() && buf == old(buf) && SameConsumer(state, old(state))
        invariant history == old(history) + steps[..i]
        invariant |tails| >= old(|tails|) && old(state.pushed) <= state.pushed
      {
        assert old(history) + steps[..i + 1] == old(history) + steps[..i] + [steps[i]];
        ProducerStep(steps[i]);
      }
    }

    method ConsumerRuns(steps: seq<Step>)
      requires Valid() && AllOfConsumer(steps)
      modifies this
      ensures Valid() && buf == old(buf) && SameProducer(state, old(state))
      ensures history == old(history) + steps
      ensures |heads| >= old(|heads|)
    {
      for i := 0 to |steps|
        invariant Valid() && buf == old(buf) && SameProducer(state, old(state))
        invariant history == old(history) + steps[..i]
        invariant |heads| >= old(|heads|)
      {
        assert old(history) + steps[..i + 1] == old(history) + steps[..i] + [steps[i]];
        ConsumerStep(steps[i]);
      }
    }

    /** The acquire load of head gets the requested entry if it may, or else the newest one. */
    method Push(value: int, entry: nat, gaps: Gaps) returns (ok: bool)
      requires Valid() && producer.PIdle?
      requires AllOfConsumer(gaps.first) && AllOfConsumer(gaps.second) && AllOfConsumer(gaps.third)
      modifies this, buf
      ensures Valid() && buf == old(buf) && producer.PIdle?
      ensures history == WithPush(old(history), value, seenHead, gaps, ok)
      ensures old(seenHead) <= entry < old(|heads|) ==> seenHead == entry
      ensures ok <==> |old(state.pushed)| < seenHead + 8
      ensures state.pushed == if ok then old(state.pushed) + [value] else old(state.pushed)
    {
      LoadTail(value);
      ConsumerRuns(gaps.first);
      AcquireHead(if seenHead <= entry < |heads| then entry else |heads| - 1);
      ok := !producer.PIdle?;
      if ok {
        ConsumerRuns(gaps.second);
        WriteSlot();
        ConsumerRuns(gaps.third);
        ReleaseTail();
      }
    }

    /** A refused pop leaves the caller's variable, passed in as `was`, as it is. */
    method Pop(was: int, entry: nat, gaps: Gaps) returns (ok: bool, value: int)
      requires Valid() && consumer.CIdle?
      requires AllOfProducer(gaps.first) && AllOfProducer(gaps.second) && AllOfProducer(gaps.third)
      modifies this, buf
      ensures Valid() && buf == old(buf) && consumer.CIdle?
      ensures history == WithPop(old(history), seenTail, gaps, ok)
      ensures old(seenTail) <= entry < old(|tails|) ==> seenTail == entry
      ensures ok <==> |old(state.popped)| < seenTail
      ensures if ok then |old(state.popped)| < |state.pushed| && value == state.pushed[|old(state.popped)|]
              else value == was
      ensures state.popped == if ok then old(state.popped) + [value] else old(state.popped)
    {
      value := was;
      LoadHead();
      ProducerRuns(gaps.first);
      AcquireTail(if seenTail <= entry < |tails| then entry else |tails| - 1);
      ok := !consumer.CIdle?;
      if ok {
        ProducerRuns(gaps.second);
        ReadSlot();
        value := consumer.value;
        ProducerRuns(gaps.third);
        ReleaseHead();
      }
    }
  }
}
