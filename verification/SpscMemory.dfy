/**
 The ring over C11 memory. Every access is logged, happens-before is defined on the log, and a
 slot read may return any write to its slot that is not hidden from it by happens-before,
 racing writes included. Proved: accesses of one slot by the two threads are always ordered,
 a read has exactly one value to return, and so every execution is one of the machine of
 SpscRing, whose slots always hold the last value written.
 */
module SpscMemory {
  import opened SpscRing
  import opened Words

  // ---------- happens-before ----------

  /** One logged access; relaxed loads of the own index order nothing and are not logged. */
  datatype Event =
    | HeadAcquired(entry: nat)
    | SlotWritten(push: nat, slot: nat, value: int)
    | TailReleased(entry: nat)
    | TailAcquired(entry: nat)
    | SlotRead(pop: nat, slot: nat)
    | HeadReleased(entry: nat)
  {
    predicate OfProducer() { HeadAcquired? || SlotWritten? || TailReleased? }
  }

  /** An acquire load synchronizes with the release store whose entry it returns. */
  predicate Synchronizes(release: Event, acquire: Event) {
    || (release.TailReleased? && acquire == TailAcquired(release.entry))
    || (release.HeadReleased? && acquire == HeadAcquired(release.entry))
  }

  /** Event i of the log is before event j by program order or by synchronization. */
  ghost predicate Edge(log: seq<Event>, i: nat, j: nat) {
    i < j < |log| && (log[i].OfProducer() == log[j].OfProducer() || Synchronizes(log[i], log[j]))
  }

  ghost predicate Chain(log: seq<Event>, path: seq<nat>) {
    |path| >= 2 && forall k | 0 <= k < |path| - 1 :: Edge(log, path[k], path[k + 1])
  }

  /** The transitive closure (section 5.1.2.4 of ISO/IEC 9899:2011). */
  ghost predicate HappensBefore(log: seq<Event>, i: nat, j: nat) {
    exists path: seq<nat> :: Chain(log, path) && path[0] == i && path[|path| - 1] == j
  }

  lemma {:induction false} ChainAscends(log: seq<Event>, path: seq<nat>)
    requires Chain(log, path)
    ensures path[0] < path[|path| - 1] < |log|
  {
    assert Edge(log, path[0], path[1]);
    if |path| > 2 {
      var rest := path[1..];
      forall k | 0 <= k < |rest| - 1 ensures Edge(log, rest[k], rest[k + 1]) {
        assert Edge(log, path[k + 1], path[k + 2]);
      }
      ChainAscends(log, rest);
    }
  }

  lemma HappensBeforeAscends(log: seq<Event>, i: nat, j: nat)
    requires HappensBefore(log, i, j)
    ensures i < j < |log|
  {
    var path: seq<nat> :| Chain(log, path) && path[0] == i && path[|path| - 1] == j;
    ChainAscends(log, path);
  }

  lemma EdgeHappensBefore(log: seq<Event>, i: nat, j: nat)
    requires Edge(log, i, j)
    ensures HappensBefore(log, i, j)
  {
    assert Chain(log, [i, j]);
  }

  lemma ThreeEdges(log: seq<Event>, i: nat, k: nat, l: nat, j: nat)
    requires Edge(log, i, k) && Edge(log, k, l) && Edge(log, l, j)
    ensures HappensBefore(log, i, j)
  {
    var path := [i, k, l, j];
    assert Chain(log, path) && path[0] == i && path[|path| - 1] == j;
  }

  // ---------- slots without coherence ----------

  /** A write to the slot of the read at r that happens before it. */
  ghost predicate Hides(log: seq<Event>, w: nat, r: nat) {
    && w < |log| && r < |log| && log[w].SlotWritten? && log[r].SlotRead? && log[w].slot == log[r].slot
    && HappensBefore(log, w, r)
  }

  /** The write at w may be what the read at r returns: no later write hides it. */
  ghost predicate Visible(log: seq<Event>, w: nat, r: nat) {
    && w < r < |log| && log[w].SlotWritten? && log[r].SlotRead? && log[w].slot == log[r].slot
    && !exists w': nat :: Hides(log, w', r) && HappensBefore(log, w, w')
  }

  datatype Memory = Memory(s: State, initial: seq<int>, log: seq<Event>)

  /** The value may be returned by a read that is logged next. */
  ghost predicate Readable(m: Memory, read: Event, value: int)
    requires read.SlotRead?
  {
    var log, r := m.log + [read], |m.log|;
    || (exists w: nat :: Visible(log, w, r) && log[w].value == value)
    || (read.slot < |m.initial| && value == m.initial[read.slot] && !exists w: nat :: Hides(log, w, r))
  }

  /** The event of a step that is enabled in s. */
  ghost function Logged(s: State, step: Step): seq<Event>
    requires Enabled(s, step)
  {
    match step
    case PushLoadTail(_) => []
    case PushLoadHead(e) => [HeadAcquired(e)]
    case PushWriteSlot => [SlotWritten(|s.pushed|, s.producer.tail % 8, s.producer.value)]
    case PushStoreTail => [TailReleased(|s.tails|)]
    case PopLoadHead => []
    case PopLoadTail(e) => [TailAcquired(e)]
    case PopReadSlot => [SlotRead(|s.popped|, s.consumer.head % 8)]
    case PopStoreHead => [HeadReleased(|s.heads|)]
  }

  /** One step: as in SpscRing, but a slot read returns any readable value. */
  ghost predicate CanStep(m: Memory, step: Step, m': Memory) {
    && m.s.WellFormed() && Enabled(m.s, step)
    && m'.initial == m.initial && m'.log == m.log + Logged(m.s, step)
    && if step.PopReadSlot? then
         && m'.s.consumer.CRead? && m'.s == m.s.(consumer := CRead(m'.s.consumer.value, m.s.consumer.head))
         && Readable(m, Logged(m.s, step)[0], m'.s.consumer.value)
       else m'.s == Apply(m.s, step)
  }

  ghost function Empty(buf: seq<int>, base: Word): Memory { Memory(Start(buf, base), buf, []) }

  /** The memories ms[0], ms[1], ... are those of an execution of the steps on an empty ring. */
  ghost predicate Execution(buf: seq<int>, base: Word, steps: seq<Step>, ms: seq<Memory>) {
    && |ms| == |steps| + 1 && ms[0] == Empty(buf, base)
    && forall k | 0 <= k < |steps| :: CanStep(ms[k], steps[k], ms[k + 1])
  }

  // ---------- what the log says ----------

  ghost function Writes(s: State): nat { |s.pushed| + if s.producer.PWritten? then 1 else 0 }

  ghost function Reads(s: State): nat { |s.popped| + if s.consumer.CRead? then 1 else 0 }

  /** The event of write number p. */
  ghost function WriteOf(base: Word, s: State, p: nat): Event
    requires p < Writes(s)
  {
    SlotWritten(p, Index(base, p) % 8, if p < |s.pushed| then s.pushed[p] else s.producer.value)
  }

  /** Each event is one of the accesses counted so far. */
  ghost predicate Counted(base: Word, s: State, e: Event) {
    match e
    case SlotWritten(p, _, _) => p < Writes(s) && e == WriteOf(base, s, p)
    case TailReleased(entry) => 1 <= entry <= |s.pushed|
    case SlotRead(c, slot) => c < Reads(s) && slot == Index(base, c) % 8
    case HeadReleased(entry) => 1 <= entry <= |s.popped|
    case _ => true
  }

  ghost predicate AllCounted(base: Word, m: Memory) {
    forall i | 0 <= i < |m.log| :: Counted(base, m.s, m.log[i])
  }

  ghost predicate WriteLogged(base: Word, m: Memory, p: nat) {
    p < Writes(m.s) && WriteOf(base, m.s, p) in m.log
  }

  /** All writes and releases so far are logged. */
  ghost predicate Complete(base: Word, m: Memory) {
    && (forall p: nat | p < Writes(m.s) :: WriteLogged(base, m, p))
    && (forall e | 1 <= e <= |m.s.pushed| :: TailReleased(e) in m.log)
    && (forall e | 1 <= e <= |m.s.popped| :: HeadReleased(e) in m.log)
  }

  /** Event a, unless it is b itself, has to be logged before event b. */
  predicate Earlier(a: Event, b: Event) {
    || (a.SlotWritten? && b.SlotWritten? && a.push <= b.push)
    || (a.SlotWritten? && b.TailReleased? && a.push < b.entry)
    || (a.SlotRead? && b.HeadReleased? && a.pop < b.entry)
  }

  ghost predicate InOrder(log: seq<Event>) {
    forall i, j | 0 <= i < |log| && 0 <= j < |log| && i != j && Earlier(log[i], log[j]) :: i < j
  }

  /** Before position j, pop c acquired a tail stored after write c. */
  ghost predicate WriteSeen(log: seq<Event>, c: nat, j: nat) {
    exists k: nat, l: nat ::
      k < l < j && l < |log| && log[k].TailReleased? && log[k].entry > c && log[l] == TailAcquired(log[k].entry)
  }

  /** Before position j, push p acquired a head stored after read p - 8, if there is one. */
  ghost predicate ReadSeen(log: seq<Event>, p: nat, j: nat) {
    p < 8 || exists k: nat, l: nat ::
      k < l < j && l < |log| && log[k].HeadReleased? && log[k].entry + 8 > p && log[l] == HeadAcquired(log[k].entry)
  }

  ghost predicate Acquired(m: Memory) {
    && (forall j | 0 <= j < |m.log| && m.log[j].SlotRead? :: WriteSeen(m.log, m.log[j].pop, j))
    && (forall j | 0 <= j < |m.log| && m.log[j].SlotWritten? :: ReadSeen(m.log, m.log[j].push, j))
    && (m.s.consumer.CReady? ==> WriteSeen(m.log, |m.s.popped|, |m.log|))
    && (m.s.producer.PReady? ==> ReadSeen(m.log, |m.s.pushed|, |m.log|))
  }

  ghost predicate LogInv(base: Word, m: Memory) {
    && Inv(base, m.s)
    && AllCounted(base, m) && Complete(base, m) && InOrder(m.log) && Acquired(m)
  }

  // ---------- no data race ----------

  lemma WriteBeforeRead(log: seq<Event>, i: nat, j: nat, c: nat)
    requires InOrder(log) && i < |log| && log[i].SlotWritten? && log[i].push <= c
    requires j < |log| && log[j].SlotRead? && WriteSeen(log, c, j)
    ensures HappensBefore(log, i, j)
  {
    var k: nat, l: nat :| k < l < j && l < |log| && log[k].TailReleased? && log[k].entry > c &&
      log[l] == TailAcquired(log[k].entry);
    assert Earlier(log[i], log[k]);
    ThreeEdges(log, i, k, l, j);
  }

  lemma ReadBeforeWrite(log: seq<Event>, i: nat, j: nat, p: nat)
    requires InOrder(log) && i < |log| && log[i].SlotRead? && log[i].pop + 8 <= p
    requires j < |log| && log[j].SlotWritten? && ReadSeen(log, p, j)
    ensures HappensBefore(log, i, j)
  {
    var k: nat, l: nat :| k < l < j && l < |log| && log[k].HeadReleased? && log[k].entry + 8 > p &&
      log[l] == HeadAcquired(log[k].entry);
    assert Earlier(log[i], log[k]);
    ThreeEdges(log, i, k, l, j);
  }

  /** One slot, two threads, and at least one of the accesses is a write. */
  ghost predicate Conflict(a: Event, b: Event) {
    (a.SlotWritten? && b.SlotRead? && a.slot == b.slot) || (a.SlotRead? && b.SlotWritten? && a.slot == b.slot)
  }

  lemma Ordered(base: Word, m: Memory, w: nat, r: nat)
    requires LogInv(base, m) && w < |m.log| && r < |m.log|
    requires m.log[w].SlotWritten? && m.log[r].SlotRead? && m.log[w].slot == m.log[r].slot
    ensures HappensBefore(m.log, w, r) || HappensBefore(m.log, r, w)
  {
    var p, c := m.log[w].push, m.log[r].pop;
    assert Counted(base, m.s, m.log[w]) && Counted(base, m.s, m.log[r]);
    if p <= c {
      WriteBeforeRead(m.log, w, r, c);
    } else {
      SlotReusedLater(base, c, p);
      ReadBeforeWrite(m.log, r, w, p);
    }
  }

  /** Of two accesses to one slot by the two threads, the one logged first happens before the other. */
  lemma NoRace(base: Word, m: Memory, i: nat, j: nat)
    requires LogInv(base, m) && i < j < |m.log| && Conflict(m.log[i], m.log[j])
    ensures HappensBefore(m.log, i, j)
  {
    var log := m.log;
    assert Counted(base, m.s, log[i]) && Counted(base, m.s, log[j]);
    if log[i].SlotWritten? {
      Ordered(base, m, i, j);
      if HappensBefore(log, j, i) { HappensBeforeAscends(log, j, i); }
    } else {
      Ordered(base, m, j, i);
      if HappensBefore(log, j, i) { HappensBeforeAscends(log, j, i); }
    }
  }

  // ---------- a read has one value ----------

  /** The state of the log when the consumer is about to read: the read is appended to it. */
  ghost function ReadLog(m: Memory): seq<Event>
    requires m.s.consumer.CReady?
  {
    m.log + [SlotRead(|m.s.popped|, m.s.consumer.head % 8)]
  }

  lemma ReadLogInOrder(m: Memory)
    requires InOrder(m.log) && m.s.consumer.CReady?
    requires forall i | 0 <= i < |m.log| && m.log[i].HeadReleased? :: m.log[i].entry <= |m.s.popped|
    ensures InOrder(ReadLog(m))
  {
  }

  lemma WriteSeenLonger(log: seq<Event>, log': seq<Event>, c: nat, j: nat)
    requires log <= log' && WriteSeen(log, c, j)
    ensures forall j' | j' >= j :: WriteSeen(log', c, j')
  {
    var k: nat, l: nat :| k < l < j && l < |log| && log[k].TailReleased? && log[k].entry > c &&
      log[l] == TailAcquired(log[k].entry);
    assert log'[k] == log[k] && log'[l] == log[l];
  }

  lemma OldestWrite(base: Word, m: Memory) returns (w: nat)
    requires LogInv(base, m) && m.s.consumer.CReady?
    ensures |m.s.popped| < |m.s.pushed|
    ensures w < |m.log| && m.log[w] == WriteOf(base, m.s, |m.s.popped|)
    ensures m.log[w].slot == m.s.consumer.head % 8
    ensures Hides(ReadLog(m), w, |m.log|)
  {
    var c, log, r := |m.s.popped|, ReadLog(m), |m.log|;
    assert WriteLogged(base, m, c);
    w :| w < |m.log| && m.log[w] == WriteOf(base, m.s, c);
    ReadLogInOrder(m);
    WriteSeenLonger(m.log, log, c, r);
    WriteBeforeRead(log, w, r, c);
  }

  lemma ReadSeenLonger(log: seq<Event>, log': seq<Event>, p: nat, j: nat)
    requires log <= log' && ReadSeen(log, p, j)
    ensures forall j' | j' >= j :: ReadSeen(log', p, j')
  {
    if p >= 8 {
      var k: nat, l: nat :| k < l < j && l < |log| && log[k].HeadReleased? && log[k].entry + 8 > p &&
        log[l] == HeadAcquired(log[k].entry);
      assert log'[k] == log[k] && log'[l] == log[l];
    }
  }

  /** Every other write to the slot is an older one, hidden by the write of the value due. */
  lemma OthersHidden(base: Word, m: Memory, w: nat, other: nat)
    requires LogInv(base, m) && m.s.consumer.CReady?
    requires w < |m.log| && m.log[w].SlotWritten? && m.log[w].push == |m.s.popped|
    requires other < |m.log| && other != w && m.log[other].SlotWritten?
    requires m.log[other].slot == m.s.consumer.head % 8
    ensures HappensBefore(ReadLog(m), other, w)
  {
    var c, p := |m.s.popped|, m.log[other].push;
    assert Counted(base, m.s, m.log[other]) && Counted(base, m.s, m.log[w]);
    SlotReusedLater(base, c, p);
    assert p <= c && Earlier(m.log[other], m.log[w]);
    EdgeHappensBefore(ReadLog(m), other, w);
  }

  /** Exactly one value is readable: that of the oldest push that was not popped. */
  lemma ReadsOldest(base: Word, m: Memory, value: int)
    requires LogInv(base, m) && m.s.consumer.CReady?
    ensures |m.s.popped| < |m.s.pushed|
    ensures Readable(m, SlotRead(|m.s.popped|, m.s.consumer.head % 8), value) <==>
      value == m.s.pushed[|m.s.popped|]
  {
    var log, r := ReadLog(m), |m.log|;
    var w := OldestWrite(base, m);
    forall w': nat | w' < r && w' != w && log[w'].SlotWritten? && log[w'].slot == log[r].slot
      ensures HappensBefore(log, w', w) && w' < w
    {
      OthersHidden(base, m, w, w');
      HappensBeforeAscends(log, w', w);
    }
    forall w': nat | Hides(log, w', r) ensures w' < r && !HappensBefore(log, w, w') {
      HappensBeforeAscends(log, w', r);
      if HappensBefore(log, w, w') { HappensBeforeAscends(log, w, w'); }
    }
    assert Visible(log, w, r);
  }

  // ---------- every step keeps the log in order ----------

  /** The log grows by an event that none of the logged ones had to follow. */
  lemma AppendInOrder(log: seq<Event>, e: Event)
    requires InOrder(log) && forall i | 0 <= i < |log| :: !Earlier(e, log[i])
    ensures InOrder(log + [e])
  {
  }

  lemma AcquiredLonger(m: Memory, log': seq<Event>)
    requires Acquired(m) && m.log <= log'
    ensures forall j | 0 <= j < |m.log| && log'[j].SlotRead? :: WriteSeen(log', log'[j].pop, j)
    ensures forall j | 0 <= j < |m.log| && log'[j].SlotWritten? :: ReadSeen(log', log'[j].push, j)
    ensures m.s.consumer.CReady? ==> forall j | j >= |m.log| :: WriteSeen(log', |m.s.popped|, j)
    ensures m.s.producer.PReady? ==> forall j | j >= |m.log| :: ReadSeen(log', |m.s.pushed|, j)
  {
    forall j | 0 <= j < |m.log| && log'[j].SlotRead? ensures WriteSeen(log', log'[j].pop, j) {
      assert log'[j] == m.log[j];
      WriteSeenLonger(m.log, log', log'[j].pop, j);
    }
    forall j | 0 <= j < |m.log| && log'[j].SlotWritten? ensures ReadSeen(log', log'[j].push, j) {
      assert log'[j] == m.log[j];
      ReadSeenLonger(m.log, log', log'[j].push, j);
    }
    if m.s.consumer.CReady? { WriteSeenLonger(m.log, log', |m.s.popped|, |m.log|); }
    if m.s.producer.PReady? { ReadSeenLonger(m.log, log', |m.s.pushed|, |m.log|); }
  }

  lemma OldWriteKept(base: Word, s: State, step: Step, p: nat)
    requires s.WellFormed() && Enabled(s, step) && p < Writes(s)
    ensures p < Writes(Apply(s, step)) && WriteOf(base, Apply(s, step), p) == WriteOf(base, s, p)
  {
  }

  /** The step of SpscRing with its event logged. */
  ghost predicate Stepped(m: Memory, step: Step, m': Memory) {
    m.s.WellFormed() && Enabled(m.s, step) && m'.s == Apply(m.s, step) && m'.log == m.log + Logged(m.s, step)
  }

  lemma StillCounted(base: Word, s: State, step: Step, e: Event)
    requires s.WellFormed() && Enabled(s, step) && Counted(base, s, e)
    ensures Counted(base, Apply(s, step), e)
  {
    if e.SlotWritten? { OldWriteKept(base, s, step, e.push); }
  }

  lemma NewCounted(base: Word, s: State, step: Step)
    requires Inv(base, s) && Enabled(s, step) && Logged(s, step) != []
    ensures Counted(base, Apply(s, step), Logged(s, step)[0])
  {
  }

  lemma CountedAfter(base: Word, m: Memory, step: Step, m': Memory)
    requires Inv(base, m.s) && AllCounted(base, m) && Stepped(m, step, m')
    ensures AllCounted(base, m')
  {
    forall i | 0 <= i < |m'.log| ensures Counted(base, m'.s, m'.log[i]) {
      if i < |m.log| {
        StillCounted(base, m.s, step, m.log[i]);
      } else {
        NewCounted(base, m.s, step);
      }
    }
  }

  lemma ReleasesAfter(base: Word, m: Memory, step: Step, m': Memory)
    requires Inv(base, m.s) && Complete(base, m) && Stepped(m, step, m')
    ensures forall e | 1 <= e <= |m'.s.pushed| :: TailReleased(e) in m'.log
    ensures forall e | 1 <= e <= |m'.s.popped| :: HeadReleased(e) in m'.log
  {
    if step.PushStoreTail? { assert m'.log[|m.log|] == TailReleased(|m'.s.pushed|); }
    if step.PopStoreHead? { assert m'.log[|m.log|] == HeadReleased(|m'.s.popped|); }
  }

  lemma CompleteAfter(base: Word, m: Memory, step: Step, m': Memory)
    requires Inv(base, m.s) && Complete(base, m) && Stepped(m, step, m')
    ensures Complete(base, m')
  {
    forall p: nat | p < Writes(m'.s) ensures WriteLogged(base, m', p) {
      if p < Writes(m.s) {
        OldWriteKept(base, m.s, step, p);
        assert WriteLogged(base, m, p);
      } else {
        assert m'.log[|m.log|] == WriteOf(base, m'.s, p);
      }
    }
    ReleasesAfter(base, m, step, m');
  }

  lemma NewIsLast(base: Word, s: State, step: Step, e: Event)
    requires Inv(base, s) && Enabled(s, step) && Logged(s, step) != [] && Counted(base, s, e)
    ensures !Earlier(Logged(s, step)[0], e)
  {
  }

  lemma OrderAfter(base: Word, m: Memory, step: Step, m': Memory)
    requires Inv(base, m.s) && AllCounted(base, m) && InOrder(m.log) && Stepped(m, step, m')
    ensures InOrder(m'.log)
  {
    if Logged(m.s, step) == [] {
      assert m'.log == m.log;
    } else {
      var e := Logged(m.s, step)[0];
      forall i | 0 <= i < |m.log| ensures !Earlier(e, m.log[i]) {
        assert Counted(base, m.s, m.log[i]);
        NewIsLast(base, m.s, step, m.log[i]);
      }
      AppendInOrder(m.log, e);
      assert m'.log == m.log + [e];
    }
  }

  lemma HeadSeenNow(log: seq<Event>, entry: nat, p: nat)
    requires p < entry + 8 && (p >= 8 ==> HeadReleased(entry) in log)
    ensures ReadSeen(log + [HeadAcquired(entry)], p, |log| + 1)
  {
    if p >= 8 {
      var log' := log + [HeadAcquired(entry)];
      var k: nat :| k < |log| && log[k] == HeadReleased(entry);
      assert log'[k] == log[k] && log'[|log|] == HeadAcquired(entry);
    }
  }

  lemma TailSeenNow(log: seq<Event>, entry: nat, c: nat)
    requires c < entry && TailReleased(entry) in log
    ensures WriteSeen(log + [TailAcquired(entry)], c, |log| + 1)
  {
    var log' := log + [TailAcquired(entry)];
    var k: nat :| k < |log| && log[k] == TailReleased(entry);
    assert log'[k] == log[k] && log'[|log|] == TailAcquired(entry);
  }

  lemma WriteSeenAfter(base: Word, m: Memory, step: Step, m': Memory)
    requires Inv(base, m.s) && Complete(base, m) && Acquired(m) && Stepped(m, step, m')
    ensures m'.s.consumer.CReady? ==> WriteSeen(m'.log, |m'.s.popped|, |m'.log|)
  {
    AcquiredLonger(m, m'.log);
    if step.PopLoadTail? && m'.s.consumer.CReady? {
      NextKeepsInv(base, m.s, step);
      TailSeenNow(m.log, step.entry, |m.s.popped|);
    }
  }

  lemma ReadSeenAfter(base: Word, m: Memory, step: Step, m': Memory)
    requires Inv(base, m.s) && Complete(base, m) && Acquired(m) && Stepped(m, step, m')
    ensures m'.s.producer.PReady? ==> ReadSeen(m'.log, |m'.s.pushed|, |m'.log|)
  {
    AcquiredLonger(m, m'.log);
    if step.PushLoadHead? && m'.s.producer.PReady? {
      NextKeepsInv(base, m.s, step);
      HeadSeenNow(m.log, step.entry, |m.s.pushed|);
    }
  }

  lemma AcquiredAfter(base: Word, m: Memory, step: Step, m': Memory)
    requires Inv(base, m.s) && Complete(base, m) && Acquired(m) && Stepped(m, step, m')
    ensures Acquired(m')
  {
    WriteSeenAfter(base, m, step, m');
    ReadSeenAfter(base, m, step, m');
    AcquiredLonger(m, m'.log);
    assert |m.log| <= |m'.log| <= |m.log| + 1;
  }

  lemma ReadIsApply(base: Word, m: Memory, m': Memory)
    requires LogInv(base, m) && CanStep(m, PopReadSlot, m')
    ensures m'.s == Apply(m.s, PopReadSlot)
  {
    ReadsOldest(base, m, m'.s.consumer.value);
  }

  /** Each step is the step of SpscRing: a slot read returns what the slot was last set to. */
  lemma StepRefines(base: Word, m: Memory, step: Step, m': Memory)
    requires LogInv(base, m) && CanStep(m, step, m')
    ensures LogInv(base, m') && m'.s == Apply(m.s, step)
  {
    if step.PopReadSlot? { ReadIsApply(base, m, m'); }
    NextKeepsInv(base, m.s, step);
    CountedAfter(base, m, step, m');
    CompleteAfter(base, m, step, m');
    OrderAfter(base, m, step, m');
    AcquiredAfter(base, m, step, m');
  }

  // ---------- executions ----------

  /** Every execution over C11 memory is a run of SpscRing: all that holds in its runs holds here. */
  lemma {:induction false} ExecutionRefines(buf: seq<int>, base: Word, steps: seq<Step>, ms: seq<Memory>)
    requires |buf| == 8 && Execution(buf, base, steps, ms)
    ensures LogInv(base, ms[|steps|]) && ms[|steps|].s == Run(Start(buf, base), steps)
  {
    if steps == [] {
      RunKeepsInv(buf, base, []);
    } else {
      var last := |steps| - 1;
      ExecutionRefines(buf, base, steps[..last], ms[..|steps|]);
      assert CanStep(ms[last], steps[last], ms[last + 1]);
      StepRefines(base, ms[last], steps[last], ms[last + 1]);
    }
  }

  /** No execution has a data race. */
  lemma RaceFreeByLog(buf: seq<int>, base: Word, steps: seq<Step>, ms: seq<Memory>, i: nat, j: nat)
    requires |buf| == 8 && Execution(buf, base, steps, ms)
    requires i < j < |ms[|steps|].log| && Conflict(ms[|steps|].log[i], ms[|steps|].log[j])
    ensures HappensBefore(ms[|steps|].log, i, j)
  {
    ExecutionRefines(buf, base, steps, ms);
    NoRace(base, ms[|steps|], i, j);
  }

  lemma SomeStep(base: Word, m: Memory, step: Step) returns (m': Memory)
    requires LogInv(base, m) && Enabled(m.s, step)
    ensures CanStep(m, step, m')
  {
    m' := Memory(Apply(m.s, step), m.initial, m.log + Logged(m.s, step));
    if step.PopReadSlot? { ReadsOldest(base, m, m'.s.consumer.value); }
  }

  lemma ExtendExecution(buf: seq<int>, base: Word, steps: seq<Step>, ms: seq<Memory>, step: Step, m': Memory)
    requires Execution(buf, base, steps, ms) && CanStep(ms[|steps|], step, m')
    ensures Execution(buf, base, steps + [step], ms + [m'])
  {
    var steps', ms' := steps + [step], ms + [m'];
    forall k | 0 <= k < |steps'| ensures CanStep(ms'[k], steps'[k], ms'[k + 1]) {
      if k < |steps| { assert CanStep(ms[k], steps[k], ms[k + 1]); }
    }
  }

  /** No step is blocked by the memory: what SpscRing can do next, the execution can do next. */
  lemma NeverStuck(buf: seq<int>, base: Word, steps: seq<Step>, ms: seq<Memory>, step: Step) returns (m': Memory)
    requires |buf| == 8 && Execution(buf, base, steps, ms) && Enabled(ms[|steps|].s, step)
    ensures Execution(buf, base, steps + [step], ms + [m'])
  {
    ExecutionRefines(buf, base, steps, ms);
    m' := SomeStep(base, ms[|steps|], step);
    ExtendExecution(buf, base, steps, ms, step, m');
  }
}
