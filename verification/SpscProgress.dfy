/**
 Progress of the ring's two processes. On every infinite schedule in which each thread keeps
 stepping and a stored index is eventually seen by the other thread's acquire loads, every
 value count is reached: neither the producer's nor the consumer's retry loop runs forever.
 */
module SpscProgress {
  import opened SpscRing
  import opened Words

  /**
   An infinite schedule on an empty ring whose indices start at base. The schedule may look at
   the state; one that is fixed beforehand ignores it.
   */
  datatype World = World(buf: seq<int>, base: Word, schedule: (nat, State) -> Step)

  /** The state before step i of the schedule. */
  ghost function At(w: World, i: nat): (s: State)
    requires |w.buf| == 8
    ensures s.WellFormed()
  {
    if i == 0 then Start(w.buf, w.base)
    else
      var s := At(w, i - 1);
      Next(s, w.schedule(i - 1, s))
  }

  ghost function StepAt(w: World, i: nat): Step
    requires |w.buf| == 8
  {
    w.schedule(i, At(w, i))
  }

  /** Step i takes effect, and it is one of the given thread. */
  ghost predicate Acts(w: World, producer: bool, i: nat)
    requires |w.buf| == 8
  {
    OfProducer(StepAt(w, i)) == producer && Enabled(At(w, i), StepAt(w, i))
  }

  ghost predicate ActsAgain(w: World, producer: bool, i: nat)
    requires |w.buf| == 8
  {
    exists j: nat :: j >= i && Acts(w, producer, j)
  }

  /** From step t on, acquire loads return entries no older than the newest ones before step i. */
  ghost predicate SeenFrom(w: World, i: nat, t: nat)
    requires |w.buf| == 8
  {
    forall j: nat | j >= t && Enabled(At(w, j), StepAt(w, j)) ::
      && (StepAt(w, j).PushLoadHead? ==> StepAt(w, j).entry + 1 >= |At(w, i).heads|)
      && (StepAt(w, j).PopLoadTail? ==> StepAt(w, j).entry + 1 >= |At(w, i).tails|)
  }

  ghost predicate EventuallySeen(w: World, i: nat)
    requires |w.buf| == 8
  {
    exists t: nat :: SeenFrom(w, i, t)
  }

  /** Both threads keep acting, and each store is eventually seen. */
  ghost predicate Fair(w: World) {
    && |w.buf| == 8
    && (forall i: nat :: ActsAgain(w, true, i) && ActsAgain(w, false, i))
    && (forall i: nat :: EventuallySeen(w, i))
  }

  lemma {:induction false} AtInv(w: World, i: nat)
    requires |w.buf| == 8
    ensures Inv(w.base, At(w, i))
  {
    if i == 0 {
      RunKeepsInv(w.buf, w.base, []);
    } else {
      AtInv(w, i - 1);
      NextKeepsInv(w.base, At(w, i - 1), StepAt(w, i - 1));
    }
  }

  // ---------- one thread waits while the other acts ----------

  ghost predicate SameThread(s: State, t: State, producer: bool) {
    if producer then SameProducer(s, t) else SameConsumer(s, t)
  }

  /** How much a thread has done: counts never fall. */
  ghost predicate Grown(s: State, t: State) {
    |s.pushed| <= |t.pushed| && |s.popped| <= |t.popped|
  }

  lemma StepOfOther(s: State, step: Step)
    requires s.WellFormed()
    ensures Grown(s, Next(s, step))
    ensures OfProducer(step) ==> SameConsumer(s, Next(s, step))
    ensures !OfProducer(step) ==> SameProducer(s, Next(s, step))
  {
  }

  /** The next step at which the thread acts; it stays where it is until then. */
  lemma {:induction false} NextAct(w: World, producer: bool, i: nat, j: nat) returns (k: nat)
    requires |w.buf| == 8 && i <= j && Acts(w, producer, j)
    ensures i <= k <= j && Acts(w, producer, k)
    ensures SameThread(At(w, i), At(w, k), producer) && Grown(At(w, i), At(w, k))
    decreases j - i
  {
    if Acts(w, producer, i) {
      k := i;
    } else {
      k := NextAct(w, producer, i + 1, j);
      StepOfOther(At(w, i), StepAt(w, i));
    }
  }

  lemma FairAct(w: World, producer: bool, i: nat) returns (k: nat)
    requires Fair(w)
    ensures i <= k && Acts(w, producer, k)
    ensures SameThread(At(w, i), At(w, k), producer) && Grown(At(w, i), At(w, k))
  {
    assert ActsAgain(w, producer, i);
    var j: nat :| j >= i && Acts(w, producer, j);
    k := NextAct(w, producer, i, j);
  }

  // ---------- the consumer pops what was pushed ----------

  /** Accesses left before the next store, once the check of the other index succeeds. */
  ghost function ConsumerRank(s: State): nat {
    match s.consumer case CIdle => 4 case CLoaded(_) => 3 case CReady(_) => 2 case CRead(_, _) => 1
  }

  ghost function ProducerRank(s: State): nat {
    match s.producer case PIdle => 4 case PLoaded(_, _) => 3 case PReady(_, _) => 2 case PWritten(_, _) => 1
  }

  lemma ConsumerAdvances(base: Word, s: State, step: Step)
    requires Inv(base, s) && Enabled(s, step) && !OfProducer(step)
    requires step.PopLoadTail? ==> step.entry > |s.popped|
    ensures var s' := Next(s, step);
      |s'.popped| > |s.popped| || (s'.popped == s.popped && ConsumerRank(s') < ConsumerRank(s))
  {
    if step.PopLoadTail? { DistanceIsCount(base, |s.popped|, step.entry); }
  }

  /** The consumer's next access brings it nearer to a pop. */
  lemma ConsumerActs(w: World, from: nat, i: nat, count: nat) returns (j: nat)
    requires Fair(w) && SeenFrom(w, from, i) && |At(w, from).tails| > count + 1
    requires |At(w, i).popped| == count
    ensures j > i && SeenFrom(w, from, j)
    ensures |At(w, j).popped| > count ||
      (|At(w, j).popped| == count && ConsumerRank(At(w, j)) < ConsumerRank(At(w, i)))
  {
    j := FairAct(w, false, i);
    AtInv(w, j);
    ConsumerAdvances(w.base, At(w, j), StepAt(w, j));
    j := j + 1;
  }

  /** Once a value past the popped ones is seen, the next pop succeeds. */
  lemma {:induction false} PopSucceeds(w: World, from: nat, i: nat, count: nat) returns (k: nat)
    requires Fair(w) && SeenFrom(w, from, i) && |At(w, from).tails| > count + 1
    requires |At(w, i).popped| == count
    ensures k >= i && |At(w, k).popped| > count
    decreases ConsumerRank(At(w, i))
  {
    k := ConsumerActs(w, from, i, count);
    if |At(w, k).popped| == count { k := PopSucceeds(w, from, k, count); }
  }

  // ---------- the producer pushes while there is room ----------

  lemma ProducerAdvances(base: Word, s: State, step: Step)
    requires Inv(base, s) && Enabled(s, step) && OfProducer(step)
    requires step.PushLoadHead? ==> |s.pushed| < step.entry + 8
    ensures var s' := Next(s, step);
      |s'.pushed| > |s.pushed| || (s'.pushed == s.pushed && ProducerRank(s') < ProducerRank(s))
  {
    if step.PushLoadHead? { DistanceIsCount(base, step.entry, |s.pushed|); }
  }

  /** The producer's next access brings it nearer to a push. */
  lemma ProducerActs(w: World, from: nat, i: nat, count: nat) returns (j: nat)
    requires Fair(w) && SeenFrom(w, from, i) && count + 1 < |At(w, from).heads| + 8
    requires |At(w, i).pushed| == count
    ensures j > i && SeenFrom(w, from, j)
    ensures |At(w, j).pushed| > count ||
      (|At(w, j).pushed| == count && ProducerRank(At(w, j)) < ProducerRank(At(w, i)))
  {
    j := FairAct(w, true, i);
    AtInv(w, j);
    ProducerAdvances(w.base, At(w, j), StepAt(w, j));
    j := j + 1;
  }

  /** Once enough pops are seen, the next push succeeds. */
  lemma {:induction false} PushSucceeds(w: World, from: nat, i: nat, count: nat) returns (k: nat)
    requires Fair(w) && SeenFrom(w, from, i) && count + 1 < |At(w, from).heads| + 8
    requires |At(w, i).pushed| == count
    ensures k >= i && |At(w, k).pushed| > count
    decreases ProducerRank(At(w, i))
  {
    k := ProducerActs(w, from, i, count);
    if |At(w, k).pushed| == count { k := PushSucceeds(w, from, k, count); }
  }

  // ---------- every count is reached ----------

  lemma {:induction false} Grows(w: World, i: nat, j: nat)
    requires |w.buf| == 8 && i <= j
    ensures Grown(At(w, i), At(w, j))
  {
    if i < j {
      Grows(w, i, j - 1);
      StepOfOther(At(w, j - 1), StepAt(w, j - 1));
    }
  }

  /** A time from which everything stored before step i is seen. */
  lemma SeenAt(w: World, i: nat) returns (t: nat)
    requires Fair(w)
    ensures t >= i && SeenFrom(w, i, t) && Grown(At(w, i), At(w, t))
  {
    assert EventuallySeen(w, i);
    var t0: nat :| SeenFrom(w, i, t0);
    t := if t0 >= i then t0 else i;
    Grows(w, i, t);
  }

  /** A full ring is not a dead end, and an empty one neither: the push count goes up ... */
  lemma PushesGrow(w: World, i: nat) returns (k: nat)
    requires Fair(w) && |At(w, i).pushed| < |At(w, i).popped| + 8
    ensures k >= i && |At(w, k).pushed| > |At(w, i).pushed|
  {
    AtInv(w, i);
    var t := SeenAt(w, i);
    if |At(w, t).pushed| > |At(w, i).pushed| {
      k := t;
    } else {
      k := PushSucceeds(w, i, t, |At(w, i).pushed|);
    }
  }

  /** ... and so does the pop count. */
  lemma PopsGrow(w: World, i: nat) returns (k: nat)
    requires Fair(w) && |At(w, i).popped| < |At(w, i).pushed|
    ensures k >= i && |At(w, k).popped| > |At(w, i).popped|
  {
    AtInv(w, i);
    var t := SeenAt(w, i);
    if |At(w, t).popped| > |At(w, i).popped| {
      k := t;
    } else {
      k := PopSucceeds(w, i, t, |At(w, i).popped|);
    }
  }

  /** Every number of values is transferred: no retry loop runs forever. */
  lemma {:induction false} EveryCountReached(w: World, n: nat) returns (k: nat)
    requires Fair(w)
    ensures |At(w, k).popped| >= n
  {
    if n == 0 {
      k := 0;
    } else {
      k := EveryCountReached(w, n - 1);
      if |At(w, k).popped| < n {
        AtInv(w, k);
        if |At(w, k).pushed| < n {
          var later := PushesGrow(w, k);
          Grows(w, k, later);
          k := later;
        }
        if |At(w, k).popped| < n { k := PopsGrow(w, k); }
      }
    }
  }

  // ---------- such schedules exist ----------

  /** The access that a thread makes next, loading the newest entry. */
  ghost function Newest(s: State, producer: bool): (step: Step)
    requires s.WellFormed()
    ensures OfProducer(step) == producer
  {
    if producer then
      match s.producer
      case PIdle => PushLoadTail(|s.pushed|)
      case PLoaded(_, _) => PushLoadHead(|s.heads| - 1)
      case PReady(_, _) => PushWriteSlot
      case PWritten(_, _) => PushStoreTail
    else
      match s.consumer
      case CIdle => PopLoadHead
      case CLoaded(_) => PopLoadTail(|s.tails| - 1)
      case CReady(_) => PopReadSlot
      case CRead(_, _) => PopStoreHead
  }

  /** The threads take turns, each making its next access. */
  ghost function TakeTurns(buf: seq<int>, base: Word): World {
    World(buf, base, (i: nat, s: State) => if s.WellFormed() then Newest(s, i % 2 == 0) else PopLoadHead)
  }

  lemma TurnAt(buf: seq<int>, base: Word, i: nat)
    requires |buf| == 8
    ensures var w := TakeTurns(buf, base); StepAt(w, i) == Newest(At(w, i), i % 2 == 0)
  {
  }

  lemma TurnActs(buf: seq<int>, base: Word, i: nat)
    requires |buf| == 8
    ensures Acts(TakeTurns(buf, base), i % 2 == 0, i)
  {
    TurnAt(buf, base, i);
    AtInv(TakeTurns(buf, base), i);
  }

  lemma TurnSees(buf: seq<int>, base: Word, i: nat)
    requires |buf| == 8
    ensures SeenFrom(TakeTurns(buf, base), i, i)
  {
    var w := TakeTurns(buf, base);
    AtInv(w, i);
    forall j: nat | j >= i && Enabled(At(w, j), StepAt(w, j))
      ensures StepAt(w, j).PushLoadHead? ==> StepAt(w, j).entry + 1 >= |At(w, i).heads|
      ensures StepAt(w, j).PopLoadTail? ==> StepAt(w, j).entry + 1 >= |At(w, i).tails|
    {
      TurnAt(buf, base, j);
      AtInv(w, j);
      Grows(w, i, j);
    }
  }

  /** Strict alternation that always loads the newest entry is fair, so fairness can be met. */
  lemma TurnsAreFair(buf: seq<int>, base: Word)
    requires |buf| == 8
    ensures Fair(TakeTurns(buf, base))
  {
    var w := TakeTurns(buf, base);
    forall i: nat ensures ActsAgain(w, true, i) && ActsAgain(w, false, i) {
      TurnActs(buf, base, i);
      TurnActs(buf, base, i + 1);
      NextParity(i);
    }
    forall i: nat ensures EventuallySeen(w, i) {
      TurnSees(buf, base, i);
    }
  }
}
