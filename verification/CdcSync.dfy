/**
 The two clock-domain crossings: a toggle sampled at a lower rate, and a two-phase
 request/acknowledge transfer through two-stage synchronisers in both directions.
 */
module CdcSync {
  import opened Words

  // ---------- toggle synchroniser ----------

  /** Source pulses in the ticks from `from` up to `to`. */
  function Pulses(src: seq<int>, from: nat, to: nat): nat
    requires from <= to <= |src|
  {
    if from == to then 0 else Pulses(src, from, to - 1) + if src[to - 1] != 0 then 1 else 0
  }

  ghost function PulseTicks(src: seq<int>, from: nat, to: nat): set<nat>
    requires to <= |src|
  {
    set j: nat | from <= j < to && src[j] != 0
  }

  lemma {:induction false} PulsesAreCounted(src: seq<int>, from: nat, to: nat)
    requires from <= to <= |src|
    ensures Pulses(src, from, to) == |PulseTicks(src, from, to)|
  {
    if from == to {
      assert PulseTicks(src, from, to) == {};
    } else {
      PulsesAreCounted(src, from, to - 1);
      assert PulseTicks(src, from, to) ==
        PulseTicks(src, from, to - 1) + if src[to - 1] != 0 then {to - 1} else {};
    }
  }

  /** The first tick of the destination clock period that tick i belongs to. */
  function PeriodStart(i: nat, destDiv: nat): (start: nat)
    requires destDiv >= 1
    ensures start == i - i % destDiv <= i
  {
    ModBelow(i, destDiv);
    i - i % destDiv
  }

  lemma NextPeriodStart(i: nat, destDiv: nat)
    requires destDiv >= 1
    ensures PeriodStart(i + 1, destDiv) ==
      if (i + 1) % destDiv == 0 then i + 1 else PeriodStart(i, destDiv)
  {
    var q, r := DivMod(i, destDiv);
    if r + 1 < destDiv {
      QuotientUnique(i + 1, destDiv, q, r + 1);
    } else {
      assert destDiv * (q + 1) == destDiv * q + destDiv;
      QuotientUnique(i + 1, destDiv, q + 1, 0);
    }
  }

  /** Source pulses in the period of tick i, up to and including tick i. */
  function InWindow(src: seq<int>, destDiv: nat, i: nat): nat
    requires destDiv >= 1 && i < |src|
  {
    Pulses(src, PeriodStart(i, destDiv), i + 1)
  }

  /** The destination samples at the end of each of its periods, and at the end of the run. */
  predicate DestPulse(src: seq<int>, n: nat, destDiv: nat, i: nat)
    requires destDiv >= 1 && i < n <= |src|
  {
    ((i + 1) % destDiv == 0 || i == n - 1) && InWindow(src, destDiv, i) % 2 == 1
  }

  function DeliveredCount(src: seq<int>, n: nat, destDiv: nat, k: nat): nat
    requires destDiv >= 1 && k <= n <= |src|
  {
    if k == 0 then 0
    else DeliveredCount(src, n, destDiv, k - 1) + if DestPulse(src, n, destDiv, k - 1) then 1 else 0
  }

  ghost function DestTicks(src: seq<int>, n: nat, destDiv: nat, k: nat): set<nat>
    requires destDiv >= 1 && k <= n <= |src|
  {
    set i: nat | i < k && DestPulse(src, n, destDiv, i)
  }

  lemma NextDestTick(src: seq<int>, n: nat, destDiv: nat, k: nat, now: bool)
    requires destDiv >= 1 && k < n <= |src| && now == DestPulse(src, n, destDiv, k)
    ensures DestTicks(src, n, destDiv, k + 1) == DestTicks(src, n, destDiv, k) + if now then {k} else {}
  {
  }

  lemma {:induction false} DeliveredIsCounted(src: seq<int>, n: nat, destDiv: nat, k: nat)
    requires destDiv >= 1 && k <= n <= |src|
    ensures DeliveredCount(src, n, destDiv, k) == |DestTicks(src, n, destDiv, k)|
  {
    if k == 0 {
      assert DestTicks(src, n, destDiv, k) == {};
    } else {
      DeliveredIsCounted(src, n, destDiv, k - 1);
      NextDestTick(src, n, destDiv, k - 1, DestPulse(src, n, destDiv, k - 1));
    }
  }

  /** The source pulses in the period of tick i, up to and including tick i. */
  ghost function WindowTicks(src: seq<int>, destDiv: nat, i: nat): set<nat>
    requires destDiv >= 1 && i < |src|
  {
    set j: nat | i - i % destDiv <= j < i + 1 && src[j] != 0
  }

  lemma WindowIsCounted(src: seq<int>, destDiv: nat, i: nat)
    requires destDiv >= 1 && i < |src|
    ensures InWindow(src, destDiv, i) == |WindowTicks(src, destDiv, i)|
  {
    PulsesAreCounted(src, PeriodStart(i, destDiv), i + 1);
    assert WindowTicks(src, destDiv, i) == PulseTicks(src, PeriodStart(i, destDiv), i + 1);
  }

  /** When a pulse comes out, by counting. */
  lemma DestPulseExactly(src: seq<int>, n: nat, destDiv: nat, i: nat)
    requires destDiv >= 1 && i < n <= |src|
    ensures DestPulse(src, n, destDiv, i) <==>
      ((i + 1) % destDiv == 0 || i == n - 1) &&
      |set j: nat | i - i % destDiv <= j < i + 1 && src[j] != 0| % 2 == 1
  {
    WindowIsCounted(src, destDiv, i);
    assert WindowTicks(src, destDiv, i) == set j: nat | i - i % destDiv <= j < i + 1 && src[j] != 0;
  }

  /** Source pulses since the last sample before tick k. */
  function Pending(src: seq<int>, n: nat, destDiv: nat, k: nat): nat
    requires destDiv >= 1 && k <= n <= |src|
  {
    if k == n then 0 else Pulses(src, PeriodStart(k, destDiv), k)
  }

  lemma NextPending(src: seq<int>, n: nat, destDiv: nat, i: nat)
    requires destDiv >= 1 && i < n <= |src|
    ensures InWindow(src, destDiv, i) == Pending(src, n, destDiv, i) + if src[i] != 0 then 1 else 0
    ensures Pending(src, n, destDiv, i + 1) ==
      if (i + 1) % destDiv == 0 || i == n - 1 then 0 else InWindow(src, destDiv, i)
  {
    NextPeriodStart(i, destDiv);
  }

  lemma FirstPeriod(destDiv: nat)
    requires destDiv >= 1
    ensures PeriodStart(0, destDiv) == 0
  {
    QuotientUnique(0, destDiv, 0, 0);
  }

  /** A pulse comes out exactly at the samples of periods with an odd number of source pulses. */
  method ToggleSync(src: seq<int>, n: int, destDiv: int, dest: array<int>) returns (delivered: int)
    requires n <= |src| && n <= dest.Length
    modifies dest
    ensures n < 0 || destDiv <= 0 ==> delivered == -1 && dest[..] == old(dest[..])
    ensures n >= 0 && destDiv > 0 ==>
      && delivered == |set i: nat | i < n && dest[i] == 1|
      && (forall i: nat | i < n :: dest[i] ==
            if ((i + 1) % destDiv == 0 || i == n - 1) &&
               |set j: nat | i - i % destDiv <= j < i + 1 && src[j] != 0| % 2 == 1 then 1 else 0)
      && dest[n..] == old(dest[n..])
  {
    if n < 0 || destDiv <= 0 { return -1; }
    var sourceToggle, sampledToggle := false, false;
    delivered := 0;
    FirstPeriod(destDiv);
    for i := 0 to n
      invariant delivered == DeliveredCount(src, n, destDiv, i)
      invariant (sourceToggle != sampledToggle) == (Pending(src, n, destDiv, i) % 2 == 1)
      invariant forall j: nat | j < i :: dest[j] == if DestPulse(src, n, destDiv, j) then 1 else 0
      invariant dest[n..] == old(dest[n..])
    {
      dest[i] := 0;
      NextPending(src, n, destDiv, i);
      if src[i] != 0 { sourceToggle := !sourceToggle; }
      NextParity(Pending(src, n, destDiv, i));
      assert (sourceToggle != sampledToggle) == (InWindow(src, destDiv, i) % 2 == 1);
      if (i + 1) % destDiv == 0 || i == n - 1 {
        if sourceToggle != sampledToggle {
          dest[i] := 1;
          sampledToggle := sourceToggle;
          delivered := delivered + 1;
        }
      }
    }
    assert (set i: nat | i < n && dest[i] == 1) == DestTicks(src, n, destDiv, n);
    DeliveredIsCounted(src, n, destDiv, n);
    forall i: nat | i < n { DestPulseExactly(src, n, destDiv, i); }
  }

  /** Pulses that the sampling cancels: every window loses an even number. */
  function Lost(src: seq<int>, n: nat, destDiv: nat, k: nat): (lost: nat)
    requires destDiv >= 1 && k <= n <= |src|
    ensures lost % 2 == 0
  {
    if k == 0 then 0
    else Lost(src, n, destDiv, k - 1) +
         if k % destDiv == 0 || k == n then InWindow(src, destDiv, k - 1) / 2 * 2 else 0
  }

  lemma {:induction false} PulsesBalance(src: seq<int>, n: nat, destDiv: nat, k: nat)
    requires destDiv >= 1 && k <= n <= |src|
    ensures Pulses(src, 0, k) ==
      DeliveredCount(src, n, destDiv, k) + Lost(src, n, destDiv, k) + Pending(src, n, destDiv, k)
  {
    if k == 0 {
      FirstPeriod(destDiv);
    } else {
      PulsesBalance(src, n, destDiv, k - 1);
      NextPending(src, n, destDiv, k - 1);
    }
  }

  lemma {:induction false} LostNothing(src: seq<int>, n: nat, destDiv: nat, k: nat)
    requires destDiv >= 1 && k <= n <= |src|
    ensures Lost(src, n, destDiv, k) == 0 <==>
      forall i: nat | i < k && ((i + 1) % destDiv == 0 || i == n - 1) :: InWindow(src, destDiv, i) <= 1
  {
    if k > 0 { LostNothing(src, n, destDiv, k - 1); }
  }

  lemma BalanceIffSpaced(src: seq<int>, n: nat, destDiv: nat)
    requires destDiv >= 1 && n <= |src|
    ensures DeliveredCount(src, n, destDiv, n) <= Pulses(src, 0, n)
    ensures (Pulses(src, 0, n) - DeliveredCount(src, n, destDiv, n)) % 2 == 0
    ensures DeliveredCount(src, n, destDiv, n) == Pulses(src, 0, n) <==>
      forall i: nat | i < n && ((i + 1) % destDiv == 0 || i == n - 1) :: InWindow(src, destDiv, i) <= 1
  {
    PulsesBalance(src, n, destDiv, n);
    LostNothing(src, n, destDiv, n);
  }

  /**
   Every source pulse is delivered exactly when no sampled period, the short last one included,
   holds two of them; losses are even.
   */
  lemma DeliversAllIffSpaced(src: seq<int>, n: nat, destDiv: nat)
    requires destDiv >= 1 && n <= |src|
    ensures |DestTicks(src, n, destDiv, n)| <= |PulseTicks(src, 0, n)|
    ensures (|PulseTicks(src, 0, n)| - |DestTicks(src, n, destDiv, n)|) % 2 == 0
    ensures |DestTicks(src, n, destDiv, n)| == |PulseTicks(src, 0, n)| <==>
      forall i: nat | i < n && ((i + 1) % destDiv == 0 || i == n - 1) ::
        |WindowTicks(src, destDiv, i)| <= 1
  {
    BalanceIffSpaced(src, n, destDiv);
    PulsesAreCounted(src, 0, n);
    DeliveredIsCounted(src, n, destDiv, n);
    forall i: nat | i < n { WindowIsCounted(src, destDiv, i); }
  }

  // ---------- two-phase handshake ----------

  /** The two ends of the link with their synchroniser registers. */
  datatype Link = Link(
    request: bool, acknowledge: bool,
    requestSync1: bool, requestSync2: bool,
    acknowledgeSync1: bool, acknowledgeSync2: bool,
    submitted: nat,
    held: Word,
    taken: seq<Word>)                         // words the destination has stored

  /** One source clock: advance the acknowledge, then submit a word if the link is idle. */
  function SourceTick(s: Link, words: seq<Word>, n: nat): Link
    requires n <= |words|
  {
    var a := s.(acknowledgeSync2 := s.acknowledgeSync1, acknowledgeSync1 := s.acknowledge);
    if a.request == a.acknowledgeSync2 && a.submitted < n
    then a.(held := words[a.submitted], submitted := a.submitted + 1, request := !a.request)
    else a
  }

  /** One destination clock: advance the request, then take the word if it toggled. */
  function DestTick(s: Link): Link {
    var a := s.(requestSync2 := s.requestSync1, requestSync1 := s.request);
    if a.requestSync2 != a.acknowledge
    then a.(taken := a.taken + [a.held], acknowledge := a.requestSync2)
    else a
  }

  function Tick(s: Link, words: seq<Word>, n: nat, dest: bool): Link
    requires n <= |words|
  {
    var a := SourceTick(s, words, n);
    if dest then DestTick(a) else a
  }

  const IDLE := Link(false, false, false, false, false, false, 0, 0, [])

  /** The link under any destination clock: dests[i] says whether tick i clocks it. */
  function Run(words: seq<Word>, n: nat, dests: seq<bool>): Link
    requires n <= |words|
  {
    if dests == [] then IDLE
    else Tick(Run(words, n, dests[..|dests| - 1]), words, n, dests[|dests| - 1])
  }

  /**
   How far the last toggle has travelled: 1 request toggled, 2 first request register,
   3 taken and acknowledged, 4 first acknowledge register, 0 back at the source.
   */
  function Phase(s: Link): nat {
    if s.request != s.requestSync1 then 1
    else if s.requestSync1 != s.acknowledge then 2
    else if s.acknowledge != s.acknowledgeSync1 then 3
    else if s.acknowledgeSync1 != s.acknowledgeSync2 then 4
    else 0
  }

  /** At most one toggle travels round the loop of registers. */
  ghost predicate OneWave(s: Link) {
    && s.requestSync2 == s.acknowledge
    && (Phase(s) <= 1 ==> s.requestSync1 == s.acknowledge)
    && (Phase(s) <= 2 ==> s.acknowledge == s.acknowledgeSync1)
    && (Phase(s) <= 3 ==> s.acknowledgeSync1 == s.acknowledgeSync2)
  }

  ghost predicate Inv(s: Link, words: seq<Word>, n: nat)
    requires n <= |words|
  {
    && OneWave(s)
    && s.submitted <= n
    && s.submitted == |s.taken| + (if Phase(s) == 1 || Phase(s) == 2 then 1 else 0)
    && (s.submitted > |s.taken| ==> s.held == words[|s.taken|])
    && s.taken <= words
  }

  lemma TickKeepsInv(s: Link, words: seq<Word>, n: nat, dest: bool)
    requires n <= |words| && Inv(s, words, n)
    ensures Inv(SourceTick(s, words, n), words, n)
    ensures Inv(Tick(s, words, n, dest), words, n)
    ensures s.taken <= Tick(s, words, n, dest).taken
    ensures Tick(s, words, n, dest).submitted >= s.submitted
  {
    var a := SourceTick(s, words, n);
    assert Inv(a, words, n);
    assert DestTick(a).taken <= words;
  }

  lemma {:induction false} RunKeepsInv(words: seq<Word>, n: nat, dests: seq<bool>)
    requires n <= |words|
    ensures Inv(Run(words, n, dests), words, n)
  {
    if dests != [] {
      RunKeepsInv(words, n, dests[..|dests| - 1]);
      TickKeepsInv(Run(words, n, dests[..|dests| - 1]), words, n, dests[|dests| - 1]);
    }
  }

  /** Whatever the destination clock, words arrive in order and at most one is in flight. */
  lemma ArrivesInOrder(words: seq<Word>, n: nat, dests: seq<bool>)
    requires n <= |words|
    ensures var s := Run(words, n, dests);
      && |s.taken| <= s.submitted <= |s.taken| + 1
      && |s.taken| <= n && s.taken <= words
  {
    RunKeepsInv(words, n, dests);
  }

  /** From the request toggle to its acknowledgement the held word does not change. */
  lemma HeldUntilAcknowledged(words: seq<Word>, n: nat, dests: seq<bool>, dest: bool)
    requires n <= |words|
    requires var s := Run(words, n, dests); s.request != s.acknowledge
    ensures var s := Run(words, n, dests);
      && |s.taken| < n && s.held == words[|s.taken|]
      && Tick(s, words, n, dest).held == s.held
      && Tick(s, words, n, dest).request == s.request
  {
    RunKeepsInv(words, n, dests);
  }

  ghost predicate Finished(s: Link, n: nat) {
    |s.taken| >= n && s.acknowledgeSync2 == s.request
  }

  /**
   Words taken per round of the tick counter. A round is 2^32 = 6 * WORDS_PER_ROUND - 2
   ticks; its last tick and the next one, at counter value 0, both clock the destination,
   which brings the schedule two ticks forward.
   */
  const WORDS_PER_ROUND: nat := 715827883

  /** Where a transfer of n words is when the counter, in the given round, reads ticks. */
  ghost predicate OnSchedule(s: Link, n: nat, round: nat, ticks: Word) {
    && |s.taken| == round * WORDS_PER_ROUND + ticks / 6
    && (if round == n / WORDS_PER_ROUND then ticks <= 6 * (n % WORDS_PER_ROUND) + 2
        else round < n / WORDS_PER_ROUND)
    && Phase(s) ==
       (if round == n / WORDS_PER_ROUND && ticks == 6 * (n % WORDS_PER_ROUND) + 2 then 0
        else if (round == 0 && ticks <= 2) || ticks % 6 == 2 then 1
        else if ticks % 6 == 0 then 3
        else if ticks % 6 == 1 then 4
        else 2)
  }

  lemma SixthsOfNext(t: nat)
    ensures (t + 1) / 6 == if t % 6 == 5 then t / 6 + 1 else t / 6
    ensures (t + 1) % 6 == if t % 6 == 5 then 0 else t % 6 + 1
    ensures (t + 1) % 3 == 0 <==> t % 6 == 2 || t % 6 == 5
  {
    var q, r := DivMod(t, 6);
    if r == 5 {
      QuotientUnique(t + 1, 6, q + 1, 0);
      QuotientUnique(t + 1, 3, 2 * q + 2, 0);
    } else {
      QuotientUnique(t + 1, 6, q, r + 1);
      QuotientUnique(t + 1, 3, if r < 2 then 2 * q else 2 * q + 1, if r < 2 then r + 1 else r - 2);
    }
  }

  /** The schedule before the first tick, and after it. */
  ghost predicate Timed(s: Link, n: nat, round: nat, ticks: Word) {
    if round == 0 && ticks == 0 then |s.taken| == 0 && Phase(s) == 0
    else n > 0 && OnSchedule(s, n, round, ticks)
  }

  lemma TickStaysOnSchedule(s: Link, words: seq<Word>, n: nat, round: nat, ticks: Word)
    requires n <= |words| && Inv(s, words, n) && !Finished(s, n) && Timed(s, n, round, ticks)
    requires ticks + 1 < TWO_32
    ensures Timed(Tick(s, words, n, (ticks + 1) % 3 == 0), n, round, ticks + 1)
  {
    var q, r := DivMod(n, WORDS_PER_ROUND);
    SixthsOfNext(ticks);
  }

  /** The tick on which the counter wraps clocks the destination and starts a new round. */
  lemma WrapStaysOnSchedule(s: Link, words: seq<Word>, n: nat, round: nat)
    requires n <= |words| && Inv(s, words, n) && !Finished(s, n) && Timed(s, n, round, TWO_32 - 1)
    ensures Timed(Tick(s, words, n, true), n, round + 1, 0)
  {
    var q, r := DivMod(n, WORDS_PER_ROUND);
  }

  /** The link after t ticks when the wrapping counter clocks the destination every third. */
  function After(words: seq<Word>, n: nat, t: nat): Link
    requires n <= |words|
  {
    if t == 0 then IDLE
    else Tick(After(words, n, t - 1), words, n, t % TWO_32 % 3 == 0)
  }

  ghost predicate Unfinished(words: seq<Word>, n: nat, t: nat)
    requires n <= |words|
  {
    forall i: nat | i < t :: !Finished(After(words, n, i), n)
  }

  lemma NextTick(t: nat)
    ensures if t % TWO_32 + 1 == TWO_32
            then (t + 1) / TWO_32 == t / TWO_32 + 1 && (t + 1) % TWO_32 == 0
            else (t + 1) / TWO_32 == t / TWO_32 && (t + 1) % TWO_32 == t % TWO_32 + 1
  {
    var q, r := DivMod(t, TWO_32);
    if r + 1 == TWO_32 {
      QuotientUnique(t + 1, TWO_32, q + 1, 0);
    } else {
      QuotientUnique(t + 1, TWO_32, q, r + 1);
    }
  }

  lemma TickStaysTimed(s: Link, words: seq<Word>, n: nat, t: nat)
    requires n <= |words| && Inv(s, words, n) && !Finished(s, n) && Timed(s, n, t / TWO_32, t % TWO_32)
    ensures Timed(Tick(s, words, n, (t + 1) % TWO_32 % 3 == 0), n, (t + 1) / TWO_32, (t + 1) % TWO_32)
  {
    var round, ticks := DivMod(t, TWO_32);
    NextTick(t);
    if ticks + 1 < TWO_32 {
      TickStaysOnSchedule(s, words, n, round, ticks);
    } else {
      WrapStaysOnSchedule(s, words, n, round);
    }
  }

  /** On schedule after t ticks, with the invariant. */
  ghost predicate AtTick(s: Link, words: seq<Word>, n: nat, t: nat)
    requires n <= |words|
  {
    Inv(s, words, n) && Timed(s, n, t / TWO_32, t % TWO_32)
  }

  /** Tick number t' of an unfinished transfer leads from s to s'. */
  ghost predicate Ticked(s: Link, s': Link, words: seq<Word>, n: nat, t': nat)
    requires n <= |words|
  {
    !Finished(s, n) && s' == Tick(s, words, n, t' % TWO_32 % 3 == 0)
  }

  lemma NextAtTick(s: Link, words: seq<Word>, n: nat, t: nat, s': Link, t': nat)
    requires n <= |words| && AtTick(s, words, n, t) && t' == t + 1 && Ticked(s, s', words, n, t')
    ensures AtTick(s', words, n, t')
  {
    TickKeepsInv(s, words, n, t' % TWO_32 % 3 == 0);
    TickStaysTimed(s, words, n, t);
  }

  lemma AfterNext(words: seq<Word>, n: nat, t: nat)
    requires n <= |words|
    ensures After(words, n, t + 1) == Tick(After(words, n, t), words, n, (t + 1) % TWO_32 % 3 == 0)
  {
  }

  lemma StartAtTick(words: seq<Word>, n: nat)
    requires n <= |words|
    ensures AtTick(IDLE, words, n, 0)
  {
    assert Phase(IDLE) == 0;
  }

  /** An unfinished run of the link under the wrapping counter, up to tick t. */
  ghost predicate Follows(run: nat -> Link, words: seq<Word>, n: nat, t: nat)
    requires n <= |words|
  {
    run(0) == IDLE && forall i: nat | i < t :: Ticked(run(i), run(i + 1), words, n, i + 1)
  }

  lemma {:induction false} FollowsOnTime(run: nat -> Link, words: seq<Word>, n: nat, t: nat)
    requires n <= |words| && Follows(run, words, n, t)
    ensures AtTick(run(t), words, n, t)
  {
    if t == 0 {
      StartAtTick(words, n);
    } else {
      FollowsOnTime(run, words, n, t - 1);
      assert run(t - 1 + 1) == run(t);
      NextAtTick(run(t - 1), words, n, t - 1, run(t), t);
    }
  }

  lemma AfterTicked(words: seq<Word>, n: nat, t: nat, i: nat)
    requires n <= |words| && Unfinished(words, n, t) && i < t
    ensures Ticked(After(words, n, i), After(words, n, i + 1), words, n, i + 1)
  {
    AfterNext(words, n, i);
  }

  lemma AfterIsTimed(words: seq<Word>, n: nat, t: nat)
    requires n <= |words| && Unfinished(words, n, t)
    ensures AtTick(After(words, n, t), words, n, t)
  {
    var run: nat -> Link := (i: nat) => After(words, n, i);
    forall i: nat | i < t ensures Ticked(run(i), run(i + 1), words, n, i + 1) {
      AfterTicked(words, n, t, i);
    }
    FollowsOnTime(run, words, n, t);
  }

  lemma EndOfSchedule(s: Link, words: seq<Word>, n: nat, round: nat, ticks: Word)
    requires n <= |words| && n > 0 && Inv(s, words, n) && Finished(s, n) && Timed(s, n, round, ticks)
    ensures ticks == 6 * (n % WORDS_PER_ROUND) + 2
  {
  }

  lemma EndAtTick(s: Link, words: seq<Word>, n: nat, t: nat)
    requires n <= |words| && AtTick(s, words, n, t)
    requires |s.taken| >= n && s.acknowledgeSync2 == s.request
    ensures s.taken == words[..n] && t % TWO_32 == if n == 0 then 0 else 6 * (n % 715827883) + 2
    ensures n >= 1 ==> (t % TWO_32 == 6 * n + 2 <==> 6 * n + 2 < TWO_32)
  {
    var q, r := DivMod(n, WORDS_PER_ROUND);
    if n > 0 { EndOfSchedule(s, words, n, t / TWO_32, t % TWO_32); }
  }

  /** The counter when the link first is finished: 6n + 2 if that fits it, and exactly this otherwise. */
  lemma FinishesOnTime(words: seq<Word>, n: nat, t: nat)
    requires n <= |words| && Unfinished(words, n, t) && Finished(After(words, n, t), n)
    ensures After(words, n, t).taken == words[..n]
    ensures t % TWO_32 == if n == 0 then 0 else 6 * (n % 715827883) + 2
    ensures n >= 1 ==> (t % TWO_32 == 6 * n + 2 <==> 6 * n + 2 < TWO_32)
  {
    AfterIsTimed(words, n, t);
    EndAtTick(After(words, n, t), words, n, t);
  }

  /** Ticks until the wrapping counter is next divisible by 3. */
  function Wait(ticks: Word): nat {
    if ticks == TWO_32 - 1 then 1 else 3 - ticks % 3
  }

  /** Register stages left in the current round trip. */
  function Rank(s: Link): nat {
    if Phase(s) == 0 then 0 else 5 - Phase(s)
  }

  /** A word more is submitted, the toggle is further on, or the destination clock is nearer. */
  ghost predicate Closer(s': Link, ticks': Word, s: Link, ticks: Word) {
    || s'.submitted > s.submitted
    || (s'.submitted == s.submitted && Rank(s') < Rank(s))
    || (s'.submitted == s.submitted && Rank(s') == Rank(s) && Wait(ticks') < Wait(ticks))
  }

  /** Each tick submits a word, moves the toggle on, or brings the destination clock nearer. */
  lemma TickProgresses(s: Link, words: seq<Word>, n: nat, ticks: Word, s': Link, ticks': Word)
    requires n <= |words| && Inv(s, words, n) && !Finished(s, n)
    requires ticks' == (ticks + 1) % TWO_32 && s' == Tick(s, words, n, ticks' % 3 == 0)
    ensures Closer(s', ticks', s, ticks)
  {
  }

  /** The running transfer has reached s, and the wrapped tick counter reads `ticks`. */
  ghost predicate Reached(s: Link, words: seq<Word>, n: nat, ticks: Word)
    requires n <= |words|
  {
    exists t: nat :: ticks == t % TWO_32 && s == After(words, n, t) && Unfinished(words, n, t)
  }

  lemma ReachedStart(words: seq<Word>, n: nat)
    requires n <= |words|
    ensures Reached(IDLE, words, n, 0)
  {
    assert IDLE == After(words, n, 0) && Unfinished(words, n, 0);
  }

  lemma ReachedInv(s: Link, words: seq<Word>, n: nat, ticks: Word)
    requires n <= |words| && Reached(s, words, n, ticks)
    ensures Inv(s, words, n) && Inv(SourceTick(s, words, n), words, n)
  {
    var t: nat :| ticks == t % TWO_32 && s == After(words, n, t) && Unfinished(words, n, t);
    AfterIsTimed(words, n, t);
    TickKeepsInv(s, words, n, true);
  }

  lemma ReachedNext(s: Link, words: seq<Word>, n: nat, ticks: Word, s': Link, ticks': Word)
    requires n <= |words| && Reached(s, words, n, ticks) && !Finished(s, n)
    requires ticks' == (ticks + 1) % TWO_32 && s' == Tick(s, words, n, ticks' % 3 == 0)
    ensures Reached(s', words, n, ticks')
  {
    var t: nat :| ticks == t % TWO_32 && s == After(words, n, t) && Unfinished(words, n, t);
    ModOfNext(t, TWO_32);
    AfterNext(words, n, t);
    assert After(words, n, t + 1) == s' && Unfinished(words, n, t + 1);
  }

  /** Room for the word that the next tick may store. */
  lemma RoomForWord(s: Link, words: seq<Word>, n: nat, ticks: Word)
    requires n <= |words| && Reached(s, words, n, ticks)
    ensures var a := SourceTick(s, words, n);
      a.taken == s.taken && |DestTick(a).taken| <= n
  {
    ReachedInv(s, words, n, ticks);
    TickKeepsInv(s, words, n, true);
  }

  /** What one turn of the transfer loop keeps, and why the loop ends. */
  lemma TurnOfLoop(s: Link, words: seq<Word>, n: nat, ticks: Word, s': Link, ticks': Word)
    requires n <= |words| && Reached(s, words, n, ticks) && !Finished(s, n)
    requires ticks' == (ticks + 1) % TWO_32 && s' == Tick(s, words, n, ticks' % 3 == 0)
    ensures Reached(s', words, n, ticks') && |s'.taken| <= n && s'.submitted <= n
    ensures Closer(s', ticks', s, ticks)
  {
    ReachedInv(s, words, n, ticks);
    ReachedNext(s, words, n, ticks, s', ticks');
    ReachedInv(s', words, n, ticks');
    TickProgresses(s, words, n, ticks, s', ticks');
  }

  lemma EndOfLoop(s: Link, words: seq<Word>, n: nat, ticks: Word)
    requires n <= |words| && Reached(s, words, n, ticks) && Finished(s, n) && |s.taken| <= n
    ensures s.taken == words[..n] && ticks == if n == 0 then 0 else 6 * (n % 715827883) + 2
    ensures n >= 1 ==> (ticks == 6 * n + 2 <==> 6 * n + 2 < TWO_32)
  {
    var t: nat :| ticks == t % TWO_32 && s == After(words, n, t) && Unfinished(words, n, t);
    FinishesOnTime(words, n, t);
  }

  /** The words taken are at the front of the output. */
  ghost predicate Stored(out: array<Word>, taken: seq<Word>)
    reads out
  {
    |taken| <= out.Length && out[..|taken|] == taken
  }

  class Handshake {
    var ticks: Word

    /** The destination's part of a tick: the word that has arrived, if any, goes to out. */
    static method TickDestination(s: Link, out: array<Word>) returns (s': Link)
      requires Stored(out, s.taken) && |DestTick(s).taken| <= out.Length
      modifies out
      ensures s' == DestTick(s) && Stored(out, s'.taken)
      ensures forall i | |s'.taken| <= i < out.Length :: out[i] == old(out[i])
    {
      s' := s.(requestSync2 := s.requestSync1, requestSync1 := s.request);
      if s'.requestSync2 != s'.acknowledge {
        out[|s.taken|] := s'.held;
        s' := s'.(taken := s.taken + [s'.held], acknowledge := s'.requestSync2);
        assert out[..|s.taken| + 1] == out[..|s.taken|] + [s.held];
      }
    }

    /** One turn of the loop: a source tick, and on every third count a destination tick. */
    method Turn(words: seq<Word>, n: nat, s: Link, out: array<Word>) returns (s': Link)
      requires n <= |words| && n <= out.Length && Stored(out, s.taken)
      requires Reached(s, words, n, ticks) && !Finished(s, n)
      modifies this, out
      ensures Stored(out, s'.taken) && |s'.taken| <= n && s'.submitted <= n
      ensures forall i | n <= i < out.Length :: out[i] == old(out[i])
      ensures Reached(s', words, n, ticks) && Closer(s', ticks, s, old(ticks))
    {
      RoomForWord(s, words, n, ticks);
      s' := s.(acknowledgeSync2 := s.acknowledgeSync1, acknowledgeSync1 := s.acknowledge);
      if s'.request == s'.acknowledgeSync2 && s'.submitted < n {
        s' := s'.(held := words[s'.submitted], submitted := s'.submitted + 1, request := !s'.request);
      }
      ticks := (ticks + 1) % TWO_32;
      if ticks % 3 == 0 { s' := TickDestination(s', out); }
      TurnOfLoop(s, words, n, old(ticks), s', ticks);
    }

    /** Sends words[..n] over the link; the counter says how many ticks that took. */
    method Transfer(words: seq<Word>, n: int, out: array<Word>) returns (r: int)
      requires n <= |words| && n <= out.Length
      modifies this, out
      ensures n < 0 ==> r == -1 && ticks == old(ticks) && out[..] == old(out[..])
      ensures n >= 0 ==>
        && r == n && out[..n] == words[..n]
        && forall i | n <= i < out.Length :: out[i] == old(out[i])
      ensures n >= 0 ==> ticks == if n == 0 then 0 else 6 * (n % 715827883) + 2
      ensures n >= 1 ==> (ticks == 6 * n + 2 <==> 6 * n + 2 < TWO_32)
    {
      if n < 0 { return -1; }
      var s := IDLE;                          // received is the number of words taken
      ticks := 0;
      ReachedStart(words, n);
      while |s.taken| < n || s.acknowledgeSync2 != s.request
        invariant Stored(out, s.taken) && |s.taken| <= n
        invariant forall i | n <= i < out.Length :: out[i] == old(out[i])
        invariant Reached(s, words, n, ticks) && s.submitted <= n
        decreases n - s.submitted, Rank(s), Wait(ticks)
      {
        s := Turn(words, n, s, out);
      }
      EndOfLoop(s, words, n, ticks);
      return |s.taken|;
    }
  }
}
