/**
 The set-associative cache with least-recently-used replacement. Each way stores the value
 of the access clock at its last use; the smallest of these ages picks the victim.
 */
module CacheSim {
  import opened Pigeonhole
  import opened Words

  const SETS: nat := 8
  const WAYS: nat := 4
  const LINE_SIZE: nat := 64

  datatype Line = Line(valid: bool, tag: Word, age: Word)

  const EMPTY_LINE := Line(false, 0, 0)

  datatype State = State(sets: seq<seq<Line>>, clock: Word, hits: Word, misses: Word) {
    predicate WellFormed() {
      |sets| == SETS && forall i | 0 <= i < SETS :: |sets[i]| == WAYS
    }
  }

  function LineOf(addr: Word): nat { addr / LINE_SIZE }

  function SetOf(addr: Word): nat { LineOf(addr) % SETS }

  function TagOf(addr: Word): Word { LineOf(addr) / SETS }

  /** The line that a tag stands for in a set. */
  function LineAt(set_: nat, tag: nat): nat { tag * SETS + set_ }

  predicate Holds(ways: seq<Line>, tag: Word, way: nat) {
    way < |ways| && ways[way].valid && ways[way].tag == tag
  }

  predicate Resident(ways: seq<Line>, tag: Word) {
    exists way: nat :: way < |ways| && Holds(ways, tag, way)
  }

  /** The first way from `way` on that holds the tag, or |ways|. */
  function Lookup(ways: seq<Line>, tag: Word, way: nat): (found: nat)
    requires way <= |ways|
    ensures way <= found <= |ways|
    ensures found < |ways| ==> Holds(ways, tag, found)
    ensures forall w: nat | way <= w < found :: !Holds(ways, tag, w)
    decreases |ways| - way
  {
    if way == |ways| || Holds(ways, tag, way) then way else Lookup(ways, tag, way + 1)
  }

  /** The victim is the first invalid way, or else the first of the ways of least age. */
  ghost predicate IsVictim(ways: seq<Line>, v: nat) {
    && v < |ways|
    && (forall w | 0 <= w < v :: ways[w].valid)
    && (ways[v].valid ==> forall w | 0 <= w < |ways| ::
          ways[w].valid && if w < v then ways[v].age < ways[w].age else ways[v].age <= ways[w].age)
  }

  /** The victim search from `way` on, with the first oldest way before it. */
  function VictimFrom(ways: seq<Line>, way: nat, victim: nat): (v: nat)
    requires victim < |ways| && way <= |ways| && (victim < way || victim == 0)
    requires forall w | 0 <= w < way :: ways[w].valid && ways[victim].age <= ways[w].age
    requires forall w | 0 <= w < victim :: ways[victim].age < ways[w].age
    ensures IsVictim(ways, v)
    decreases |ways| - way
  {
    if way == |ways| then victim
    else if !ways[way].valid then way
    else if ways[way].age < ways[victim].age then VictimFrom(ways, way + 1, way)
    else VictimFrom(ways, way + 1, victim)
  }

  predicate Hit(s: State, addr: Word)
    requires s.WellFormed()
  {
    Lookup(s.sets[SetOf(addr)], TagOf(addr), 0) < WAYS
  }

  /** The ways after a miss: the victim now holds the accessed line. */
  function Replaced(ways: seq<Line>, tag: Word, now: Word): (ways': seq<Line>)
    requires |ways| > 0
    ensures |ways'| == |ways|
  {
    ways[VictimFrom(ways, 0, 0) := Line(true, tag, now)]
  }

  /** The ways of a set after a use of the tag at time `now`. */
  function UseTag(ways: seq<Line>, tag: Word, now: Word): (ways': seq<Line>)
    requires |ways| == WAYS
    ensures |ways'| == WAYS
  {
    var found := Lookup(ways, tag, 0);
    if found < WAYS then ways[found := ways[found].(age := now)] else Replaced(ways, tag, now)
  }

  function Access(s: State, addr: Word): (s': State)
    requires s.WellFormed()
    ensures s'.WellFormed()
  {
    var now := (s.clock + 1) % TWO_32;
    var set_ := SetOf(addr);
    State(s.sets[set_ := UseTag(s.sets[set_], TagOf(addr), now)], now,
          if Hit(s, addr) then (s.hits + 1) % TWO_32 else s.hits,
          if Hit(s, addr) then s.misses else (s.misses + 1) % TWO_32)
  }

  const EMPTY_SET := [EMPTY_LINE, EMPTY_LINE, EMPTY_LINE, EMPTY_LINE]

  const EMPTY := State([EMPTY_SET, EMPTY_SET, EMPTY_SET, EMPTY_SET,
                        EMPTY_SET, EMPTY_SET, EMPTY_SET, EMPTY_SET], 0, 0, 0)

  /** The cache after a whole access history. */
  function Run(addrs: seq<Word>): (s: State)
    ensures s.WellFormed()
  {
    if addrs == [] then EMPTY else Access(Run(addrs[..|addrs| - 1]), addrs[|addrs| - 1])
  }

  // ---------- the access history ----------

  /** When the line was last accessed, counting accesses from 1; 0 if never. */
  function LastUse(addrs: seq<Word>, line: nat): (t: nat)
    ensures t <= |addrs|
    ensures t > 0 ==> LineOf(addrs[t - 1]) == line
    ensures forall i | t <= i < |addrs| :: LineOf(addrs[i]) != line
  {
    if addrs == [] then 0
    else if LineOf(addrs[|addrs| - 1]) == line then |addrs|
    else LastUse(addrs[..|addrs| - 1], line)
  }

  /** The distinct other lines of the same set accessed after the last access to the line. */
  function Since(addrs: seq<Word>, line: nat): set<nat> {
    if addrs == [] then {}
    else
      var last := LineOf(addrs[|addrs| - 1]);
      if last == line then {}
      else (if last % SETS == line % SETS then {last} else {}) + Since(addrs[..|addrs| - 1], line)
  }

  lemma {:induction false} SinceIsMoreRecent(addrs: seq<Word>, line: nat, other: nat)
    ensures other in Since(addrs, line) <==>
      other % SETS == line % SETS && LastUse(addrs, other) > LastUse(addrs, line)
  {
    if addrs != [] {
      SinceIsMoreRecent(addrs[..|addrs| - 1], line, other);
    }
  }

  // ---------- ages are last uses ----------

  ghost predicate AgesAreLastUses(ways: seq<Line>, set_: nat, addrs: seq<Word>) {
    forall w | 0 <= w < |ways| && ways[w].valid ::
      ways[w].age == LastUse(addrs, LineAt(set_, ways[w].tag)) > 0
  }

  ghost predicate TagsDistinct(ways: seq<Line>) {
    forall v, w | 0 <= v < w < |ways| && ways[v].valid && ways[w].valid :: ways[v].tag != ways[w].tag
  }

  /** Every way is valid and was used after the line of the tag. */
  ghost predicate AllNewer(ways: seq<Line>, set_: nat, addrs: seq<Word>, tag: Word) {
    forall w | 0 <= w < |ways| :: ways[w].valid && LastUse(addrs, LineAt(set_, tag)) < ways[w].age
  }

  ghost predicate AbsentAreOlder(ways: seq<Line>, set_: nat, addrs: seq<Word>) {
    forall tag: Word | LastUse(addrs, LineAt(set_, tag)) > 0 && !Resident(ways, tag) ::
      AllNewer(ways, set_, addrs, tag)
  }

  /** What the ways of one set say about the history. */
  ghost predicate SetInv(ways: seq<Line>, set_: nat, addrs: seq<Word>) {
    && |ways| == WAYS
    && AgesAreLastUses(ways, set_, addrs)
    && TagsDistinct(ways)
    && AbsentAreOlder(ways, set_, addrs)
  }

  ghost predicate Inv(s: State, addrs: seq<Word>) {
    && s.WellFormed()
    && s.clock == |addrs| < TWO_32
    && s.hits + s.misses == s.clock
    && forall i | 0 <= i < SETS :: SetInv(s.sets[i], i, addrs)
  }

  lemma LineAtSplits(set_: nat, tag: nat)
    requires set_ < SETS
    ensures LineAt(set_, tag) % SETS == set_ && LineAt(set_, tag) / SETS == tag
  {
  }

  lemma OtherSetKeepsInv(ways: seq<Line>, set_: nat, addrs: seq<Word>, addr: Word)
    requires set_ < SETS && set_ != SetOf(addr) && SetInv(ways, set_, addrs)
    ensures SetInv(ways, set_, addrs + [addr])
  {
    assert (addrs + [addr])[..|addrs|] == addrs;
    forall tag: nat ensures LastUse(addrs + [addr], LineAt(set_, tag)) == LastUse(addrs, LineAt(set_, tag)) {
      LineAtSplits(set_, tag);
    }
  }

  lemma LastUseAfter(addrs: seq<Word>, addr: Word, tag: nat)
    ensures LastUse(addrs + [addr], LineAt(SetOf(addr), tag)) ==
      if tag == TagOf(addr) then |addrs| + 1 else LastUse(addrs, LineAt(SetOf(addr), tag))
  {
    assert (addrs + [addr])[..|addrs|] == addrs;
    LineAtSplits(SetOf(addr), tag);
  }

  lemma UseFoundKeepsInv(ways: seq<Line>, addrs: seq<Word>, addr: Word, found: nat)
    requires |addrs| + 1 < TWO_32 && SetInv(ways, SetOf(addr), addrs)
    requires found < WAYS && Holds(ways, TagOf(addr), found)
    ensures SetInv(ways[found := ways[found].(age := |addrs| + 1)], SetOf(addr), addrs + [addr])
  {
    var ways' := ways[found := ways[found].(age := |addrs| + 1)];
    forall tag: nat { LastUseAfter(addrs, addr, tag); }
    forall tag: Word ensures Resident(ways', tag) <==> Resident(ways, tag) {
      forall w: nat ensures Holds(ways', tag, w) == Holds(ways, tag, w) {}
    }
    assert Resident(ways, TagOf(addr));
  }

  lemma ReplacedAges(ways: seq<Line>, addrs: seq<Word>, addr: Word)
    requires |addrs| + 1 < TWO_32 && SetInv(ways, SetOf(addr), addrs)
    requires !Resident(ways, TagOf(addr))
    ensures AgesAreLastUses(Replaced(ways, TagOf(addr), |addrs| + 1), SetOf(addr), addrs + [addr])
    ensures TagsDistinct(Replaced(ways, TagOf(addr), |addrs| + 1))
  {
    forall w | 0 <= w < WAYS && ways[w].valid ensures ways[w].tag != TagOf(addr) {
      assert Holds(ways, TagOf(addr), w) <==> ways[w].tag == TagOf(addr);
    }
    forall tag: nat { LastUseAfter(addrs, addr, tag); }
  }

  /** A line that is absent after the replacement was used before everything that stayed. */
  lemma EvictedIsOldest(ways: seq<Line>, set_: nat, addrs: seq<Word>, tag: Word, w: nat)
    requires SetInv(ways, set_, addrs) && LastUse(addrs, LineAt(set_, tag)) > 0
    requires w < WAYS && w != VictimFrom(ways, 0, 0)
    requires Resident(ways, tag) ==> Holds(ways, tag, VictimFrom(ways, 0, 0))
    ensures ways[w].valid && LastUse(addrs, LineAt(set_, tag)) < ways[w].age
  {
    if !Resident(ways, tag) { assert AllNewer(ways, set_, addrs, tag); }
  }

  lemma OnlyVictimHeld(ways: seq<Line>, tag: Word, stored: Line)
    requires |ways| == WAYS && Resident(ways, tag)
    requires !Resident(ways[VictimFrom(ways, 0, 0) := stored], tag)
    ensures Holds(ways, tag, VictimFrom(ways, 0, 0))
  {
    var v: nat :| v < |ways| && Holds(ways, tag, v);
    assert !Holds(ways[VictimFrom(ways, 0, 0) := stored], tag, v);
  }

  /** A way of the set stays valid, with an age past the last use of a line that is absent afterwards. */
  lemma StaysAheadOfAbsent(ways: seq<Line>, addrs: seq<Word>, addr: Word, tag: Word, w: nat)
    requires |addrs| + 1 < TWO_32 && SetInv(ways, SetOf(addr), addrs) && w < WAYS
    requires LastUse(addrs + [addr], LineAt(SetOf(addr), tag)) > 0
    requires !Resident(Replaced(ways, TagOf(addr), |addrs| + 1), tag)
    ensures var ways' := Replaced(ways, TagOf(addr), |addrs| + 1);
      ways'[w].valid && LastUse(addrs + [addr], LineAt(SetOf(addr), tag)) < ways'[w].age
  {
    var victim, stored := VictimFrom(ways, 0, 0), Line(true, TagOf(addr), |addrs| + 1);
    LastUseAfter(addrs, addr, tag);
    assert !Holds(ways[victim := stored], tag, victim);
    if w != victim {
      if Resident(ways, tag) { OnlyVictimHeld(ways, tag, stored); }
      EvictedIsOldest(ways, SetOf(addr), addrs, tag, w);
    }
  }

  lemma ReplacedAbsent(ways: seq<Line>, addrs: seq<Word>, addr: Word)
    requires |addrs| + 1 < TWO_32 && SetInv(ways, SetOf(addr), addrs)
    ensures AbsentAreOlder(Replaced(ways, TagOf(addr), |addrs| + 1), SetOf(addr), addrs + [addr])
  {
    var set_, addrs', ways' := SetOf(addr), addrs + [addr], Replaced(ways, TagOf(addr), |addrs| + 1);
    forall tag: Word | LastUse(addrs', LineAt(set_, tag)) > 0 && !Resident(ways', tag)
      ensures AllNewer(ways', set_, addrs', tag)
    {
      forall w | 0 <= w < WAYS
        ensures ways'[w].valid && LastUse(addrs', LineAt(set_, tag)) < ways'[w].age
      {
        StaysAheadOfAbsent(ways, addrs, addr, tag, w);
      }
    }
  }

  lemma UseKeepsInv(ways: seq<Line>, addrs: seq<Word>, addr: Word)
    requires |addrs| + 1 < TWO_32 && SetInv(ways, SetOf(addr), addrs)
    ensures SetInv(UseTag(ways, TagOf(addr), |addrs| + 1), SetOf(addr), addrs + [addr])
  {
    var found := Lookup(ways, TagOf(addr), 0);
    if found < WAYS {
      UseFoundKeepsInv(ways, addrs, addr, found);
    } else {
      ReplacedAges(ways, addrs, addr);
      ReplacedAbsent(ways, addrs, addr);
    }
  }

  lemma AccessedSet(s: State, addr: Word, i: nat)
    requires s.WellFormed() && i < SETS
    ensures Access(s, addr).sets[i] ==
      if i == SetOf(addr) then UseTag(s.sets[i], TagOf(addr), (s.clock + 1) % TWO_32) else s.sets[i]
  {
  }

  lemma AccessKeepsSets(s: State, addrs: seq<Word>, addr: Word, i: nat)
    requires Inv(s, addrs) && |addrs| + 1 < TWO_32 && i < SETS
    ensures SetInv(Access(s, addr).sets[i], i, addrs + [addr])
  {
    assert (s.clock + 1) % TWO_32 == |addrs| + 1;
    AccessedSet(s, addr, i);
    if i == SetOf(addr) {
      UseKeepsInv(s.sets[i], addrs, addr);
    } else {
      OtherSetKeepsInv(s.sets[i], i, addrs, addr);
    }
  }

  lemma AccessCounts(s: State, addr: Word)
    requires s.WellFormed() && s.clock + 1 < TWO_32 && s.hits + s.misses == s.clock
    ensures Access(s, addr).clock == s.clock + 1
    ensures Access(s, addr).hits == s.hits + (if Hit(s, addr) then 1 else 0)
    ensures Access(s, addr).misses == s.misses + (if Hit(s, addr) then 0 else 1)
  {
  }

  lemma AccessKeepsInv(s: State, addrs: seq<Word>, addr: Word)
    requires Inv(s, addrs) && |addrs| + 1 < TWO_32
    ensures Inv(Access(s, addr), addrs + [addr])
  {
    AccessCounts(s, addr);
    forall i | 0 <= i < SETS ensures SetInv(Access(s, addr).sets[i], i, addrs + [addr]) {
      AccessKeepsSets(s, addrs, addr, i);
    }
  }

  lemma {:induction false} RunKeepsInv(addrs: seq<Word>)
    requires |addrs| < TWO_32
    ensures Inv(Run(addrs), addrs)
  {
    if addrs == [] {
      forall i | 0 <= i < SETS ensures SetInv(EMPTY.sets[i], i, addrs) {}
    } else {
      var last := |addrs| - 1;
      RunKeepsInv(addrs[..last]);
      AccessKeepsInv(Run(addrs[..last]), addrs[..last], addrs[last]);
      assert addrs[..last] + [addrs[last]] == addrs;
    }
  }

  // ---------- what holds in every run ----------

  lemma CounterWraps(a: Word, b: Word)
    ensures ((a + 1) % TWO_32 + b) % TWO_32 == ((a + b) % TWO_32 + 1) % TWO_32
  {
    ModOfSum(a + 1, b, TWO_32);
    ModOfNext(a + b, TWO_32);
  }

  lemma CountersStep(s: State, addr: Word)
    requires s.WellFormed() && (s.hits + s.misses) % TWO_32 == s.clock
    ensures var t := Access(s, addr);
      (t.hits + t.misses) % TWO_32 == t.clock == (s.clock + 1) % TWO_32
  {
    CounterWraps(s.hits, s.misses);
    CounterWraps(s.misses, s.hits);
  }

  /** Hits and misses account for every access, as far as the wrapping counters can say. */
  lemma {:induction false} CountersBalance(addrs: seq<Word>)
    ensures (Run(addrs).hits + Run(addrs).misses) % TWO_32 == Run(addrs).clock == |addrs| % TWO_32
    ensures |addrs| < TWO_32 ==> Run(addrs).hits + Run(addrs).misses == |addrs|
  {
    if |addrs| < TWO_32 { RunKeepsInv(addrs); }
    if addrs != [] {
      var past := addrs[..|addrs| - 1];
      CountersBalance(past);
      ModOfNext(|past|, TWO_32);
      CountersStep(Run(past), addrs[|addrs| - 1]);
    }
  }

  ghost predicate AgesApart(ways: seq<Line>) {
    forall v, w | 0 <= v < w < |ways| && ways[v].valid && ways[w].valid :: ways[v].age != ways[w].age
  }

  lemma LastUsesApart(ways: seq<Line>, set_: nat, addrs: seq<Word>)
    requires AgesAreLastUses(ways, set_, addrs) && TagsDistinct(ways) && set_ < SETS
    ensures AgesApart(ways)
  {
    forall v, w | 0 <= v < w < |ways| && ways[v].valid && ways[w].valid
      ensures ways[v].age != ways[w].age
    {
      LineAtSplits(set_, ways[v].tag);
      LineAtSplits(set_, ways[w].tag);
      assert ways[v].age == LastUse(addrs, LineAt(set_, ways[v].tag));
    }
  }

  /** The valid ways of a set have distinct ages, so the least age picks one way. */
  lemma AgesDistinct(addrs: seq<Word>, set_: nat)
    requires |addrs| < TWO_32 && set_ < SETS
    ensures AgesApart(Run(addrs).sets[set_])
  {
    RunKeepsInv(addrs);
    LastUsesApart(Run(addrs).sets[set_], set_, addrs);
  }

  // ---------- residency is recency ----------

  lemma HitIsResident(s: State, addr: Word)
    requires s.WellFormed()
    ensures Hit(s, addr) <==> Resident(s.sets[SetOf(addr)], TagOf(addr))
  {
    var found := Lookup(s.sets[SetOf(addr)], TagOf(addr), 0);
    if found < WAYS { assert Holds(s.sets[SetOf(addr)], TagOf(addr), found); }
  }

  /** The line was used, and fewer than WAYS other lines of its set were used since. */
  ghost predicate Recent(addrs: seq<Word>, line: nat) {
    LastUse(addrs, line) > 0 && |Since(addrs, line)| < WAYS
  }

  lemma HistoryNext(past: seq<Word>, x: Word, line: nat)
    ensures LastUse(past + [x], line) == if LineOf(x) == line then |past| + 1 else LastUse(past, line)
    ensures Since(past + [x], line) ==
      if LineOf(x) == line then {}
      else (if LineOf(x) % SETS == line % SETS then {LineOf(x)} else {}) + Since(past, line)
  {
    assert (past + [x])[..|past|] == past;
  }

  /** The lines held by a set. */
  function Lines(ways: seq<Line>, set_: nat): set<nat>
    requires |ways| == WAYS
  {
    {LineAt(set_, ways[0].tag), LineAt(set_, ways[1].tag),
     LineAt(set_, ways[2].tag), LineAt(set_, ways[3].tag)}
  }

  lemma DistinctLines(ways: seq<Line>, set_: nat)
    requires |ways| == WAYS && TagsDistinct(ways) && forall w | 0 <= w < WAYS :: ways[w].valid
    ensures |Lines(ways, set_)| == WAYS
  {
  }

  lemma Holder(ways: seq<Line>, tag: Word) returns (way: nat)
    requires Resident(ways, tag)
    ensures way < |ways| && ways[way].valid && ways[way].tag == tag
  {
    way :| way < |ways| && Holds(ways, tag, way);
  }

  /** A line used since a resident line is resident too, with its later age. */
  lemma SinceHolder(ways: seq<Line>, addrs: seq<Word>, addr: Word, other: nat) returns (way: nat)
    requires SetInv(ways, SetOf(addr), addrs) && Resident(ways, TagOf(addr))
    requires other in Since(addrs, LineOf(addr))
    ensures way < WAYS && ways[way].valid && LineAt(SetOf(addr), ways[way].tag) == other
    ensures ways[way].age > LastUse(addrs, LineOf(addr)) && other != LineOf(addr)
  {
    SinceIsMoreRecent(addrs, LineOf(addr), other);
    assert LineAt(SetOf(addr), TagOf(addr)) == LineOf(addr);
    var tag: Word := TagOf(addrs[LastUse(addrs, other) - 1]);
    assert other == LineAt(SetOf(addr), tag);
    var own := Holder(ways, TagOf(addr));
    assert Resident(ways, tag) || AllNewer(ways, SetOf(addr), addrs, tag);
    way := Holder(ways, tag);
  }

  /** The one way that a use of the tag writes: where it is, or else the victim. */
  ghost function UsedWay(ways: seq<Line>, tag: Word): (used: nat)
    requires |ways| == WAYS
    ensures used < WAYS
  {
    if Lookup(ways, tag, 0) < WAYS then Lookup(ways, tag, 0) else VictimFrom(ways, 0, 0)
  }

  lemma UsedWays(ways: seq<Line>, tag: Word, now: Word)
    requires |ways| == WAYS && TagsDistinct(ways)
    ensures UseTag(ways, tag, now) == ways[UsedWay(ways, tag) := Line(true, tag, now)]
    ensures forall w: nat | w < WAYS && w != UsedWay(ways, tag) :: !Holds(ways, tag, w)
    ensures TagsDistinct(UseTag(ways, tag, now))
  {
    forall w: nat | w < WAYS && w != UsedWay(ways, tag) ensures !Holds(ways, tag, w) {
      if Lookup(ways, tag, 0) < WAYS { assert Holds(ways, tag, Lookup(ways, tag, 0)); }
    }
    var ways' := UseTag(ways, tag, now);
    forall v, w | 0 <= v < w < WAYS && ways'[v].valid && ways'[w].valid
      ensures ways'[v].tag != ways'[w].tag
    {
      assert v != UsedWay(ways, tag) ==> !Holds(ways, tag, v);
      assert w != UsedWay(ways, tag) ==> !Holds(ways, tag, w);
    }
  }

  /** A way newer than one that the use leaves alone is not written, unless it has the tag. */
  lemma NewerIsNotUsed(ways: seq<Line>, tag: Word, kept: nat, w: nat)
    requires |ways| == WAYS && kept < WAYS && kept != UsedWay(ways, tag)
    requires w < WAYS && ways[w].valid && ways[w].age > ways[kept].age
    ensures w == UsedWay(ways, tag) ==> ways[w].tag == tag
  {
  }

  lemma WayInLines(ways: seq<Line>, set_: nat, w: nat)
    requires |ways| == WAYS && w < WAYS
    ensures LineAt(set_, ways[w].tag) in Lines(ways, set_)
  {
  }

  /** A line used since one that a use of x keeps is kept as well. */
  lemma SinceIsKept(ways: seq<Line>, past: seq<Word>, x: Word, now: Word, addr: Word, kept: nat, other: nat)
    requires SetInv(ways, SetOf(x), past) && SetOf(addr) == SetOf(x)
    requires kept < WAYS && kept != UsedWay(ways, TagOf(x)) && Holds(ways, TagOf(addr), kept)
    requires other != LineOf(x) && other in Since(past, LineOf(addr))
    ensures other in Lines(UseTag(ways, TagOf(x), now), SetOf(x))
  {
    assert LineAt(SetOf(x), TagOf(x)) == LineOf(x) && LineAt(SetOf(x), TagOf(addr)) == LineOf(addr);
    var w := SinceHolder(ways, past, addr, other);
    assert ways[kept].age == LastUse(past, LineOf(addr));
    NewerIsNotUsed(ways, TagOf(x), kept, w);
    UsedWays(ways, TagOf(x), now);
    WayInLines(UseTag(ways, TagOf(x), now), SetOf(x), w);
  }

  lemma UsedIsKept(ways: seq<Line>, x: Word, now: Word)
    requires |ways| == WAYS && TagsDistinct(ways)
    ensures LineOf(x) in Lines(UseTag(ways, TagOf(x), now), SetOf(x))
  {
    UsedWays(ways, TagOf(x), now);
    WayInLines(UseTag(ways, TagOf(x), now), SetOf(x), UsedWay(ways, TagOf(x)));
  }

  lemma FewOthers(others: set<nat>, ways: seq<Line>, set_: nat, line: nat, way: nat)
    requires |ways| == WAYS && way < WAYS && line == LineAt(set_, ways[way].tag)
    requires others <= Lines(ways, set_) - {line}
    ensures |others| < WAYS
  {
    SmallerSet(others, Lines(ways, set_) - {line});
    assert |Lines(ways, set_)| <= WAYS;
  }

  /** What a use of x keeps was used recently, whatever age x is given. */
  lemma KeptIsRecent(ways: seq<Line>, past: seq<Word>, x: Word, now: Word, addr: Word)
    requires SetInv(ways, SetOf(x), past) && SetOf(addr) == SetOf(x) && LineOf(addr) != LineOf(x)
    requires Resident(UseTag(ways, TagOf(x), now), TagOf(addr))
    ensures Recent(past + [x], LineOf(addr))
  {
    var set_, line := SetOf(x), LineOf(addr);
    var ways' := UseTag(ways, TagOf(x), now);
    UsedWays(ways, TagOf(x), now);
    HistoryNext(past, x, line);
    assert LineAt(set_, TagOf(addr)) == line && LineAt(set_, TagOf(x)) == LineOf(x);
    var kept := Holder(ways', TagOf(addr));
    var others := Since(past + [x], line);
    forall other | other in others ensures other in Lines(ways', set_) - {line} {
      SinceIsMoreRecent(past, line, other);
      if other == LineOf(x) {
        UsedIsKept(ways, x, now);
      } else {
        SinceIsKept(ways, past, x, now, addr, kept, other);
      }
    }
    FewOthers(others, ways', set_, line, kept);
  }

  lemma StaysNewer(ways: seq<Line>, past: seq<Word>, x: Word, now: Word, addr: Word, w: nat)
    requires SetInv(ways, SetOf(x), past) && SetOf(addr) == SetOf(x) && LineOf(addr) != LineOf(x)
    requires !Resident(UseTag(ways, TagOf(x), now), TagOf(addr)) && LastUse(past, LineOf(addr)) > 0
    requires w < WAYS && w != UsedWay(ways, TagOf(x))
    ensures ways[w].valid && LineAt(SetOf(x), ways[w].tag) in Since(past, LineOf(addr))
  {
    var ways' := UseTag(ways, TagOf(x), now);
    UsedWays(ways, TagOf(x), now);
    assert LineAt(SetOf(x), TagOf(addr)) == LineOf(addr);
    LineAtSplits(SetOf(x), TagOf(addr));
    LineAtSplits(SetOf(x), ways[w].tag);
    if Resident(ways, TagOf(addr)) {
      var own := Holder(ways, TagOf(addr));
      assert !Holds(ways', TagOf(addr), own);
    } else {
      assert AllNewer(ways, SetOf(x), past, TagOf(addr));
    }
    SinceIsMoreRecent(past, LineOf(addr), LineAt(SetOf(x), ways[w].tag));
  }

  /** What a use of x leaves absent was not used recently. */
  lemma AbsentIsNotRecent(ways: seq<Line>, past: seq<Word>, x: Word, now: Word, addr: Word)
    requires SetInv(ways, SetOf(x), past) && SetOf(addr) == SetOf(x) && LineOf(addr) != LineOf(x)
    requires !Resident(UseTag(ways, TagOf(x), now), TagOf(addr))
    ensures !Recent(past + [x], LineOf(addr))
  {
    var set_, line, used := SetOf(x), LineOf(addr), UsedWay(ways, TagOf(x));
    var ways' := UseTag(ways, TagOf(x), now);
    UsedWays(ways, TagOf(x), now);
    HistoryNext(past, x, line);
    assert LineAt(set_, TagOf(addr)) == line && LineAt(set_, TagOf(x)) == LineOf(x);
    if LastUse(past, line) > 0 {
      forall w: nat | w < WAYS
        ensures ways'[w].valid && LineAt(set_, ways'[w].tag) in Since(past + [x], line)
      {
        if w != used { StaysNewer(ways, past, x, now, addr, w); }
      }
      DistinctLines(ways', set_);
      SmallerSet(Lines(ways', set_), Since(past + [x], line));
    }
  }

  lemma ResidentAfterUse(ways: seq<Line>, past: seq<Word>, x: Word, now: Word, addr: Word)
    requires SetInv(ways, SetOf(x), past) && SetOf(addr) == SetOf(x)
    ensures Resident(UseTag(ways, TagOf(x), now), TagOf(addr)) <==> Recent(past + [x], LineOf(addr))
  {
    UsedWays(ways, TagOf(x), now);
    if LineOf(addr) == LineOf(x) {
      HistoryNext(past, x, LineOf(addr));
      assert Holds(UseTag(ways, TagOf(x), now), TagOf(addr), UsedWay(ways, TagOf(x)));
    } else if Resident(UseTag(ways, TagOf(x), now), TagOf(addr)) {
      KeptIsRecent(ways, past, x, now, addr);
    } else {
      AbsentIsNotRecent(ways, past, x, now, addr);
    }
  }

  lemma {:induction false} HitMeansRecent(addrs: seq<Word>, addr: Word)
    requires |addrs| <= TWO_32
    ensures Hit(Run(addrs), addr) <==> Recent(addrs, LineOf(addr))
  {
    HitIsResident(Run(addrs), addr);
    if addrs != [] {
      var past, x := addrs[..|addrs| - 1], addrs[|addrs| - 1];
      assert addrs == past + [x];
      RunKeepsInv(past);
      AccessedSet(Run(past), x, SetOf(addr));
      if SetOf(x) == SetOf(addr) {
        ResidentAfterUse(Run(past).sets[SetOf(x)], past, x, (Run(past).clock + 1) % TWO_32, addr);
      } else {
        HitMeansRecent(past, addr);
        HitIsResident(Run(past), addr);
        HistoryNext(past, x, LineOf(addr));
      }
    }
  }

  /**
   Exact LRU: an access hits exactly when its line was accessed before and fewer than WAYS
   distinct other lines of its set were accessed since.
   */
  lemma HitIffRecent(addrs: seq<Word>, addr: Word)
    requires |addrs| <= TWO_32
    ensures Hit(Run(addrs), addr) <==>
      (exists i :: 0 <= i < |addrs| && LineOf(addrs[i]) == LineOf(addr)) &&
      |Since(addrs, LineOf(addr))| < WAYS
  {
    HitMeansRecent(addrs, addr);
  }

  // ---------- the same in terms of addresses ----------

  /** The other 64-byte blocks with the same number modulo 8 that are accessed from access t on. */
  ghost function OtherBlocks(addrs: seq<Word>, addr: Word, t: nat): set<nat> {
    set j: nat | t <= j < |addrs| && addrs[j] / 64 % 8 == addr / 64 % 8 && addrs[j] / 64 != addr / 64 ::
      addrs[j] / 64
  }

  lemma OtherBlocksAreSince(addrs: seq<Word>, addr: Word)
    ensures Since(addrs, LineOf(addr)) == OtherBlocks(addrs, addr, LastUse(addrs, LineOf(addr)))
  {
    var line, t := LineOf(addr), LastUse(addrs, LineOf(addr));
    forall other: nat
      ensures other in Since(addrs, line) <==> other in OtherBlocks(addrs, addr, t)
    {
      SinceIsMoreRecent(addrs, line, other);
      var u := LastUse(addrs, other);
      if u > t && other % 8 == line % 8 {
        assert addrs[u - 1] / 64 == other && u - 1 >= t;
      }
    }
  }

  lemma FewerLater(addrs: seq<Word>, addr: Word, t: nat, u: nat)
    requires t <= u
    ensures OtherBlocks(addrs, addr, u) <= OtherBlocks(addrs, addr, t)
    ensures |OtherBlocks(addrs, addr, u)| <= |OtherBlocks(addrs, addr, t)|
  {
    SmallerSet(OtherBlocks(addrs, addr, u), OtherBlocks(addrs, addr, t));
  }

  /** There is an access i to the block with fewer than 4 other blocks of its set after it. */
  ghost predicate RecentBlock(addrs: seq<Word>, addr: Word) {
    exists i: nat :: i < |addrs| && addrs[i] / 64 == addr / 64 && |OtherBlocks(addrs, addr, i + 1)| < 4
  }

  lemma RecentIsRecentBlock(addrs: seq<Word>, addr: Word)
    ensures Recent(addrs, LineOf(addr)) <==> RecentBlock(addrs, addr)
  {
    var t := LastUse(addrs, LineOf(addr));
    OtherBlocksAreSince(addrs, addr);
    if Recent(addrs, LineOf(addr)) {
      assert addrs[t - 1] / 64 == addr / 64 && |OtherBlocks(addrs, addr, t - 1 + 1)| < 4;
    }
    if RecentBlock(addrs, addr) {
      var i: nat :| i < |addrs| && addrs[i] / 64 == addr / 64 && |OtherBlocks(addrs, addr, i + 1)| < 4;
      assert LineOf(addrs[i]) == LineOf(addr);
      FewerLater(addrs, addr, i + 1, t);
    }
  }

  /**
   Exact LRU on addresses: an access hits exactly when its 64-byte block was accessed before
   and fewer than 4 other blocks with the same block number modulo 8 were accessed since.
   */
  lemma HitByAddress(addrs: seq<Word>, addr: Word)
    requires |addrs| <= 0x1_0000_0000
    ensures Hit(Run(addrs), addr) <==> exists i: nat ::
      i < |addrs| && addrs[i] / 64 == addr / 64 && |OtherBlocks(addrs, addr, i + 1)| < 4
  {
    HitMeansRecent(addrs, addr);
    RecentIsRecentBlock(addrs, addr);
  }

  /** Access number k of the history, counting from 0, hits. */
  ghost predicate HitAt(addrs: seq<Word>, k: nat) {
    k < |addrs| && Hit(Run(addrs[..k]), addrs[k])
  }

  ghost function HitTimes(addrs: seq<Word>): set<nat> {
    set k: nat | k < |addrs| && HitAt(addrs, k)
  }

  lemma HitAtPast(past: seq<Word>, x: Word, k: nat)
    ensures HitAt(past + [x], k) == if k == |past| then Hit(Run(past), x) else HitAt(past, k)
  {
    if k <= |past| { assert (past + [x])[..k] == past[..k]; }
    assert past[..|past|] == past;
  }

  lemma HitTimesNext(past: seq<Word>, x: Word, hit: bool)
    requires hit == Hit(Run(past), x)
    ensures |HitTimes(past + [x])| == |HitTimes(past)| + if hit then 1 else 0
  {
    var before, after := HitTimes(past), HitTimes(past + [x]);
    forall k: nat ensures k in after <==> k in before || (k == |past| && hit) {
      HitAtPast(past, x, k);
    }
    assert after == before + if hit then {|past|} else {};
  }

  lemma CounterOfOne(s: State, addr: Word)
    requires s.WellFormed()
    ensures Access(s, addr).hits == if Hit(s, addr) then (s.hits + 1) % TWO_32 else s.hits
    ensures Access(s, addr).misses == if Hit(s, addr) then s.misses else (s.misses + 1) % TWO_32
  {
  }

  ghost predicate CountersOf(s: State, hits: nat, misses: nat) {
    s.hits == hits % TWO_32 && s.misses == misses % TWO_32
  }

  lemma CountersOfNext(s: State, addr: Word, hits: nat, misses: nat)
    requires s.WellFormed() && CountersOf(s, hits, misses)
    ensures if Hit(s, addr) then CountersOf(Access(s, addr), hits + 1, misses)
            else CountersOf(Access(s, addr), hits, misses + 1)
  {
    CounterOfOne(s, addr);
    ModOfNext(hits, TWO_32);
    ModOfNext(misses, TWO_32);
  }

  function HitCount(addrs: seq<Word>): (count: nat)
    ensures count <= |addrs|
  {
    if addrs == [] then 0
    else
      var past := addrs[..|addrs| - 1];
      HitCount(past) + if Hit(Run(past), addrs[|addrs| - 1]) then 1 else 0
  }

  lemma {:induction false} CountersCount(addrs: seq<Word>)
    ensures CountersOf(Run(addrs), HitCount(addrs), |addrs| - HitCount(addrs))
  {
    if addrs != [] {
      var past := addrs[..|addrs| - 1];
      CountersCount(past);
      CountersOfNext(Run(past), addrs[|addrs| - 1], HitCount(past), |past| - HitCount(past));
    }
  }

  lemma {:induction false} HitCountExactly(addrs: seq<Word>)
    ensures HitCount(addrs) == |HitTimes(addrs)|
  {
    if addrs == [] {
      assert HitTimes(addrs) == {};
    } else {
      var past, x := addrs[..|addrs| - 1], addrs[|addrs| - 1];
      HitCountExactly(past);
      HitTimesNext(past, x, Hit(Run(past), x));
      assert past + [x] == addrs;
    }
  }

  lemma CountersMean(s: State, hits: nat, misses: nat)
    requires CountersOf(s, hits, misses)
    ensures s.hits == hits % 0x1_0000_0000 && s.misses == misses % 0x1_0000_0000
  {
  }

  /** Each counter counts what its name says, modulo 2^32. */
  lemma CountersExact(addrs: seq<Word>) returns (hits: nat)
    ensures hits == |set k: nat | k < |addrs| && HitAt(addrs, k)| <= |addrs|
    ensures Run(addrs).hits == hits % 0x1_0000_0000
    ensures Run(addrs).misses == (|addrs| - hits) % 0x1_0000_0000
  {
    hits := HitCount(addrs);
    CountersCount(addrs);
    CountersMean(Run(addrs), hits, |addrs| - hits);
    assert hits == |HitTimes(addrs)| by { HitCountExactly(addrs); }
    assert HitTimes(addrs) == set k: nat | k < |addrs| && HitAt(addrs, k);
  }

  // ---------- move-to-front lists ----------

  /** The first position of the line from `from` on, or |list|. */
  function IndexOf(list: seq<nat>, line: nat, from: nat): (i: nat)
    requires from <= |list|
    ensures from <= i <= |list|
    ensures i < |list| ==> list[i] == line
    ensures forall j | from <= j < i :: list[j] != line
    decreases |list| - from
  {
    if from == |list| || list[from] == line then from else IndexOf(list, line, from + 1)
  }

  function MoveToFront(list: seq<nat>, line: nat): seq<nat> {
    var i := IndexOf(list, line, 0);
    if i < |list| then [line] + list[..i] + list[i + 1..]
    else if |list| < WAYS then [line] + list
    else [line] + list[..WAYS - 1]
  }

  /** The textbook LRU list of one set: accessed lines move to the front, WAYS are kept. */
  function Mru(addrs: seq<Word>, set_: nat): seq<nat> {
    if addrs == [] then []
    else
      var rest := Mru(addrs[..|addrs| - 1], set_);
      var line := LineOf(addrs[|addrs| - 1]);
      if line % SETS == set_ then MoveToFront(rest, line) else rest
  }

  // The lemmas on lists take the time of last use as any function `key` of the line.

  ghost predicate Descending(list: seq<nat>, key: nat -> nat) {
    forall i, j | 0 <= i < j < |list| :: key(list[i]) > key(list[j])
  }

  lemma MoveToFrontAt(list: seq<nat>, line: nat, k: nat)
    requires 1 <= k < |MoveToFront(list, line)|
    ensures var from := if k <= IndexOf(list, line, 0) then k - 1 else k;
      from < |list| && MoveToFront(list, line)[k] == list[from]
  {
  }

  lemma MoveToFrontDescends(list: seq<nat>, line: nat, key: nat -> nat, key': nat -> nat)
    requires Descending(list, key)
    requires forall x | x in list && x != line :: key'(x) == key(x) && key(x) < key'(line)
    ensures Descending(MoveToFront(list, line), key')
  {
    var list', at := MoveToFront(list, line), IndexOf(list, line, 0);
    forall i, j | 0 <= i < j < |list'| ensures key'(list'[i]) > key'(list'[j]) {
      MoveToFrontAt(list, line, j);
      if at < j { assert key(list[at]) > key(list[j]); }
      assert list'[j] in list && list'[j] != line;
      if i > 0 {
        MoveToFrontAt(list, line, i);
        assert list'[i] in list;
        if at < i { assert key(list[at]) > key(list[i]); }
      }
    }
  }

  /** Whatever leaves the list was used before everything that stays. */
  lemma DroppedIsOldest(list: seq<nat>, line: nat, key: nat -> nat, y: nat)
    requires Descending(list, key) && |list| <= WAYS
    requires y in list && y !in MoveToFront(list, line)
    ensures |list| == WAYS
    ensures forall x | x in MoveToFront(list, line) && x != line :: key(x) > key(y)
  {
    var i :| 0 <= i < |list| && list[i] == y;
  }

  ghost function Elements(list: seq<nat>): set<nat> { set x | x in list }

  lemma {:induction false} CountElements(list: seq<nat>, key: nat -> nat)
    requires Descending(list, key)
    ensures |Elements(list)| == |list|
  {
    if list != [] {
      CountElements(list[1..], key);
      assert Elements(list) == {list[0]} + Elements(list[1..]);
    }
  }

  /** The lines of one set with the latest keys: WAYS of them, or all with a positive key. */
  ghost predicate MostRecent(lines: set<nat>, set_: nat, key: nat -> nat) {
    && |lines| <= WAYS
    && (forall x | x in lines :: x % SETS == set_ && key(x) > 0)
    && (forall y: nat | y % SETS == set_ && key(y) > 0 && y !in lines ::
          |lines| == WAYS && forall x | x in lines :: key(x) > key(y))
  }

  lemma MoveToFrontElements(list: seq<nat>, line: nat)
    requires |list| <= WAYS
    ensures line in MoveToFront(list, line) && 0 < |MoveToFront(list, line)| <= WAYS
    ensures |MoveToFront(list, line)| >= |list|
    ensures forall x | x in MoveToFront(list, line) :: x == line || x in list
  {
    assert MoveToFront(list, line)[0] == line;
  }

  lemma AbsentAfterMove(list: seq<nat>, line: nat, key: nat -> nat, y: nat)
    requires Descending(list, key) && MostRecent(Elements(list), line % SETS, key)
    requires y % SETS == line % SETS && key(y) > 0 && y !in MoveToFront(list, line)
    ensures |MoveToFront(list, line)| == WAYS
    ensures forall x | x in MoveToFront(list, line) && x != line :: key(x) > key(y)
  {
    CountElements(list, key);
    MoveToFrontElements(list, line);
    if y in list {
      DroppedIsOldest(list, line, key, y);
    } else {
      assert y !in Elements(list);
      forall x | x in list ensures key(x) > key(y) {
        assert x in Elements(list);
      }
    }
  }

  lemma MoveToFrontKeepsMostRecent(list: seq<nat>, line: nat, key: nat -> nat, key': nat -> nat)
    requires Descending(list, key) && MostRecent(Elements(list), line % SETS, key)
    requires forall x | x != line :: key'(x) == key(x) && key(x) < key'(line)
    ensures MostRecent(Elements(MoveToFront(list, line)), line % SETS, key')
  {
    var list' := MoveToFront(list, line);
    assert key(line + 1) < key'(line);
    CountElements(list, key);
    MoveToFrontElements(list, line);
    MoveToFrontDescends(list, line, key, key');
    CountElements(list', key');
    forall y: nat | y % SETS == line % SETS && key'(y) > 0 && y !in list'
      ensures |list'| == WAYS
      ensures forall x | x in list' :: key'(x) > key'(y)
    {
      AbsentAfterMove(list, line, key, y);
    }
  }

  ghost function Uses(addrs: seq<Word>): nat -> nat { line => LastUse(addrs, line) }

  /** The order depends on the keys of the set's own lines only. */
  lemma OtherSetsDoNotMatter(list: seq<nat>, set_: nat, key: nat -> nat, key': nat -> nat)
    requires Descending(list, key) && MostRecent(Elements(list), set_, key)
    requires forall x: nat | x % SETS == set_ :: key'(x) == key(x)
    ensures Descending(list, key') && MostRecent(Elements(list), set_, key')
  {
    forall i | 0 <= i < |list| ensures key'(list[i]) == key(list[i]) {
      assert list[i] in Elements(list);
    }
  }

  lemma {:induction false} MruIsMostRecent(addrs: seq<Word>, set_: nat)
    requires set_ < SETS
    ensures Descending(Mru(addrs, set_), Uses(addrs))
    ensures MostRecent(Elements(Mru(addrs, set_)), set_, Uses(addrs))
  {
    if addrs != [] {
      var past, line := addrs[..|addrs| - 1], LineOf(addrs[|addrs| - 1]);
      MruIsMostRecent(past, set_);
      if line % SETS == set_ {
        MoveToFrontDescends(Mru(past, set_), line, Uses(past), Uses(addrs));
        MoveToFrontKeepsMostRecent(Mru(past, set_), line, Uses(past), Uses(addrs));
      } else {
        OtherSetsDoNotMatter(Mru(past, set_), set_, Uses(past), Uses(addrs));
      }
    }
  }

  /** The list of a set holds a line exactly when it is recent, for histories of any length. */
  lemma ListedIffRecent(addrs: seq<Word>, line: nat)
    ensures line in Mru(addrs, line % SETS) <==> Recent(addrs, line)
  {
    var list := Mru(addrs, line % SETS);
    MruIsMostRecent(addrs, line % SETS);
    CountElements(list, Uses(addrs));
    var lines := Elements(list);
    if line in list {
      assert line in lines;
      forall other | other in Since(addrs, line) ensures other in lines - {line} {
        SinceIsMoreRecent(addrs, line, other);
      }
      SmallerSet(Since(addrs, line), lines - {line});
    } else if LastUse(addrs, line) > 0 {
      assert line !in lines;
      forall other | other in lines ensures other in Since(addrs, line) {
        SinceIsMoreRecent(addrs, line, other);
      }
      SmallerSet(lines, Since(addrs, line));
    }
  }

  /** The array of ages refines the lists: an access hits exactly when its line is listed. */
  lemma RefinesMoveToFront(addrs: seq<Word>, addr: Word)
    requires |addrs| <= TWO_32
    ensures Hit(Run(addrs), addr) <==> LineOf(addr) in Mru(addrs, SetOf(addr))
  {
    HitMeansRecent(addrs, addr);
    ListedIffRecent(addrs, LineOf(addr));
  }

  // ---------- beyond the clock's range ----------

  lemma AccessTwice(s: State, a: Word, b: Word)
    requires s.WellFormed() && s.clock == TWO_32 - 1 && SetOf(a) == SetOf(b)
    ensures Access(Access(s, a), b).sets[SetOf(a)] ==
      UseTag(UseTag(s.sets[SetOf(a)], TagOf(a), 0), TagOf(b), 1)
  {
    AccessedSet(s, a, SetOf(a));
    AccessedSet(Access(s, a), b, SetOf(a));
  }

  lemma RunTwoMore(addrs: seq<Word>, a: Word, b: Word)
    ensures Run(addrs + [a, b]) == Access(Access(Run(addrs), a), b)
  {
    assert (addrs + [a, b])[..|addrs| + 1] == addrs + [a] && (addrs + [a])[..|addrs|] == addrs;
  }

  lemma SinceTwoMore(addrs: seq<Word>, a: Word, b: Word)
    requires SetOf(a) == SetOf(b) && LineOf(a) != LineOf(b)
    ensures Since(addrs + [a, b], LineOf(a)) == {LineOf(b)}
  {
    assert (addrs + [a, b])[..|addrs| + 1] == addrs + [a];
  }

  lemma WrapInSet(ways: seq<Line>, addrs: seq<Word>, a: Word, b: Word)
    requires SetInv(ways, SetOf(a), addrs) && SetOf(a) == SetOf(b)
    requires forall w | 0 <= w < WAYS :: ways[w].valid
    requires Lookup(ways, TagOf(a), 0) < WAYS && Lookup(ways, TagOf(b), 0) == WAYS
    ensures Lookup(UseTag(UseTag(ways, TagOf(a), 0), TagOf(b), 1), TagOf(a), 0) == WAYS
  {
    var found := Lookup(ways, TagOf(a), 0);
    var ways' := ways[found := ways[found].(age := 0)];
    assert forall w: nat | w < WAYS :: Holds(ways', TagOf(b), w) == Holds(ways, TagOf(b), w);
    assert forall w | 0 <= w < WAYS :: ways'[w].valid && (w != found ==> ways'[w].age > 0);
    var victim := VictimFrom(ways', 0, 0);
    assert ways'[victim].age <= ways'[found].age;
  }

  /**
   When access number 2^32 hits line a, the clock wraps and a gets age 0, so that a miss in
   the same full set evicts a, the line used last.
   */
  lemma WrapEvictsMostRecent(addrs: seq<Word>, a: Word, b: Word)
    requires |addrs| == TWO_32 - 1 && Hit(Run(addrs), a) && !Hit(Run(addrs), b)
    requires SetOf(a) == SetOf(b) && forall w | 0 <= w < WAYS :: Run(addrs).sets[SetOf(a)][w].valid
    ensures !Hit(Run(addrs + [a, b]), a)
    ensures Since(addrs + [a, b], LineOf(a)) == {LineOf(b)}
  {
    var s := Run(addrs);
    RunTwoMore(addrs, a, b);
    RunKeepsInv(addrs);
    AccessTwice(s, a, b);
    WrapInSet(s.sets[SetOf(a)], addrs, a, b);
    SinceTwoMore(addrs, a, b);
  }

  /** Four lines of set 0 in turn, then the last of them again and again. */
  function Filling(n: nat): (addrs: seq<Word>)
    ensures |addrs| == n
  {
    seq(n, i requires 0 <= i < n => SETS * LINE_SIZE * if i < WAYS then i else WAYS - 1)
  }

  lemma FillingKeeps(n: nat, tag: Word, way: nat)
    requires WAYS <= n < TWO_32 && tag < WAYS && way < WAYS
    ensures Resident(Run(Filling(n)).sets[0], tag) || Run(Filling(n)).sets[0][way].valid
  {
    var ways := Run(Filling(n)).sets[0];
    RunKeepsInv(Filling(n));
    assert LineOf(Filling(n)[tag]) == LineAt(0, tag);
    assert LastUse(Filling(n), LineAt(0, tag)) > 0;
    assert Resident(ways, tag) || AllNewer(ways, 0, Filling(n), tag);
  }

  lemma FourTagsFillSet(ways: seq<Line>, way: nat)
    requires |ways| == WAYS && way < WAYS
    requires Resident(ways, 0) && Resident(ways, 1) && Resident(ways, 2) && Resident(ways, 3)
    ensures ways[way].valid
  {
    var way0 := Holder(ways, 0);
    var way1 := Holder(ways, 1);
    var way2 := Holder(ways, 2);
    var way3 := Holder(ways, 3);
    assert way == way0 || way == way1 || way == way2 || way == way3;
  }

  lemma FillingFills(n: nat, way: nat)
    requires WAYS <= n < TWO_32 && way < WAYS
    ensures Run(Filling(n)).sets[0][way].valid
  {
    var ways := Run(Filling(n)).sets[0];
    FillingKeeps(n, 0, way);
    FillingKeeps(n, 1, way);
    FillingKeeps(n, 2, way);
    FillingKeeps(n, 3, way);
    if Resident(ways, 0) && Resident(ways, 1) && Resident(ways, 2) && Resident(ways, 3) {
      FourTagsFillSet(ways, way);
    }
  }

  /** A history of 2^32 + 1 accesses after which the cache is not LRU. */
  lemma WrapExample() returns (addrs: seq<Word>, a: Word)
    ensures |addrs| == TWO_32 + 1 && SetOf(a) == 0 && !Hit(Run(addrs), a)
    ensures Recent(addrs, LineOf(a))
  {
    var past, b: Word := Filling(TWO_32 - 1), SETS * LINE_SIZE * WAYS;
    a := SETS * LINE_SIZE * (WAYS - 1);
    addrs := past + [a, b];
    assert past[|past| - 1] == a;
    HitIffRecent(past, a);
    assert forall i | 0 <= i < |past| :: LineOf(past[i]) != LineOf(b);
    HitIffRecent(past, b);
    forall w | 0 <= w < WAYS { FillingFills(|past|, w); }
    WrapEvictsMostRecent(past, a, b);
    assert LineOf(addrs[|past|]) == LineOf(a);
  }

  /** Every longer history has an extension of that one by accesses to another set. */
  lemma {:induction false} WrapBreaksLru(n: nat) returns (addrs: seq<Word>, a: Word)
    requires n > TWO_32
    ensures |addrs| == n && SetOf(a) == 0 && !Hit(Run(addrs), a)
    ensures Recent(addrs, LineOf(a))
  {
    if n == TWO_32 + 1 {
      addrs, a := WrapExample();
    } else {
      var past;
      past, a := WrapBreaksLru(n - 1);
      var x: Word := LINE_SIZE;
      addrs := past + [x];
      assert addrs[..|past|] == past;
      HitIsResident(Run(past), a);
      HitIsResident(Run(addrs), a);
      AccessedSet(Run(past), x, SetOf(a));
      HistoryNext(past, x, LineOf(a));
    }
  }

  /** After any n accesses the next one hits exactly when its line is recent. */
  ghost predicate LruAfter(n: nat) {
    forall addrs: seq<Word>, addr: Word | |addrs| == n ::
      Hit(Run(addrs), addr) <==> Recent(addrs, LineOf(addr))
  }

  /** The cache is LRU after n accesses exactly when n is at most 2^32. */
  lemma LruExactlyUpTo(n: nat)
    ensures LruAfter(n) <==> n <= TWO_32
  {
    if n <= TWO_32 {
      forall addrs: seq<Word>, addr: Word | |addrs| == n
        ensures Hit(Run(addrs), addr) <==> Recent(addrs, LineOf(addr))
      {
        HitMeansRecent(addrs, addr);
      }
    } else {
      var addrs, a := WrapBreaksLru(n);
    }
  }

  // ---------- the cache in memory ----------

  class Cache {
    const line: array2<Line>
    var clock: Word
    var hits: Word
    var misses: Word

    ghost predicate Valid()
    {
      line.Length0 == SETS && line.Length1 == WAYS
    }

    ghost function Ways(set_: nat): seq<Line>
      requires Valid() && set_ < SETS
      reads line
    {
      [line[set_, 0], line[set_, 1], line[set_, 2], line[set_, 3]]
    }

    ghost function Sets(): (sets: seq<seq<Line>>)
      requires Valid()
      reads line
      ensures |sets| == SETS && forall i | 0 <= i < SETS :: sets[i] == Ways(i)
    {
      seq(SETS, i requires 0 <= i < SETS reads line => Ways(i))
    }

    ghost function Value(): (s: State)
      requires Valid()
      reads this, line
      ensures s.WellFormed()
    {
      State(Sets(), clock, hits, misses)
    }

    constructor ()
      ensures Valid() && fresh(line) && Value() == EMPTY
    {
      line := new Line[SETS, WAYS]((i, j) => EMPTY_LINE);
      clock, hits, misses := 0, 0, 0;
    }

    /** The lookup loop: the first way of the set that holds the tag, or WAYS. */
    method FindTag(set_: nat, tag: Word) returns (way: nat)
      requires Valid() && set_ < SETS
      ensures way == Lookup(Ways(set_), tag, 0)
    {
      way := 0;
      while way < WAYS
        invariant way <= WAYS
        invariant Lookup(Ways(set_), tag, 0) == Lookup(Ways(set_), tag, way)
      {
        if line[set_, way].valid && line[set_, way].tag == tag { return; }
        way := way + 1;
      }
    }

    /** The victim loop: the first invalid way, or else the first one of least age. */
    method FindVictim(set_: nat) returns (victim: nat)
      requires Valid() && set_ < SETS
      ensures victim == VictimFrom(Ways(set_), 0, 0)
    {
      ghost var ways := Ways(set_);
      victim := 0;
      for way := 0 to WAYS
        invariant victim < WAYS && (victim < way || victim == 0)
        invariant forall w | 0 <= w < way :: ways[w].valid && ways[victim].age <= ways[w].age
        invariant forall w | 0 <= w < victim :: ways[victim].age < ways[w].age
        invariant VictimFrom(ways, 0, 0) == VictimFrom(ways, way, victim)
      {
        if !line[set_, way].valid { return way; }
        if line[set_, way].age < line[set_, victim].age { victim := way; }
      }
    }

    /** Stores one line; the other ways and sets keep theirs. */
    method Store(set_: nat, way: nat, stored: Line)
      requires Valid() && set_ < SETS && way < WAYS
      modifies line
      ensures Sets() == old(Sets())[set_ := old(Ways(set_))[way := stored]]
    {
      line[set_, way] := stored;
      assert Ways(set_) == old(Ways(set_))[way := stored];
    }

    method Use(addr: Word) returns (hit: bool)
      requires Valid()
      modifies this, line
      ensures Value() == Access(old(Value()), addr)
      ensures hit == Hit(old(Value()), addr)
    {
      var lineNumber := addr / LINE_SIZE;
      var set_ := lineNumber % SETS;
      var tag: Word := lineNumber / SETS;
      clock := (clock + 1) % TWO_32;
      var way := FindTag(set_, tag);
      hit := way < WAYS;
      if hit {
        Store(set_, way, line[set_, way].(age := clock));
        hits := (hits + 1) % TWO_32;
      } else {
        var victim := FindVictim(set_);
        Store(set_, victim, Line(true, tag, clock));
        misses := (misses + 1) % TWO_32;
      }
    }
  }
}
