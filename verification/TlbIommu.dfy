/**
 The four-entry translation buffer in front of a page walk. The walk is a multiplicative
 hash of the page number; the buffer is filled in FIFO order and flushed as a whole.
 */
module TlbIommu {
  import opened Words

  const TLB_ENTRIES: nat := 4
  const PAGES: nat := 0x10_0000               // 20-bit page numbers
  const PAGE_SIZE: nat := 0x1000
  const MULTIPLIER: nat := 2654435761
  const INVERSE: nat := 733009                // of MULTIPLIER modulo PAGES

  datatype Entry = Entry(vpn: Word, pfn: Word, valid: bool)

  function Vpn(va: Word): Word { va / PAGE_SIZE }

  /** The page frame: the low 20 bits of the wrapping 32-bit product. */
  function Walk(vpn: Word): nat { And(vpn * MULTIPLIER % TWO_32, PAGES - 1) }

  /** A page frame and the offset of an address, joined by a wrapping shift and an OR. */
  function Join(pfn: nat, va: Word): nat {
    Or(pfn * PAGE_SIZE % TWO_32, And(va, PAGE_SIZE - 1))
  }

  /** The translation without a buffer. */
  function PageWalk(va: Word): nat { Join(Walk(Vpn(va)), va) }

  // ---------- the walk permutes the pages ----------

  lemma WalkIsMod(vpn: Word)
    ensures Walk(vpn) == vpn * MULTIPLIER % PAGES < PAGES
  {
    var x := vpn * MULTIPLIER;
    var q, r := x / TWO_32, x % TWO_32;
    Pow2Values();
    MaskIsMod(r, 20);
    QuotientUnique(x, PAGES, 0x1000 * q + r / PAGES, r % PAGES);
  }

  function Unwalk(pfn: nat): (vpn: Word) { pfn * INVERSE % PAGES }

  /** The inverse multiplier undoes the walk: both steps multiply by 1 modulo PAGES. */
  lemma UnwalkWalk(vpn: Word)
    requires vpn < PAGES
    ensures Unwalk(Walk(vpn)) == vpn
  {
    WalkIsMod(vpn);
    var q, w := vpn * MULTIPLIER / PAGES, Walk(vpn);
    assert w == vpn * MULTIPLIER - q * PAGES;
    assert w * INVERSE == PAGES * (1855588248 * vpn - INVERSE * q) + vpn;
    QuotientUnique(w * INVERSE, PAGES, 1855588248 * vpn - INVERSE * q, vpn);
  }

  lemma WalkUnwalk(pfn: nat)
    requires pfn < PAGES
    ensures Unwalk(pfn) < PAGES && Walk(Unwalk(pfn)) == pfn
  {
    var q, v := pfn * INVERSE / PAGES, Unwalk(pfn);
    WalkIsMod(v);
    assert v == pfn * INVERSE - q * PAGES;
    assert v * MULTIPLIER == PAGES * (1855588248 * pfn - MULTIPLIER * q) + pfn;
    QuotientUnique(v * MULTIPLIER, PAGES, 1855588248 * pfn - MULTIPLIER * q, pfn);
  }

  lemma FrameFits(pfn: nat)
    requires pfn < PAGES
    ensures pfn * PAGE_SIZE % TWO_32 == pfn * PAGE_SIZE
  {
  }

  lemma JoinKeepsParts(pfn: nat, va: Word)
    requires pfn < PAGES
    ensures Join(pfn, va) == pfn * PAGE_SIZE + va % PAGE_SIZE < TWO_32
    ensures Join(pfn, va) / PAGE_SIZE == pfn && Join(pfn, va) % PAGE_SIZE == va % PAGE_SIZE
  {
    Pow2Values();
    MaskIsMod(va, 12);
    OrIsConcat(pfn, va % PAGE_SIZE, 12);
    FrameFits(pfn);
  }

  /** The address whose walk gives pa. */
  function Unwalked(pa: Word): Word { Unwalk(pa / PAGE_SIZE) * PAGE_SIZE + pa % PAGE_SIZE }

  /** Translation permutes the 32-bit addresses and keeps every offset. */
  lemma PageWalkIsBijection(va: Word)
    ensures PageWalk(va) < TWO_32 && PageWalk(va) % PAGE_SIZE == va % PAGE_SIZE
    ensures Unwalked(PageWalk(va)) == va
    ensures PageWalk(Unwalked(va)) == va
  {
    WalkIsMod(Vpn(va));
    JoinKeepsParts(Walk(Vpn(va)), va);
    UnwalkWalk(Vpn(va));
    WalkUnwalk(va / PAGE_SIZE);
    var back := Unwalked(va);
    assert Vpn(back) == Unwalk(va / PAGE_SIZE) && back % PAGE_SIZE == va % PAGE_SIZE;
    JoinKeepsParts(Walk(Vpn(back)), back);
  }

  // ---------- the buffer ----------

  datatype State = State(tlb: seq<Entry>, evictNext: nat, hits: Word, misses: Word) {
    predicate WellFormed() { |tlb| == TLB_ENTRIES && evictNext < TLB_ENTRIES }
  }

  predicate Holds(entry: Entry, vpn: Word) { entry.valid && entry.vpn == vpn }

  /** The first entry from i on that holds the page, or |tlb|. */
  function Lookup(tlb: seq<Entry>, vpn: Word, i: nat): (found: nat)
    requires i <= |tlb|
    ensures i <= found <= |tlb|
    ensures found < |tlb| ==> Holds(tlb[found], vpn)
    ensures forall j | i <= j < found :: !Holds(tlb[j], vpn)
    decreases |tlb| - i
  {
    if i == |tlb| || Holds(tlb[i], vpn) then i else Lookup(tlb, vpn, i + 1)
  }

  predicate Hit(s: State, va: Word)
    requires s.WellFormed()
  {
    Lookup(s.tlb, Vpn(va), 0) < TLB_ENTRIES
  }

  function Result(s: State, va: Word): nat
    requires s.WellFormed()
  {
    if Hit(s, va) then Join(s.tlb[Lookup(s.tlb, Vpn(va), 0)].pfn, va)
    else Join(Walk(Vpn(va)), va)
  }

  function Translate(s: State, va: Word): (s': State)
    requires s.WellFormed()
    ensures s'.WellFormed()
  {
    if Hit(s, va) then s.(hits := (s.hits + 1) % TWO_32)
    else
      WalkIsMod(Vpn(va));
      s.(tlb := s.tlb[s.evictNext := Entry(Vpn(va), Walk(Vpn(va)), true)],
         evictNext := (s.evictNext + 1) % TLB_ENTRIES,
         misses := (s.misses + 1) % TWO_32)
  }

  function Flush(s: State): (s': State)
    requires s.WellFormed()
    ensures s'.WellFormed()
  {
    s.(tlb := seq(TLB_ENTRIES, i requires 0 <= i < TLB_ENTRIES => s.tlb[i].(valid := false)),
       evictNext := 0)
  }

  datatype Op = DoTranslate(va: Word) | DoFlush

  /** The buffer together with the pages missed since the start or the last flush. */
  datatype Trace = Trace(s: State, missed: seq<Word>)

  function Step(t: Trace, op: Op): (t': Trace)
    requires t.s.WellFormed()
    ensures t'.s.WellFormed()
  {
    match op
    case DoTranslate(va) =>
      Trace(Translate(t.s, va), if Hit(t.s, va) then t.missed else t.missed + [Vpn(va)])
    case DoFlush => Trace(Flush(t.s), [])
  }

  const START := Trace(State([Entry(0, 0, false), Entry(0, 0, false),
                              Entry(0, 0, false), Entry(0, 0, false)], 0, 0, 0), [])

  function Run(ops: seq<Op>): (t: Trace)
    ensures t.s.WellFormed()
  {
    if ops == [] then START else Step(Run(ops[..|ops| - 1]), ops[|ops| - 1])
  }

  /** The number of the oldest miss that is still in the buffer. */
  function Oldest(missed: seq<Word>): nat {
    if |missed| < TLB_ENTRIES then 0 else |missed| - TLB_ENTRIES
  }

  ghost predicate Inv(t: Trace) {
    var s, m := t.s, t.missed;
    && s.WellFormed()
    && s.evictNext == |m| % TLB_ENTRIES
    && (forall i | |m| <= i < TLB_ENTRIES :: !s.tlb[i].valid)
    && (forall k | Oldest(m) <= k < |m| :: Walk(m[k]) < PAGES &&
          s.tlb[k % TLB_ENTRIES] == Entry(m[k], Walk(m[k]), true))
    && (forall j, k | Oldest(m) <= j < k < |m| :: m[j] != m[k])
  }

  /** The one of the last four misses that went to a slot. */
  lemma LastMissOf(n: nat, i: nat) returns (k: nat)
    requires i < TLB_ENTRIES && i < n
    ensures k < n <= k + TLB_ENTRIES && k % TLB_ENTRIES == i
  {
    var q, r := DivMod(n, TLB_ENTRIES);
    if i < r {
      k := TLB_ENTRIES * q + i;
      QuotientUnique(k, TLB_ENTRIES, q, i);
    } else {
      k := TLB_ENTRIES * (q - 1) + i;
      QuotientUnique(k, TLB_ENTRIES, q - 1, i);
    }
  }

  /** Each entry is either never filled since the flush or filled by one of the last misses. */
  lemma EntryIsRecentMiss(t: Trace, i: nat)
    requires Inv(t) && i < TLB_ENTRIES
    ensures t.s.tlb[i].valid ==> exists k ::
      Oldest(t.missed) <= k < |t.missed| && k % TLB_ENTRIES == i && t.missed[k] == t.s.tlb[i].vpn
  {
    if t.s.tlb[i].valid { var k := LastMissOf(|t.missed|, i); }
  }

  lemma MissIsHeld(t: Trace, k: nat)
    requires Inv(t) && Oldest(t.missed) <= k < |t.missed|
    ensures Lookup(t.s.tlb, t.missed[k], 0) < TLB_ENTRIES
  {
    var q, slot := DivMod(k, TLB_ENTRIES);
    assert Holds(t.s.tlb[slot], t.missed[k]);
  }

  /** Hits are exactly the pages among the last TLB_ENTRIES misses. */
  lemma HitIffRecentMiss(t: Trace, va: Word)
    requires Inv(t)
    ensures Hit(t.s, va) <==> Vpn(va) in t.missed[Oldest(t.missed)..]
  {
    var m, oldest, page := t.missed, Oldest(t.missed), Vpn(va);
    if Hit(t.s, va) {
      var found := Lookup(t.s.tlb, page, 0);
      var k := LastMissOf(|m|, found);
      assert m[oldest..][k - oldest] == page;
    }
    if page in m[oldest..] {
      var j: nat :| j < |m| - oldest && m[oldest..][j] == page;
      MissIsHeld(t, oldest + j);
    }
  }

  /** While the buffer fills up, misses go to the slots in order. */
  lemma NewestSlot(n: nat)
    ensures n < TLB_ENTRIES ==> n % TLB_ENTRIES == n
  {
    if n < TLB_ENTRIES { QuotientUnique(n, TLB_ENTRIES, 0, n); }
  }

  lemma MissKeepsEntry(t: Trace, va: Word, k: nat)
    requires Inv(t) && !Hit(t.s, va)
    requires var t' := Step(t, DoTranslate(va)); Oldest(t'.missed) <= k < |t'.missed|
    ensures var t' := Step(t, DoTranslate(va));
      Walk(t'.missed[k]) < PAGES &&
      t'.s.tlb[k % TLB_ENTRIES] == Entry(t'.missed[k], Walk(t'.missed[k]), true)
  {
    WalkIsMod(Vpn(va));
    if k < |t.missed| { ModDistinguishes(k, |t.missed|, TLB_ENTRIES); }
  }

  lemma MissKeepsInv(t: Trace, va: Word)
    requires Inv(t) && !Hit(t.s, va) && Vpn(va) !in t.missed[Oldest(t.missed)..]
    ensures Inv(Step(t, DoTranslate(va)))
  {
    var m, oldest, t' := t.missed, Oldest(t.missed), Step(t, DoTranslate(va));
    ModOfNext(|m|, TLB_ENTRIES);
    forall k | Oldest(t'.missed) <= k < |t'.missed|
      ensures Walk(t'.missed[k]) < PAGES
      ensures t'.s.tlb[k % TLB_ENTRIES] == Entry(t'.missed[k], Walk(t'.missed[k]), true)
    {
      MissKeepsEntry(t, va, k);
    }
    forall k | oldest <= k < |m| ensures m[k] != Vpn(va) {
      assert m[oldest..][k - oldest] == m[k];
    }
    NewestSlot(|m|);
  }

  lemma TranslateKeepsInv(t: Trace, va: Word)
    requires Inv(t)
    ensures Inv(Step(t, DoTranslate(va)))
  {
    HitIffRecentMiss(t, va);
    if !Hit(t.s, va) { MissKeepsInv(t, va); }
  }

  lemma {:induction false} RunKeepsInv(ops: seq<Op>)
    ensures Inv(Run(ops))
  {
    if ops != [] {
      RunKeepsInv(ops[..|ops| - 1]);
      if ops[|ops| - 1].DoTranslate? {
        TranslateKeepsInv(Run(ops[..|ops| - 1]), ops[|ops| - 1].va);
      }
    }
  }

  // ---------- what holds in every run ----------

  lemma PageWalkExactly(va: Word)
    ensures PageWalk(va) == va / 4096 * 2654435761 % 1048576 * 4096 + va % 4096
  {
    WalkIsMod(Vpn(va));
    JoinKeepsParts(Walk(Vpn(va)), va);
  }

  /**
   The buffer never changes a translation: every result is the low 20 bits of the hashed page
   number above the 12-bit offset.
   */
  lemma TranslatesLikeWalk(ops: seq<Op>, va: Word)
    ensures Result(Run(ops).s, va) == PageWalk(va)
    ensures Result(Run(ops).s, va) == va / 4096 * 2654435761 % 1048576 * 4096 + va % 4096
  {
    var t := Run(ops);
    RunKeepsInv(ops);
    PageWalkExactly(va);
    if Hit(t.s, va) { EntryIsRecentMiss(t, Lookup(t.s.tlb, Vpn(va), 0)); }
  }

  /** Translation is injective whatever hits and misses happened before each call. */
  lemma TranslationInjective(ops: seq<Op>, va: Word, ops': seq<Op>, va': Word)
    requires Result(Run(ops).s, va) == Result(Run(ops').s, va')
    ensures va == va'
  {
    TranslatesLikeWalk(ops, va);
    TranslatesLikeWalk(ops', va');
    PageWalkIsBijection(va);
    PageWalkIsBijection(va');
  }

  // The missed pages, by recursion on the operations alone.

  /** The page is one of the last four listed. */
  predicate AmongLastFour(pages: seq<Word>, page: int) {
    page in if |pages| < 4 then pages else pages[|pages| - 4..]
  }

  /** The pages missed since the start or the last flush. */
  function Missed(ops: seq<Op>): seq<Word> {
    if ops == [] then []
    else
      var past := Missed(ops[..|ops| - 1]);
      match ops[|ops| - 1]
      case DoTranslate(va) => if AmongLastFour(past, va / 4096) then past else past + [va / 4096]
      case DoFlush => []
  }

  lemma {:induction false} MissedIsMissed(ops: seq<Op>)
    ensures Run(ops).missed == Missed(ops)
  {
    if ops != [] {
      var past := ops[..|ops| - 1];
      MissedIsMissed(past);
      RunKeepsInv(past);
      if ops[|ops| - 1].DoTranslate? { HitIffRecentMiss(Run(past), ops[|ops| - 1].va); }
    }
  }

  /** FIFO: a call hits exactly when its page is one of the last four missed since the flush. */
  lemma BufferIsFifo(ops: seq<Op>, va: Word)
    ensures Hit(Run(ops).s, va) <==> AmongLastFour(Missed(ops), va / 4096)
  {
    RunKeepsInv(ops);
    HitIffRecentMiss(Run(ops), va);
    MissedIsMissed(ops);
  }

  // ---------- what the counters count ----------

  /** Operation k is a translation that hits, or one that misses. */
  ghost predicate TranslatesAt(ops: seq<Op>, k: nat, hit: bool) {
    k < |ops| && ops[k].DoTranslate? && AmongLastFour(Missed(ops[..k]), ops[k].va / 4096) == hit
  }

  ghost function Translations(ops: seq<Op>, hit: bool): set<nat> {
    set k: nat | k < |ops| && TranslatesAt(ops, k, hit)
  }

  function TranslationCount(ops: seq<Op>, hit: bool): nat {
    if ops == [] then 0
    else
      var past, op := ops[..|ops| - 1], ops[|ops| - 1];
      TranslationCount(past, hit) +
      if op.DoTranslate? && AmongLastFour(Missed(past), op.va / 4096) == hit then 1 else 0
  }

  lemma TranslatesAtPast(past: seq<Op>, op: Op, k: nat, hit: bool)
    ensures TranslatesAt(past + [op], k, hit) ==
      if k == |past| then op.DoTranslate? && AmongLastFour(Missed(past), op.va / 4096) == hit
      else TranslatesAt(past, k, hit)
  {
    if k <= |past| { assert (past + [op])[..k] == past[..k]; }
    assert past[..|past|] == past;
  }

  lemma TranslationsNext(past: seq<Op>, op: Op, hit: bool, counts: bool)
    requires counts == (op.DoTranslate? && AmongLastFour(Missed(past), op.va / 4096) == hit)
    ensures |Translations(past + [op], hit)| == |Translations(past, hit)| + if counts then 1 else 0
  {
    var before, after := Translations(past, hit), Translations(past + [op], hit);
    forall k: nat ensures k in after <==> k in before || (k == |past| && counts) {
      TranslatesAtPast(past, op, k, hit);
    }
    assert after == before + if counts then {|past|} else {};
  }

  lemma {:induction false} TranslationsAreCounted(ops: seq<Op>, hit: bool)
    ensures TranslationCount(ops, hit) == |Translations(ops, hit)|
  {
    if ops == [] {
      assert Translations(ops, hit) == {};
    } else {
      var past, op := ops[..|ops| - 1], ops[|ops| - 1];
      TranslationsAreCounted(past, hit);
      TranslationsNext(past, op, hit, op.DoTranslate? && AmongLastFour(Missed(past), op.va / 4096) == hit);
      assert past + [op] == ops;
    }
  }

  ghost predicate CountersOf(s: State, hits: nat, misses: nat) {
    s.hits == hits % 0x1_0000_0000 && s.misses == misses % 0x1_0000_0000
  }

  lemma CountersOfNext(t: Trace, op: Op, hit: bool, hits: nat, misses: nat)
    requires t.s.WellFormed() && CountersOf(t.s, hits, misses)
    requires op.DoTranslate? ==> hit == Hit(t.s, op.va)
    ensures CountersOf(Step(t, op).s, if op.DoTranslate? && hit then hits + 1 else hits,
                       if op.DoTranslate? && !hit then misses + 1 else misses)
  {
    ModOfNext(hits, TWO_32);
    ModOfNext(misses, TWO_32);
  }

  lemma {:induction false} CountersCount(ops: seq<Op>) returns (hits: nat, misses: nat)
    ensures CountersOf(Run(ops).s, hits, misses)
    ensures hits == TranslationCount(ops, true) && misses == TranslationCount(ops, false)
  {
    hits, misses := 0, 0;
    if ops != [] {
      var past, op := ops[..|ops| - 1], ops[|ops| - 1];
      hits, misses := CountersCount(past);
      var hit := op.DoTranslate? && AmongLastFour(Missed(past), op.va / 4096);
      if op.DoTranslate? { BufferIsFifo(past, op.va); }
      CountersOfNext(Run(past), op, hit, hits, misses);
      hits := if hit then hits + 1 else hits;
      misses := if op.DoTranslate? && !hit then misses + 1 else misses;
    }
  }

  /**
   The counters are, modulo 2^32, the numbers of translations of a page that was and was not
   among the last four missed. A flush changes neither.
   */
  lemma CountersExact(ops: seq<Op>)
    ensures CountersOf(Run(ops).s, |Translations(ops, true)|, |Translations(ops, false)|)
  {
    var hits, misses := CountersCount(ops);
    TranslationsAreCounted(ops, true);
    TranslationsAreCounted(ops, false);
  }

  ghost function AllTranslations(ops: seq<Op>): set<nat> {
    set k: nat | k < |ops| && ops[k].DoTranslate?
  }

  lemma EachHitsOrMisses(ops: seq<Op>, k: nat)
    ensures k in AllTranslations(ops) <==> k in Translations(ops, true) || k in Translations(ops, false)
    ensures !(k in Translations(ops, true) && k in Translations(ops, false))
  {
  }

  lemma HitsAndMisses(ops: seq<Op>)
    ensures |Translations(ops, true)| + |Translations(ops, false)| == |AllTranslations(ops)|
  {
    var hit, miss, all := Translations(ops, true), Translations(ops, false), AllTranslations(ops);
    forall k: nat
      ensures (k in all <==> k in hit || k in miss) && !(k in hit && k in miss)
    {
      EachHitsOrMisses(ops, k);
    }
    assert hit * miss == {} && all == hit + miss;
  }

  lemma SumOfCounters(s: State, hits: nat, misses: nat)
    requires CountersOf(s, hits, misses)
    ensures (s.hits + s.misses) % 0x1_0000_0000 == (hits + misses) % 0x1_0000_0000
  {
    ModOfSum(hits, s.misses, TWO_32);
    ModOfSum(misses, hits, TWO_32);
  }

  /** Every translation is counted once. */
  lemma CountersBalance(ops: seq<Op>)
    ensures (Run(ops).s.hits + Run(ops).s.misses) % 0x1_0000_0000 == |AllTranslations(ops)| % 0x1_0000_0000
  {
    CountersExact(ops);
    HitsAndMisses(ops);
    SumOfCounters(Run(ops).s, |Translations(ops, true)|, |Translations(ops, false)|);
  }

  /** No page is buffered twice. */
  lemma PagesDistinct(ops: seq<Op>, i: nat, j: nat)
    requires i < j < TLB_ENTRIES
    requires Run(ops).s.tlb[i].valid && Run(ops).s.tlb[j].valid
    ensures Run(ops).s.tlb[i].vpn != Run(ops).s.tlb[j].vpn
  {
    RunKeepsInv(ops);
    EntryIsRecentMiss(Run(ops), i);
    EntryIsRecentMiss(Run(ops), j);
  }

  // ---------- the buffer in memory ----------

  class Tlb {
    const tlb: array<Entry>
    var evictNext: nat
    var hits: Word
    var misses: Word

    ghost predicate Valid()
      reads this
    {
      tlb.Length == TLB_ENTRIES && evictNext < TLB_ENTRIES
    }

    ghost function Value(): State
      reads this, tlb
    {
      State(tlb[..], evictNext, hits, misses)
    }

    constructor ()
      ensures Valid() && fresh(tlb) && Value() == START.s
    {
      tlb := new Entry[TLB_ENTRIES](_ => Entry(0, 0, false));
      evictNext, hits, misses := 0, 0, 0;
    }

    method TranslateAddress(va: Word) returns (pa: nat)
      requires Valid()
      modifies this, tlb
      ensures Valid() && Value() == Translate(old(Value()), va)
      ensures pa == Result(old(Value()), va)
    {
      var vpn: Word := va / PAGE_SIZE;
      var i := 0;
      while i < TLB_ENTRIES
        invariant i <= TLB_ENTRIES && Value() == old(Value())
        invariant Lookup(tlb[..], vpn, 0) == Lookup(tlb[..], vpn, i)
      {
        if tlb[i].valid && tlb[i].vpn == vpn {
          hits := (hits + 1) % TWO_32;
          return Or(tlb[i].pfn * PAGE_SIZE % TWO_32, And(va, PAGE_SIZE - 1));
        }
        i := i + 1;
      }
      misses := (misses + 1) % TWO_32;
      WalkIsMod(vpn);
      var pfn: Word := And(vpn * MULTIPLIER % TWO_32, PAGES - 1);
      tlb[evictNext] := Entry(vpn, pfn, true);
      evictNext := (evictNext + 1) % TLB_ENTRIES;
      return Or(pfn * PAGE_SIZE % TWO_32, And(va, PAGE_SIZE - 1));
    }

    method Invalidate()
      requires Valid()
      modifies this, tlb
      ensures Valid() && Value() == Flush(old(Value()))
    {
      for slot := 0 to TLB_ENTRIES
        invariant unchanged(this)
        invariant forall i | 0 <= i < slot :: tlb[i] == old(tlb[i]).(valid := false)
        invariant forall i | slot <= i < TLB_ENTRIES :: tlb[i] == old(tlb[i])
      {
        tlb[slot] := tlb[slot].(valid := false);
      }
      evictNext := 0;
    }
  }
}
