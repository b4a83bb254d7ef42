/**
 The sequence detectors: a brute-force matcher with an overlapping and a skipping mode, a
 shift-register matcher, and the three-state machine for the pattern 101.
 */
module FsmDetect {
  import opened Words

  // ---------- matches ----------

  /** Digit k of the pattern in stream order: the most significant of plen digits is first. */
  function PatternBit(pattern: Word, plen: nat, k: nat): int
    requires k < plen
  {
    if Bit(pattern, plen - 1 - k) then 1 else 0
  }

  /** The plen stream values that end at `end` are the digits of the pattern. */
  predicate MatchesAt(bits: seq<int>, pattern: Word, plen: nat, end: int)
    requires plen >= 1
  {
    plen - 1 <= end < |bits| &&
    forall k | 0 <= k < plen :: bits[end - plen + 1 + k] == PatternBit(pattern, plen, k)
  }

  /** Which stream positions end a match. */
  function MatchFlags(bits: seq<int>, pattern: Word, plen: nat): (flags: seq<bool>)
    requires plen >= 1
    ensures |flags| == |bits|
    ensures forall e | 0 <= e < |bits| :: flags[e] <==> MatchesAt(bits, pattern, plen, e)
  {
    seq(|bits|, e requires 0 <= e < |bits| => MatchesAt(bits, pattern, plen, e))
  }

  // ---------- scans over match ends ----------

  lemma PatternBitExactly(pattern: Word, plen: nat, k: nat)
    requires k < plen
    ensures PatternBit(pattern, plen, k) == pattern / Pow2(plen - 1 - k) % 2
  {
    var d := plen - 1 - k;
    var q, r := DivMod(pattern, Pow2(d));
    ShrIsUnique(pattern, d, q, r);
    ShrBit(pattern, d, 0);
  }

  /** A match, read backwards: the last value is the lowest digit of the pattern. */
  lemma MatchesExactly(bits: seq<int>, pattern: Word, plen: nat, end: int)
    requires plen >= 1
    ensures MatchesAt(bits, pattern, plen, end) <==>
      plen - 1 <= end < |bits| &&
      forall j | end - plen < j <= end :: bits[j] == if Bit(pattern, end - j) then 1 else 0
  {
    if MatchesAt(bits, pattern, plen, end) {
      forall j | end - plen < j <= end ensures bits[j] == if Bit(pattern, end - j) then 1 else 0 {
        var k := j - end + plen - 1;
        assert bits[end - plen + 1 + k] == PatternBit(pattern, plen, k);
      }
    }
  }

  /** The match ends found from `from` on by a scan that advances `skip` after a match. */
  function Ends(flags: seq<bool>, skip: nat, from: nat): (ends: seq<int>)
    requires skip >= 1
    ensures forall e | e in ends :: from <= e < |flags| && flags[e]
    decreases |flags| - from
  {
    if from >= |flags| then []
    else if flags[from] then [from] + Ends(flags, skip, from + skip)
    else Ends(flags, skip, from + 1)
  }

  /** Advancing by one finds every match. */
  lemma {:induction false} OverlappingFindsAll(flags: seq<bool>, from: nat)
    ensures forall e | from <= e < |flags| && flags[e] :: e in Ends(flags, 1, from)
    decreases |flags| - from
  {
    if from < |flags| {
      OverlappingFindsAll(flags, from + 1);
      assert flags[from] ==> Ends(flags, 1, from)[0] == from;
    }
  }

  // ---------- the skipping mode is optimal ----------

  /** Match ends no two of which are closer than plen. */
  ghost predicate Selection(flags: seq<bool>, plen: nat, ends: set<int>) {
    && (forall e | e in ends :: 0 <= e < |flags| && flags[e])
    && (forall d, e | d in ends && e in ends && d < e :: d + plen <= e)
  }

  ghost predicate Ascending(list: seq<int>, gap: nat) {
    forall i, j | 0 <= i < j < |list| :: list[i] + gap <= list[j]
  }

  lemma AscendingPrepend(first: int, rest: seq<int>, gap: nat)
    requires Ascending(rest, gap) && forall e | e in rest :: first + gap <= e
    ensures Ascending([first] + rest, gap)
  {
    var list := [first] + rest;
    forall i, j | 0 <= i < j < |list| ensures list[i] + gap <= list[j] {
      assert list[j] == rest[j - 1] && rest[j - 1] in rest;
      if i > 0 { assert list[i] == rest[i - 1]; }
    }
  }

  /** The ends found by the skipping scan ascend in steps of at least plen. */
  lemma {:induction false} SkippingKeepsApart(flags: seq<bool>, plen: nat, from: nat)
    requires plen >= 1
    ensures Ascending(Ends(flags, plen, from), plen)
    decreases |flags| - from
  {
    if from < |flags| {
      if flags[from] {
        SkippingKeepsApart(flags, plen, from + plen);
        AscendingPrepend(from, Ends(flags, plen, from + plen), plen);
      } else {
        SkippingKeepsApart(flags, plen, from + 1);
      }
    }
  }

  lemma RemoveAtMostOne(flags: seq<bool>, plen: nat, from: nat, ends: set<int>) returns (rest: set<int>)
    requires Selection(flags, plen, ends) && forall e | e in ends :: from <= e
    ensures Selection(flags, plen, rest) && |ends| <= |rest| + 1
    ensures forall e | e in rest :: from + plen <= e
  {
    rest := set e | e in ends && from + plen <= e;
    var removed := ends - rest;
    assert ends == rest + removed;
    if d :| d in removed {
      forall e | e in removed ensures e == d {}
      assert removed == {d};
    }
  }

  lemma NoneInRange(ends: set<int>, from: int, to: int)
    requires from >= to && forall e | e in ends :: from <= e < to
    ensures |ends| == 0
  {
    assert forall e :: e !in ends;
  }

  /** No selection from a position on is larger than the one the skipping scan finds. */
  lemma {:induction false} SkippingIsLargest(flags: seq<bool>, plen: nat, from: nat, ends: set<int>)
    requires plen >= 1 && Selection(flags, plen, ends) && forall e | e in ends :: from <= e
    ensures |ends| <= |Ends(flags, plen, from)|
    decreases |flags| - from
  {
    if from >= |flags| {
      NoneInRange(ends, from, |flags|);
    } else if flags[from] {
      var rest := RemoveAtMostOne(flags, plen, from, ends);
      SkippingIsLargest(flags, plen, from + plen, rest);
    } else {
      SkippingIsLargest(flags, plen, from + 1, ends);
    }
  }

  /** The greedy skip is optimal: its ends are apart, and no selection has more of them. */
  lemma GreedySkipIsOptimal(bits: seq<int>, pattern: Word, plen: nat, ends: set<int>)
    requires plen >= 1 && Selection(MatchFlags(bits, pattern, plen), plen, ends)
    ensures var greedy := Ends(MatchFlags(bits, pattern, plen), plen, plen - 1);
      && (forall e | e in greedy :: MatchesAt(bits, pattern, plen, e))
      && Ascending(greedy, plen)
      && |ends| <= |greedy|
  {
    var flags := MatchFlags(bits, pattern, plen);
    SkippingKeepsApart(flags, plen, plen - 1);
    forall e | e in ends ensures plen - 1 <= e {
      assert MatchesAt(bits, pattern, plen, e);
    }
    SkippingIsLargest(flags, plen, plen - 1, ends);
  }

  // ---------- the brute-force matcher ----------

  /** The inner loop: compares the plen values that end at `end` with the pattern. */
  method CompareAt(bits: seq<int>, pattern: Word, plen: nat, end: nat) returns (matches: bool)
    requires plen >= 1 && plen - 1 <= end < |bits|
    ensures matches <==> MatchesAt(bits, pattern, plen, end)
  {
    for bit := 0 to plen
      invariant forall k | 0 <= k < bit ::
        bits[end - plen + 1 + k] == PatternBit(pattern, plen, k)
    {
      ShiftedBit(pattern, plen - 1 - bit);
      if bits[end - plen + 1 + bit] != And(Shr(pattern, plen - 1 - bit), 1) {
        assert bits[end - plen + 1 + bit] != PatternBit(pattern, plen, bit);
        return false;
      }
    }
    return true;
  }

  /** out marks exactly the positions of the first n that are in ends. */
  ghost predicate Marked(out: seq<int>, n: nat, ends: seq<int>) {
    n <= |out| && forall i | 0 <= i < n :: out[i] == if i in ends then 1 else 0
  }

  /** The match ends before `from` are those in `done`. */
  ghost predicate Scanned(flags: seq<bool>, skip: nat, first: nat, from: nat, done: seq<int>)
    requires skip >= 1
  {
    Ends(flags, skip, first) == done + Ends(flags, skip, from)
  }

  lemma MarkOne(out: seq<int>, n: nat, ends: seq<int>, end: nat)
    requires Marked(out, n, ends) && end < n
    ensures Marked(out[end := 1], n, ends + [end])
  {
  }

  /** The first k marks are those of the ends found before k. */
  ghost predicate MarkedTo(out: seq<int>, k: nat, done: seq<int>) {
    k <= |out| && (forall e | e in done :: e < k) &&
    forall i | 0 <= i < k :: out[i] == if i in done then 1 else 0
  }

  lemma MarkNext(out: seq<int>, k: nat, done: seq<int>, mark: bool)
    requires MarkedTo(out, k, done) && k < |out|
    ensures MarkedTo(out[k := if mark then 1 else 0], k + 1, if mark then done + [k] else done)
  {
  }

  lemma RestUnchanged(before: seq<int>, after: seq<int>, n: nat)
    requires n <= |before| == |after| && after[n..] == before[n..]
    ensures forall i | n <= i < |after| :: after[i] == before[i]
  {
    forall i | n <= i < |after| ensures after[i] == before[i] {
      assert after[i] == after[n..][i - n] == before[n..][i - n];
    }
  }

  lemma ScanNext(flags: seq<bool>, skip: nat, first: nat, from: nat, done: seq<int>, from': nat, done': seq<int>)
    requires skip >= 1 && from < |flags| && Scanned(flags, skip, first, from, done)
    requires if flags[from] then from' == from + skip && done' == done + [from]
             else from' == from + 1 && done' == done
    ensures Scanned(flags, skip, first, from', done')
  {
  }

  /**
   The skipping scan adds plen to each match end, so in an int it is defined exactly if no
   such sum passes the largest int.
   */
  ghost predicate SkipsFit(flags: seq<bool>, plen: nat)
    requires plen >= 1
  {
    var ends := Ends(flags, plen, plen - 1);
    forall i | 0 <= i < |ends| :: ends[i] + plen <= MAX_INT
  }

  /** A stream that leaves room for one pattern below the largest int is short enough. */
  lemma ShortStreamsFit(flags: seq<bool>, plen: nat)
    requires plen >= 1 && |flags| + plen - 1 <= MAX_INT
    ensures SkipsFit(flags, plen)
  {
    var ends := Ends(flags, plen, plen - 1);
    forall i | 0 <= i < |ends| ensures ends[i] + plen <= MAX_INT {
      assert ends[i] in ends;
    }
  }

  lemma NextEndFits(flags: seq<bool>, plen: nat, end: nat, done: seq<int>)
    requires plen >= 1 && SkipsFit(flags, plen) && Scanned(flags, plen, plen - 1, end, done)
    requires end < |flags| && flags[end]
    ensures end + plen <= MAX_INT
  {
    assert Ends(flags, plen, plen - 1)[|done|] == Ends(flags, plen, end)[0] == end;
  }

  method SeqDetect(bits: seq<int>, n: Int, pattern: Word, plen: Int, overlapping: bool,
                   out: array<int>) returns (found: int)
    requires n <= |bits| && n <= out.Length
    requires 0 < plen <= 32 && n >= 0 && !overlapping ==> SkipsFit(MatchFlags(bits[..n], pattern, plen), plen)
    modifies out
    ensures plen <= 0 || plen > 32 || n < 0 ==> found == -1 && out[..] == old(out[..])
    ensures 0 < plen <= 32 && n >= 0 ==>
      var flags := MatchFlags(bits[..n], pattern, plen);
      var ends := Ends(flags, if overlapping then 1 else plen, plen - 1);
      && found == |ends| && Marked(out[..], n, ends)
      && forall i | n <= i < out.Length :: out[i] == old(out[i])
  {
    if plen <= 0 || plen > 32 || n < 0 { return -1; }
    for i := 0 to n
      invariant forall j | 0 <= j < i :: out[j] == 0
      invariant out[n..] == old(out[n..])
    {
      out[i] := 0;
    }
    found := 0;
    var stream := bits[..n];
    ghost var flags := MatchFlags(stream, pattern, plen);
    ghost var skip := if overlapping then 1 else plen;
    ghost var done: seq<int> := [];
    var end: Int := plen - 1;
    assert Scanned(flags, skip, plen - 1, end, done);
    while end < n
      invariant end >= plen - 1
      invariant Scanned(flags, skip, plen - 1, end, done) && found == |done|
      invariant Marked(out[..], n, done) && out[n..] == old(out[n..])
      decreases n - end
    {
      var matches := CompareAt(stream, pattern, plen, end);
      ghost var from, before, marks := end, done, out[..];
      if matches {
        MarkOne(marks, n, before, end);
        out[end] := 1;
        assert out[..] == marks[end := 1];
        found := found + 1;
        done := before + [end];
        if !overlapping {
          NextEndFits(flags, plen, end, before);
          end := end + plen - 1;
        }
      }
      end := end + 1;
      ScanNext(flags, skip, plen - 1, from, before, end, done);
    }
    RestUnchanged(old(out[..]), out[..], n);
  }

  // ---------- the shift register ----------

  /** One step of the register: shift left, OR the new value in, mask to plen digits. */
  function Shifted(window: Word, value: int, plen: nat): nat {
    And(Or(window * 2 % TWO_32, value % TWO_32), Pow2(plen) - 1)
  }

  lemma ShiftedIsWord(window: Word, value: int, plen: nat)
    requires plen <= 32
    ensures Shifted(window, value, plen) < TWO_32
  {
    var joined := Or(window * 2 % TWO_32, value % TWO_32);
    Pow2Values();
    BitwiseBound(OrOp, window * 2 % TWO_32, value % TWO_32, 32);
    AndBound(joined, Pow2(plen) - 1, 32);
  }

  /** The register after the first i stream values. */
  function Window(bits: seq<int>, plen: nat, i: nat): Word
    requires plen <= 32 && i <= |bits|
  {
    if i == 0 then 0
    else
      ShiftedIsWord(Window(bits, plen, i - 1), bits[i - 1], plen);
      Shifted(Window(bits, plen, i - 1), bits[i - 1], plen)
  }

  predicate WindowMatches(bits: seq<int>, pattern: Word, plen: nat, i: int)
    requires 1 <= plen <= 32
  {
    plen - 1 <= i < |bits| && Window(bits, plen, i + 1) == pattern
  }

  /** At which stream positions the register equals the pattern. */
  function WindowFlags(bits: seq<int>, pattern: Word, plen: nat): (flags: seq<bool>)
    requires 1 <= plen <= 32
    ensures |flags| == |bits|
    ensures forall i | 0 <= i < |bits| :: flags[i] <==> WindowMatches(bits, pattern, plen, i)
  {
    seq(|bits|, i requires 0 <= i < |bits| => WindowMatches(bits, pattern, plen, i))
  }

  /** The register update in the loop; the mask of 32 digits is written without a shift by 32. */
  method ShiftIn(bits: seq<int>, plen: nat, k: nat, window: Word) returns (shifted: Word)
    requires 1 <= plen <= 32 && k < |bits| && window == Window(bits, plen, k)
    ensures shifted == Window(bits, plen, k + 1)
  {
    var mask := if plen == 32 then TWO_32 - 1 else Pow2(plen) - 1;
    Pow2Values();
    ShiftedIsWord(window, bits[k], plen);
    shifted := And(Or(window * 2 % TWO_32, bits[k] % TWO_32), mask);
  }

  method WinMatch(bits: seq<int>, n: int, pattern: Word, plen: int, out: array<int>)
    returns (found: int)
    requires n <= |bits| && n <= out.Length
    modifies out
    ensures plen <= 0 || plen > 32 || n < 0 ==> found == -1 && out[..] == old(out[..])
    ensures 0 < plen <= 32 && n >= 0 ==>
      var ends := Ends(WindowFlags(bits[..n], pattern, plen), 1, 0);
      && found == |ends| && Marked(out[..], n, ends)
      && forall i | n <= i < out.Length :: out[i] == old(out[i])
  {
    if n < 0 || plen <= 0 || plen > 32 { return -1; }
    var window: Word := 0;
    found := 0;
    var stream := bits[..n];
    ghost var flags := WindowFlags(stream, pattern, plen);
    ghost var done: seq<int> := [];
    assert Scanned(flags, 1, 0, 0, done);
    for index := 0 to n
      invariant window == Window(stream, plen, index)
      invariant Scanned(flags, 1, 0, index, done) && found == |done|
      invariant MarkedTo(out[..], index, done)
      invariant out[n..] == old(out[n..])
    {
      window := ShiftIn(stream, plen, index, window);
      ghost var before, marks := done, out[..];
      assert flags[index] <==> index >= plen - 1 && window == pattern;
      out[index] := if index >= plen - 1 && window == pattern then 1 else 0;
      found := found + out[index];
      done := if flags[index] then before + [index] else before;
      assert out[..] == marks[index := if flags[index] then 1 else 0];
      MarkNext(marks, index, before, flags[index]);
      ScanNext(flags, 1, 0, index, before, index + 1, done);
    }
    RestUnchanged(old(out[..]), out[..], n);
  }

  ghost predicate Binary(bits: seq<int>) {
    forall i | 0 <= i < |bits| :: bits[i] == 0 || bits[i] == 1
  }

  /** The wrapping shift moves digits up and drops the one that leaves the word. */
  lemma DoubledDigit(window: Word, k: nat)
    requires k < 32
    ensures Bit(window * 2 % TWO_32, k) == (k > 0 && Bit(window, k - 1))
  {
    Pow2Values();
    var q, doubled := DivMod(window * 2, TWO_32);
    ConcatBit(q, doubled, 32, k);
    if k > 0 { assert window * 2 / 2 == window; }
  }

  lemma SmallWordDigits(value: int, k: nat)
    requires value == 0 || value == 1
    ensures Bit(value % TWO_32, k) == (k == 0 && value == 1)
  {
    QuotientUnique(value, TWO_32, 0, value);
    if k > 0 { ZeroBit(k - 1); }
  }

  /** Digit k of a shifted register is that of the new value, or digit k - 1 before. */
  lemma ShiftedDigit(window: Word, value: int, plen: nat, k: nat)
    requires 1 <= plen <= 32
    ensures Bit(Shifted(window, value, plen), k) ==
      (k < plen && (Bit(value % 0x1_0000_0000, k) || (k > 0 && Bit(window, k - 1))))
  {
    var doubled, word := window * 2 % TWO_32, value % TWO_32;
    BitwiseBit(AndOp, Or(doubled, word), Pow2(plen) - 1, k);
    OnesBit(plen, k);
    BitwiseBit(OrOp, doubled, word, k);
    if k < plen { DoubledDigit(window, k); }
  }

  lemma {:induction false} WindowDigit(bits: seq<int>, plen: nat, i: nat, k: nat)
    requires 1 <= plen <= 32 && i <= |bits| && Binary(bits)
    ensures Bit(Window(bits, plen, i), k) == (k < plen && k < i && bits[i - 1 - k] == 1)
  {
    if i == 0 {
      ZeroBit(k);
    } else {
      ShiftedDigit(Window(bits, plen, i - 1), bits[i - 1], plen, k);
      SmallWordDigits(bits[i - 1], k);
      if k > 0 { WindowDigit(bits, plen, i - 1, k - 1); }
    }
  }

  lemma WindowMatchIsMatch(bits: seq<int>, pattern: Word, plen: nat, i: int)
    requires 1 <= plen <= 32 && Binary(bits) && WindowMatches(bits, pattern, plen, i)
    ensures MatchesAt(bits, pattern, plen, i) && pattern < Pow2(plen)
  {
    forall k: nat ensures Bit(pattern, k) == (k < plen && bits[i - k] == 1) {
      WindowDigit(bits, plen, i + 1, k);
    }
    BitsBound(pattern, plen);
    forall k | 0 <= k < plen ensures bits[i - plen + 1 + k] == PatternBit(pattern, plen, k) {
      assert Bit(pattern, plen - 1 - k) == (bits[i - (plen - 1 - k)] == 1);
    }
  }

  lemma MatchIsWindowMatch(bits: seq<int>, pattern: Word, plen: nat, i: int)
    requires 1 <= plen <= 32 && Binary(bits)
    requires MatchesAt(bits, pattern, plen, i) && pattern < Pow2(plen)
    ensures WindowMatches(bits, pattern, plen, i)
  {
    forall k: nat ensures Bit(Window(bits, plen, i + 1), k) == Bit(pattern, k) {
      WindowDigit(bits, plen, i + 1, k);
      if k < plen {
        assert bits[i - plen + 1 + (plen - 1 - k)] == PatternBit(pattern, plen, plen - 1 - k);
      } else {
        HighBitsClear(pattern, plen, k);
      }
    }
    SameBitsSameNumber(Window(bits, plen, i + 1), pattern);
  }

  /**
   On a stream of zeros and ones the register marks what brute force marks, unless the
   pattern has digits beyond plen: brute force ignores them, the register then marks nothing.
   */
  lemma WindowAgreesWithBruteForce(bits: seq<int>, pattern: Word, plen: nat, i: int)
    requires 1 <= plen <= 32 && Binary(bits)
    ensures WindowMatches(bits, pattern, plen, i) <==>
      MatchesAt(bits, pattern, plen, i) && pattern < Pow2(plen)
  {
    if WindowMatches(bits, pattern, plen, i) { WindowMatchIsMatch(bits, pattern, plen, i); }
    if MatchesAt(bits, pattern, plen, i) && pattern < Pow2(plen) {
      MatchIsWindowMatch(bits, pattern, plen, i);
    }
  }

  lemma {:induction false} NothingBefore(flags: seq<bool>, skip: nat, from: nat, to: nat)
    requires skip >= 1 && from <= to && forall i | from <= i < to && i < |flags| :: !flags[i]
    ensures Ends(flags, skip, from) == Ends(flags, skip, to)
    decreases (to as int) - from
  {
    if from < to && from < |flags| { NothingBefore(flags, skip, from + 1, to); }
  }

  /** So for patterns of plen digits both detectors find the same match ends. */
  lemma DetectorsAgree(bits: seq<int>, pattern: Word, plen: nat)
    requires 1 <= plen <= 32 && Binary(bits) && pattern < Pow2(plen)
    ensures WindowFlags(bits, pattern, plen) == MatchFlags(bits, pattern, plen)
    ensures Ends(WindowFlags(bits, pattern, plen), 1, 0) ==
      Ends(MatchFlags(bits, pattern, plen), 1, plen - 1)
  {
    forall i: int
      ensures WindowMatches(bits, pattern, plen, i) <==> MatchesAt(bits, pattern, plen, i)
    {
      WindowAgreesWithBruteForce(bits, pattern, plen, i);
    }
    NothingBefore(MatchFlags(bits, pattern, plen), 1, 0, plen - 1);
  }

  // ---------- the state machine for 101 ----------

  function SafeFsmStep(state: int, input: int, injectIllegal: bool): int {
    if injectIllegal || state < 0 || state > 2 then 0
    else if state == 0 then (if input != 0 then 1 else 0)
    else if state == 1 then (if input != 0 then 1 else 2)
    else (if input != 0 then 1 else 0)
  }

  /** The state after the first i inputs from any start, with a fault injected where faults says so. */
  function FsmFrom(start: int, bits: seq<int>, faults: seq<bool>, i: nat): int
    requires i <= |bits| <= |faults|
  {
    if i == 0 then start
    else SafeFsmStep(FsmFrom(start, bits, faults, i - 1), bits[i - 1], faults[i - 1])
  }

  function FsmState(bits: seq<int>, faults: seq<bool>, i: nat): int
    requires i <= |bits| <= |faults|
  {
    FsmFrom(0, bits, faults, i)
  }

  /** The machine detects at tick i when it steps from state 2 to state 1. */
  predicate Detects(bits: seq<int>, faults: seq<bool>, i: nat)
    requires i < |bits| <= |faults|
  {
    FsmState(bits, faults, i) == 2 && FsmState(bits, faults, i + 1) == 1
  }

  /** After one step the state is legal, wherever the machine was. */
  lemma LegalAfterStep(start: int, bits: seq<int>, faults: seq<bool>, i: nat)
    requires 1 <= i <= |bits| <= |faults|
    ensures 0 <= FsmFrom(start, bits, faults, i) <= 2
    ensures !(0 <= start <= 2) ==> FsmFrom(start, bits, faults, 1) == 0
  {
  }

  /** An illegal start acts like a fault at the first tick. */
  lemma {:induction false} IllegalStartIsFault(start: int, bits: seq<int>, faults: seq<bool>, i: nat)
    requires 1 <= i <= |bits| <= |faults| && !(0 <= start <= 2)
    ensures FsmFrom(start, bits, faults, i) == FsmFrom(0, bits, faults[0 := true], i)
  {
    if i > 1 { IllegalStartIsFault(start, bits, faults, i - 1); }
  }

  /** The state sums up the inputs since the last fault or illegal state. */
  lemma {:induction false} StateFromMeansSuffix(start: int, bits: seq<int>, faults: seq<bool>, i: nat)
    requires 1 <= i <= |bits| <= |faults|
    ensures FsmFrom(start, bits, faults, i) == 1 <==>
      bits[i - 1] != 0 && !faults[i - 1] && (i == 1 ==> 0 <= start <= 2)
    ensures FsmFrom(start, bits, faults, i) == 2 <==>
      bits[i - 1] == 0 && !faults[i - 1] &&
      if i == 1 then start == 1 else bits[i - 2] != 0 && !faults[i - 2] && (i == 2 ==> 0 <= start <= 2)
    ensures 0 <= FsmFrom(start, bits, faults, i) <= 2
  {
    if i > 1 { StateFromMeansSuffix(start, bits, faults, i - 1); }
  }

  /** Started in state 0, the state is a summary of the inputs since the last fault. */
  lemma StateMeansSuffix(bits: seq<int>, faults: seq<bool>, i: nat)
    requires i <= |bits| <= |faults|
    ensures 0 <= FsmState(bits, faults, i) <= 2
    ensures FsmState(bits, faults, i) == 1 <==> i >= 1 && bits[i - 1] != 0 && !faults[i - 1]
    ensures FsmState(bits, faults, i) == 2 <==>
      i >= 2 && bits[i - 2] != 0 && bits[i - 1] == 0 && !faults[i - 2] && !faults[i - 1]
  {
    if i > 0 { StateFromMeansSuffix(0, bits, faults, i); }
  }

  /** A detection is a 1, 0, 1 in three ticks none of which had a fault. */
  lemma DetectsUnfaulted101(bits: seq<int>, faults: seq<bool>, i: nat)
    requires i < |bits| <= |faults|
    ensures Detects(bits, faults, i) <==>
      && i >= 2 && bits[i - 2] != 0 && bits[i - 1] == 0 && bits[i] != 0
      && !faults[i - 2] && !faults[i - 1] && !faults[i]
  {
    StateMeansSuffix(bits, faults, i);
    StateMeansSuffix(bits, faults, i + 1);
  }

  /** Without faults the machine and the brute-force matcher for 101 mark the same ticks. */
  lemma MachineAgreesWithBruteForce(bits: seq<int>, faults: seq<bool>, i: nat)
    requires i < |bits| <= |faults| && Binary(bits)
    requires forall k | 0 <= k < |faults| :: !faults[k]
    ensures Detects(bits, faults, i) <==> MatchesAt(bits, 5, 3, i)
  {
    DetectsUnfaulted101(bits, faults, i);
    assert PatternBit(5, 3, 0) == 1 && PatternBit(5, 3, 1) == 0 && PatternBit(5, 3, 2) == 1;
    if i >= 2 && Detects(bits, faults, i) {
      assert bits[i - 3 + 1 + 0] == 1 && bits[i - 3 + 1 + 1] == 0 && bits[i - 3 + 1 + 2] == 1;
    }
    if MatchesAt(bits, 5, 3, i) {
      assert bits[i - 3 + 1 + 0] == 1 && bits[i - 3 + 1 + 1] == 0 && bits[i - 3 + 1 + 2] == 1;
    }
  }
}
