/**
 Ordered release of reset domains, and the even clock divider.
 */
module ClockReset {
  import opened Pigeonhole
  import opened Words

  // ---------- reset order ----------

  /** What the scan accepts: n distinct domain numbers below n. */
  predicate ValidOrder(order: seq<int>, n: nat)
    requires n <= |order|
  {
    && (forall i | 0 <= i < n :: 0 <= order[i] < n)
    && (forall i, j | 0 <= j < i < n :: order[i] != order[j])
  }

  /**
   An order is accepted exactly if its first n entries are a permutation: every number below n
   is among them. Pigeonhole both ways: then there is no room for a repetition or another number.
   */
  lemma ValidOrderIsPermutation(order: seq<int>, n: nat)
    requires n <= |order|
    ensures ValidOrder(order, n) <==> forall d | 0 <= d < n :: d in order[..n]
  {
    if ValidOrder(order, n) {
      forall d | 0 <= d < n ensures d in order[..n] {
        DistinctCoversAll(order, n, d);
        var i :| 0 <= i < n && order[i] == d;
        assert order[..n][i] == d;
      }
    }
    if forall d | 0 <= d < n :: d in order[..n] { CoveringIsDistinct(order, n); }
  }

  /** The domains with reset released, as the source reads them: a zero entry. */
  predicate Released(domains: seq<int>, d: int) {
    0 <= d < |domains| && domains[d] == 0
  }

  predicate Accepts(domains: seq<int>, order: seq<int>, n: int, step: int)
    requires n <= |order| && n <= |domains|
  {
    && 0 <= step < n && ValidOrder(order, n)
    && forall prior | 0 <= prior < step :: Released(domains, order[prior])
  }

  /** When a call releases a domain, without the scan: a permutation, and the domains before it at zero. */
  lemma AcceptsExactly(domains: seq<int>, order: seq<int>, n: nat, step: int)
    requires n <= |order| && n <= |domains|
    ensures Accepts(domains, order, n, step) <==>
      && 0 <= step < n && (forall d | 0 <= d < n :: d in order[..n])
      && forall prior | 0 <= prior < step :: 0 <= order[prior] < n && domains[order[prior]] == 0
  {
    ValidOrderIsPermutation(order, n);
    if Accepts(domains, order, n, step) {
      forall prior | 0 <= prior < step ensures 0 <= order[prior] < n && domains[order[prior]] == 0 {
        assert Released(domains, order[prior]);
      }
    }
  }

  /** The domains after one call. */
  function ResetStep(domains: seq<int>, order: seq<int>, n: int, step: int): (domains': seq<int>)
    requires n <= |order| && n <= |domains|
    ensures |domains'| == |domains|
  {
    if Accepts(domains, order, n, step) then domains[order[step] := 0] else domains
  }

  /** The method returns step + 1 or -1; the flag is left alone when an argument is out of range. */
  method ResetSeq(domRst: array<int>, order: seq<int>, n: int, step: int, flag: int)
    returns (r: int, badOrder: int)
    requires n <= |order| && n <= domRst.Length
    modifies domRst
    ensures domRst[..] == ResetStep(old(domRst[..]), order, n, step)
    ensures r == if Accepts(old(domRst[..]), order, n, step) then step + 1 else -1
    ensures forall d | 0 <= d < domRst.Length ::
      domRst[d] == if r >= 0 && d == order[step] then 0 else old(domRst[d])
    ensures badOrder == if !(0 <= step < n) then flag
      else if Accepts(old(domRst[..]), order, n, step) then 0 else 1
  {
    badOrder := flag;
    if n < 0 || step < 0 || step >= n { return -1, badOrder; }
    badOrder := 0;
    for i := 0 to n
      invariant badOrder == 0 || badOrder == 1
      invariant badOrder == 0 <==>
        && (forall k | 0 <= k < i :: 0 <= order[k] < n)
        && (forall k, j | 0 <= j < k < i :: order[k] != order[j])
    {
      ghost var before := badOrder;
      if order[i] < 0 || order[i] >= n { badOrder := 1; }
      for j := 0 to i
        invariant badOrder == 0 || badOrder == 1
        invariant badOrder == 0 <==>
          before == 0 && 0 <= order[i] < n && forall k | 0 <= k < j :: order[i] != order[k]
      {
        if order[i] == order[j] { badOrder := 1; }
      }
    }
    if badOrder != 0 { return -1, badOrder; }
    for prior := 0 to step
      invariant forall k | 0 <= k < prior :: Released(domRst[..], order[k])
    {
      if domRst[order[prior]] != 0 {
        assert !Released(domRst[..], order[prior]);
        return -1, 1;
      }
    }
    domRst[order[step]] := 0;
    return step + 1, 0;
  }

  // ---------- runs of calls with one order ----------

  /** The domains after calls with the given steps, in any sequence. */
  function Run(domains: seq<int>, order: seq<int>, n: int, steps: seq<int>): (domains': seq<int>)
    requires n <= |order| && n <= |domains|
    ensures |domains'| == |domains|
  {
    if steps == [] then domains
    else ResetStep(Run(domains, order, n, steps[..|steps| - 1]), order, n, steps[|steps| - 1])
  }

  /** Exactly the first k domains of the order are released. */
  ghost predicate PrefixReleased(domains: seq<int>, order: seq<int>, n: int, k: nat)
    requires n <= |order|
  {
    k <= n && forall i | 0 <= i < n :: (0 <= order[i] < |domains| && domains[order[i]] == 0) <==> i < k
  }

  lemma StepKeepsPrefix(domains: seq<int>, order: seq<int>, n: nat, step: int, k: nat) returns (k': nat)
    requires n <= |order| && n <= |domains| && ValidOrder(order, n)
    requires PrefixReleased(domains, order, n, k)
    ensures PrefixReleased(ResetStep(domains, order, n, step), order, n, k') && k <= k' <= k + 1
    ensures Accepts(domains, order, n, step) <==> 0 <= step < n && step <= k
    ensures Accepts(domains, order, n, step) ==> k' > step
  {
    var accepted := Accepts(domains, order, n, step);
    k' := if accepted && step == k then k + 1 else k;
    if 0 <= step < n && k < step { assert !Released(domains, order[k]); }
    forall i | 0 <= i < n
      ensures var domains' := ResetStep(domains, order, n, step);
        (0 <= order[i] < |domains| && domains'[order[i]] == 0) <==> i < k'
    {
      if accepted && i != step {
        assert order[i] != order[step];
      }
    }
  }

  /** Whatever the calls, the released domains are a prefix of the order. */
  lemma {:induction false} ReleasedIsPrefix(domains: seq<int>, order: seq<int>, n: nat, steps: seq<int>)
    returns (k: nat)
    requires n <= |order| && n <= |domains| && ValidOrder(order, n)
    requires forall d | 0 <= d < n :: domains[d] != 0
    ensures PrefixReleased(Run(domains, order, n, steps), order, n, k)
  {
    if steps == [] {
      k := 0;
    } else {
      k := ReleasedIsPrefix(domains, order, n, steps[..|steps| - 1]);
      k := StepKeepsPrefix(Run(domains, order, n, steps[..|steps| - 1]), order, n, steps[|steps| - 1], k);
    }
  }

  /** A call that succeeds at the last step leaves every domain released. */
  lemma LastStepReleasesAll(domains: seq<int>, order: seq<int>, n: nat, d: nat)
    requires n <= |order| && n <= |domains| && d < n
    requires Accepts(domains, order, n, n - 1)
    ensures ResetStep(domains, order, n, n - 1)[d] == 0
  {
    ValidOrderIsPermutation(order, n);
    assert d in order[..n];
    var i :| 0 <= i < n && order[..n][i] == d;
    assert i < n - 1 ==> Released(domains, order[i]);
  }

  /** An order with a repeated or out-of-range domain releases nothing, ever. */
  lemma {:induction false} BadOrderReleasesNothing(domains: seq<int>, order: seq<int>, n: nat, steps: seq<int>)
    requires n <= |order| && n <= |domains| && !ValidOrder(order, n)
    ensures Run(domains, order, n, steps) == domains
  {
    if steps != [] { BadOrderReleasesNothing(domains, order, n, steps[..|steps| - 1]); }
  }

  // ---------- clock divider ----------

  datatype Divider = Divider(count: Word, previousClock: int, output: bool)

  function Clocked(d: Divider, clkIn: int, n: Int): Divider {
    if n < 2 || n % 2 != 0 then d
    else if clkIn != 0 && d.previousClock == 0 then
      var count := (d.count + 1) % TWO_32;
      if count >= n / 2 then Divider(0, clkIn, !d.output)
      else Divider(count, clkIn, d.output)
    else d.(previousClock := clkIn)
  }

  class ClockDivider {
    var count: Word
    var previousClock: int
    var output: bool

    ghost function Value(): Divider
      reads this
    {
      Divider(count, previousClock, output)
    }

    constructor ()
      ensures Value() == Divider(0, 0, false)
    {
      count, previousClock, output := 0, 0, false;
    }

    method DivN(clkIn: int, n: Int) returns (r: int)
      modifies this
      ensures Value() == Clocked(old(Value()), clkIn, n)
      ensures r == if n < 2 || n % 2 != 0 then -1 else if output then 1 else 0
      ensures n < 2 || n % 2 != 0 ==> Value() == old(Value())
    {
      if n < 2 || n % 2 != 0 { return -1; }
      if clkIn != 0 && previousClock == 0 {
        count := (count + 1) % TWO_32;
        if count >= n / 2 {
          count := 0;
          output := !output;
        }
      }
      previousClock := clkIn;
      return if output then 1 else 0;
    }
  }

  function ClockRun(clock: seq<int>, n: Int): Divider {
    if clock == [] then Divider(0, 0, false)
    else Clocked(ClockRun(clock[..|clock| - 1], n), clock[|clock| - 1], n)
  }

  /** Rising edges of the input, which is low before it starts. */
  function RisingEdges(clock: seq<int>): nat {
    if clock == [] then 0
    else
      var past := clock[..|clock| - 1];
      RisingEdges(past) +
      if clock[|clock| - 1] != 0 && (past == [] || past[|past| - 1] == 0) then 1 else 0
  }

  lemma NextEdge(edges: nat, half: nat)
    requires half >= 1
    ensures (edges + 1) % half == if edges % half + 1 >= half then 0 else edges % half + 1
    ensures (edges + 1) / half == edges / half + if edges % half + 1 >= half then 1 else 0
  {
    var q, r := DivMod(edges, half);
    if r + 1 >= half {
      QuotientUnique(edges + 1, half, q + 1, 0);
    } else {
      QuotientUnique(edges + 1, half, q, r + 1);
    }
  }

  /** After so many rising edges the counter and the output are those of a division by 2 * half. */
  ghost predicate Divides(edges: nat, half: nat, count: nat, output: bool)
    requires half >= 1
  {
    count == edges % half && (output <==> edges / half % 2 == 1)
  }

  lemma EdgeDivides(edges: nat, half: nat, count: nat, output: bool)
    requires half >= 1 && Divides(edges, half, count, output)
    ensures if count + 1 >= half then Divides(edges + 1, half, 0, !output)
            else Divides(edges + 1, half, count + 1, output)
  {
    var q, r := DivMod(edges, half);
    NextEdge(edges, half);
    if count + 1 >= half { NextParity(q); }
  }

  lemma ClockedDivides(d: Divider, clkIn: int, n: Int, half: nat, edges: nat)
    requires n >= 2 && n % 2 == 0 && half == n / 2 && Divides(edges, half, d.count, d.output)
    ensures var d', edges' := Clocked(d, clkIn, n), if clkIn != 0 && d.previousClock == 0 then edges + 1 else edges;
      Divides(edges', half, d'.count, d'.output) && d'.previousClock == clkIn
  {
    var q, r := DivMod(edges, half);
    EdgeDivides(edges, half, d.count, d.output);
    QuotientUnique(d.count + 1, TWO_32, 0, d.count + 1);
  }

  lemma {:induction false} RunDivides(clock: seq<int>, n: Int, half: nat)
    requires n >= 2 && n % 2 == 0 && half == n / 2
    ensures Divides(RisingEdges(clock), half, ClockRun(clock, n).count, ClockRun(clock, n).output)
    ensures ClockRun(clock, n).previousClock == if clock == [] then 0 else clock[|clock| - 1]
  {
    if clock == [] {
      QuotientUnique(0, half, 0, 0);
    } else {
      var past := clock[..|clock| - 1];
      RunDivides(past, n, half);
      ClockedDivides(ClockRun(past, n), clock[|clock| - 1], n, half, RisingEdges(past));
    }
  }

  /** At tick i the input goes from zero, or the start, to non-zero. */
  predicate EdgeAt(clock: seq<int>, i: nat) {
    i < |clock| && clock[i] != 0 && (i == 0 || clock[i - 1] == 0)
  }

  ghost function EdgeTicks(clock: seq<int>): set<nat> {
    set i: nat | i < |clock| && EdgeAt(clock, i)
  }

  lemma {:induction false} EdgesAreCounted(clock: seq<int>)
    ensures RisingEdges(clock) == |EdgeTicks(clock)|
  {
    if clock == [] {
      assert EdgeTicks(clock) == {};
    } else {
      var last := |clock| - 1;
      EdgesAreCounted(clock[..last]);
      forall i: nat ensures EdgeAt(clock[..last], i) <==> i < last && EdgeAt(clock, i) {}
      assert EdgeTicks(clock) == EdgeTicks(clock[..last]) + if EdgeAt(clock, last) then {last} else {};
    }
  }

  /** The output toggles at every n/2-th rising edge: it divides the clock by n. */
  lemma DividesByN(clock: seq<int>, n: Int)
    requires n >= 2 && n % 2 == 0
    ensures var d, edges := ClockRun(clock, n), |EdgeTicks(clock)|;
      && d.count == edges % (n / 2)
      && (d.output <==> edges / (n / 2) % 2 == 1)
      && d.previousClock == if clock == [] then 0 else clock[|clock| - 1]
  {
    RunDivides(clock, n, n / 2);
    EdgesAreCounted(clock);
  }
}
