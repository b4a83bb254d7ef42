/**
 The two searches that XOR a whole array: the value that occurs an odd number of times, and
 the value missing from 0..n.
 */
module XorSearch {
  import opened Pigeonhole
  import opened Words

  function XorAll(s: seq<nat>): nat {
    if s == [] then 0 else Xor(XorAll(s[..|s| - 1]), s[|s| - 1])
  }

  /** The numbers below n in order. */
  function UpTo(n: nat): (s: seq<nat>)
    ensures |s| == n && forall i | 0 <= i < n :: s[i] == i
  {
    seq(n, i requires 0 <= i => i)
  }

  lemma XorNext(s: seq<nat>, i: nat)
    requires i < |s|
    ensures XorAll(s[..i + 1]) == Xor(XorAll(s[..i]), s[i])
  {
    assert s[..i + 1][..i] == s[..i];
  }

  method XorUnique(values: seq<Word>, n: int) returns (result: nat)
    requires n <= |values|
    ensures result == if n < 0 then 0 else XorAll(values[..n])
  {
    result := 0;
    if n < 0 { return 0; }
    for i := 0 to n
      invariant result == XorAll(values[..i])
    {
      XorNext(values, i);
      result := Xor(result, values[i]);
    }
  }

  lemma XorNextAfter(before: seq<nat>, s: seq<nat>, i: nat)
    requires i < |s|
    ensures XorAll(before + s[..i + 1]) == Xor(XorAll(before + s[..i]), s[i])
  {
    var longer := before + s[..i + 1];
    assert longer[..|longer| - 1] == before + s[..i];
  }

  /** The source counts i up to n inclusive, so n must be below the largest int. */
  method XorMissing(values: seq<Word>, n: int) returns (result: nat)
    requires n <= |values| && n < 0x7FFF_FFFF
    ensures result == if n < 0 then 0 else XorAll(UpTo(n + 1) + values[..n])
  {
    result := 0;
    if n < 0 { return 0; }
    for i := 0 to n + 1
      invariant result == XorAll(UpTo(i))
    {
      assert UpTo(i + 1)[..i] == UpTo(i);
      result := Xor(result, i);
    }
    assert UpTo(n + 1) + values[..0] == UpTo(n + 1);
    for i := 0 to n
      invariant result == XorAll(UpTo(n + 1) + values[..i])
    {
      XorNextAfter(UpTo(n + 1), values, i);
      result := Xor(result, values[i]);
    }
  }

  // ---------- order does not matter and pairs cancel ----------

  function Without(s: seq<nat>, i: nat): seq<nat>
    requires i < |s|
  {
    s[..i] + s[i + 1..]
  }

  lemma {:induction false} XorWithout(s: seq<nat>, i: nat)
    requires i < |s|
    ensures XorAll(s) == Xor(XorAll(Without(s, i)), s[i])
    ensures multiset(s) == multiset(Without(s, i)) + multiset{s[i]}
  {
    assert s == s[..i] + [s[i]] + s[i + 1..];
    var last := |s| - 1;
    if i == last {
      assert Without(s, i) == s[..last];
    } else {
      var shorter := s[..last];
      XorWithout(shorter, i);
      assert Without(s, i)[..last - 1] == Without(shorter, i);
      assert Without(s, i)[last - 1] == s[last];
      var rest := XorAll(Without(shorter, i));
      XorAssociates(rest, s[i], s[last]);
      XorCommutes(s[i], s[last]);
      XorAssociates(rest, s[last], s[i]);
    }
  }

  ghost predicate Even(s: seq<nat>, w: nat) { multiset(s)[w] % 2 == 0 }

  /** An element that also occurs in front of the last one is dropped together with it. */
  lemma DropPair(s: seq<nat>, i: nat) returns (rest: seq<nat>)
    requires i < |s| - 1 && s[i] == s[|s| - 1]
    ensures |rest| == |s| - 2 && XorAll(s) == XorAll(rest)
    ensures multiset(s) == multiset(rest) + multiset{s[i], s[i]}
  {
    var front, x := s[..|s| - 1], s[i];
    rest := Without(front, i);
    assert s == front + [x];
    XorWithout(front, i);
    XorAssociates(XorAll(rest), x, x);
    XorSelf(x);
    XorZero(XorAll(rest));
  }

  lemma EarlierTwin(s: seq<nat>) returns (i: nat)
    requires s != [] && Even(s, s[|s| - 1])
    ensures i < |s| - 1 && s[i] == s[|s| - 1]
  {
    var front, x := s[..|s| - 1], s[|s| - 1];
    assert s == front + [x];
    assert x in multiset(front);
    i :| i < |front| && front[i] == x;
  }

  lemma {:induction false} EvenCancels(s: seq<nat>)
    requires forall w :: Even(s, w)
    ensures XorAll(s) == 0
    decreases |s|
  {
    if s != [] {
      var i := EarlierTwin(s);
      var rest := DropPair(s, i);
      forall w ensures Even(rest, w) {
        assert Even(s, w);
        assert multiset(s)[w] == multiset(rest)[w] + (if w == s[i] then 2 else 0);
      }
      EvenCancels(rest);
    }
  }

  /** If exactly one value occurs an odd number of times, the XOR is that value. */
  lemma OddOneOut(s: seq<nat>, v: nat)
    requires forall w :: Even(s, w) <==> w != v
    ensures XorAll(s) == v
  {
    var padded := s + [v];
    forall w ensures Even(padded, w) {
      assert Even(s, w) <==> w != v;
      assert multiset(padded)[w] == multiset(s)[w] + (if w == v then 1 else 0);
    }
    EvenCancels(padded);
    assert padded[..|s|] == s;
    var x := XorAll(s);
    XorAssociates(x, v, v);
    XorSelf(v);
    XorZero(x);
    XorZero(v);
  }

  lemma {:induction false} DistinctOccursOnce(s: seq<nat>, w: nat)
    requires forall i, j | 0 <= j < i < |s| :: s[i] != s[j]
    ensures multiset(s)[w] == if w in s then 1 else 0
  {
    if s != [] {
      var front := s[..|s| - 1];
      assert s == front + [s[|s| - 1]];
      DistinctOccursOnce(front, w);
    }
  }

  lemma ParityOfBoth(values: seq<nat>, n: nat, w: nat)
    requires n == |values|
    requires forall i | 0 <= i < n :: values[i] <= n
    requires forall i, j | 0 <= j < i < n :: values[i] != values[j]
    ensures Even(UpTo(n + 1) + values, w) <==> w > n || w in values
  {
    var first := UpTo(n + 1);
    DistinctOccursOnce(first, w);
    DistinctOccursOnce(values, w);
    if w <= n { assert first[w] == w; }
  }

  /** For n distinct values among 0..n, the second search gives the one that is absent. */
  lemma MissingIsFound(values: seq<nat>, n: nat, d: nat)
    requires n == |values| && d <= n
    requires forall i | 0 <= i < n :: values[i] <= n
    requires forall i, j | 0 <= j < i < n :: values[i] != values[j]
    ensures XorAll(UpTo(n + 1) + values) == d <==> d !in values
  {
    var missing := DistinctLeavesOne(values, n);
    var all := UpTo(n + 1) + values;
    forall w: nat ensures Even(all, w) <==> w != missing {
      ParityOfBoth(values, n, w);
      ListedIsEntry(values, n, w);
    }
    OddOneOut(all, missing);
    ListedIsEntry(values, n, d);
  }
}
