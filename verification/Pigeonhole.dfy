/**
 Counting arguments shared by the models: sizes of sets and of lists of distinct numbers.
 */
module Pigeonhole {

  ghost function Numbers(n: nat): (s: set<int>)
    ensures |s| == n && forall d :: d in s <==> 0 <= d < n
  {
    if n == 0 then {} else Numbers(n - 1) + {n - 1}
  }

  ghost function Listed(list: seq<int>, k: nat): set<int>
    requires k <= |list|
  {
    if k == 0 then {} else Listed(list, k - 1) + {list[k - 1]}
  }

  lemma {:induction false} ListedIsEntry(list: seq<int>, k: nat, d: int)
    requires k <= |list|
    ensures d in Listed(list, k) <==> exists i :: 0 <= i < k && list[i] == d
  {
    if k > 0 { ListedIsEntry(list, k - 1, d); }
  }

  lemma {:induction false} ListedCount(list: seq<int>, k: nat)
    requires k <= |list| && forall i, j | 0 <= j < i < k :: list[i] != list[j]
    ensures |Listed(list, k)| == k
  {
    if k > 0 {
      ListedCount(list, k - 1);
      ListedIsEntry(list, k - 1, list[k - 1]);
    }
  }

  lemma {:induction false} CountIsDistinct(list: seq<int>, k: nat)
    requires k <= |list|
    ensures |Listed(list, k)| <= k
    ensures |Listed(list, k)| == k ==> forall i, j | 0 <= j < i < k :: list[i] != list[j]
  {
    if k > 0 {
      CountIsDistinct(list, k - 1);
      if |Listed(list, k)| == k {
        forall j | 0 <= j < k - 1 ensures list[k - 1] != list[j] {
          ListedIsEntry(list, k - 1, list[j]);
        }
      }
    }
  }

  lemma SmallerSet<T>(a: set<T>, b: set<T>)
    requires a <= b
    ensures |a| <= |b|
  {
    assert b == a + (b - a);
  }

  lemma SubsetOfSameSize(a: set<int>, b: set<int>)
    requires a <= b && |a| == |b|
    ensures a == b
  {
    assert b == a + (b - a);
  }

  /** n distinct numbers below n are all of them. */
  lemma DistinctCoversAll(list: seq<int>, n: nat, d: nat)
    requires n <= |list| && d < n
    requires forall i | 0 <= i < n :: 0 <= list[i] < n
    requires forall i, j | 0 <= j < i < n :: list[i] != list[j]
    ensures exists i :: 0 <= i < n && list[i] == d
  {
    ListedCount(list, n);
    forall e | e in Listed(list, n) ensures e in Numbers(n) { ListedIsEntry(list, n, e); }
    SubsetOfSameSize(Listed(list, n), Numbers(n));
    ListedIsEntry(list, n, d);
  }

  /** Conversely, n numbers that cover all n numbers below n are distinct and below n. */
  lemma CoveringIsDistinct(list: seq<int>, n: nat)
    requires n <= |list| && forall d | 0 <= d < n :: d in list[..n]
    ensures forall i | 0 <= i < n :: 0 <= list[i] < n
    ensures forall i, j | 0 <= j < i < n :: list[i] != list[j]
  {
    forall d | d in Numbers(n) ensures d in Listed(list, n) {
      assert d in list[..n];
      ListedIsEntry(list, n, d);
    }
    CountIsDistinct(list, n);
    SmallerSet(Numbers(n), Listed(list, n));
    SubsetOfSameSize(Numbers(n), Listed(list, n));
    forall i | 0 <= i < n ensures 0 <= list[i] < n {
      ListedIsEntry(list, n, list[i]);
      assert list[i] in Numbers(n);
    }
  }

  /** n distinct numbers among 0..n leave out exactly one of them. */
  lemma DistinctLeavesOne(list: seq<int>, n: nat) returns (missing: nat)
    requires n <= |list|
    requires forall i | 0 <= i < n :: 0 <= list[i] <= n
    requires forall i, j | 0 <= j < i < n :: list[i] != list[j]
    ensures missing <= n
    ensures forall d | 0 <= d <= n :: d in Listed(list, n) <==> d != missing
  {
    var seen, left := Listed(list, n), Numbers(n + 1) - Listed(list, n);
    ListedCount(list, n);
    forall e | e in seen ensures e in Numbers(n + 1) { ListedIsEntry(list, n, e); }
    assert Numbers(n + 1) == seen + left;
    missing :| missing in left;
    SubsetOfSameSize({missing}, left);
  }
}
