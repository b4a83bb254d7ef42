/**
 Cycle detection with a slow and a fast pointer, on any finite graph of nodes: the ghost
 set holds the nodes that can be reached and serves the specification only.
 */
module CycleDetect {
  import opened Pigeonhole
  import opened Words

  class Node {
    var value: int
    var next: Node?
  }

  /** The set contains the head, if any, and everything its nodes point to. */
  ghost predicate Closed(head: Node?, nodes: set<Node>)
    reads nodes
  {
    && (head != null ==> head in nodes)
    && forall n | n in nodes && n.next != null :: n.next in nodes
  }

  /** The node k links after the head, or null from the end of the list on. */
  ghost function Walk(head: Node?, nodes: set<Node>, k: nat): (n: Node?)
    requires Closed(head, nodes)
    reads nodes
    ensures n != null ==> n in nodes
  {
    if k == 0 then head
    else
      var before := Walk(head, nodes, k - 1);
      if before == null then null else before.next
  }

  lemma {:induction false} NullStays(head: Node?, nodes: set<Node>, i: nat, j: nat)
    requires Closed(head, nodes) && i <= j && Walk(head, nodes, i) == null
    ensures Walk(head, nodes, j) == null
  {
    if i < j { NullStays(head, nodes, i, j - 1); }
  }

  /** Walks that meet stay together. */
  lemma {:induction false} StayTogether(head: Node?, nodes: set<Node>, i: nat, j: nat, k: nat)
    requires Closed(head, nodes) && Walk(head, nodes, i) == Walk(head, nodes, j)
    ensures Walk(head, nodes, i + k) == Walk(head, nodes, j + k)
  {
    if k > 0 { StayTogether(head, nodes, i, j, k - 1); }
  }

  /** A node met twice makes the walk endless. */
  lemma {:induction false} MeetingIsEndless(head: Node?, nodes: set<Node>, i: nat, j: nat, k: nat)
    requires Closed(head, nodes) && i < j
    requires Walk(head, nodes, i) == Walk(head, nodes, j) != null
    ensures Walk(head, nodes, k) != null
  {
    if k <= j {
      if Walk(head, nodes, k) == null { NullStays(head, nodes, k, j); }
    } else {
      StayTogether(head, nodes, i, j, k - j);
      MeetingIsEndless(head, nodes, i, j, i + (k - j));
    }
  }

  // ---------- the pointers must meet ----------

  ghost function Visited(head: Node?, nodes: set<Node>, k: nat): (seen: set<Node>)
    requires Closed(head, nodes)
    reads nodes
    ensures seen <= nodes
  {
    if k == 0 then {}
    else
      var n := Walk(head, nodes, k - 1);
      Visited(head, nodes, k - 1) + if n == null then {} else {n}
  }

  lemma {:induction false} NotVisited(head: Node?, nodes: set<Node>, k: nat, n: Node)
    requires Closed(head, nodes) && forall i | 0 <= i < k :: Walk(head, nodes, i) != n
    ensures n !in Visited(head, nodes, k)
  {
    if k > 0 { NotVisited(head, nodes, k - 1, n); }
  }

  /** A walk without repetition visits a new node at every step. */
  lemma {:induction false} VisitedCount(head: Node?, nodes: set<Node>, k: nat)
    requires Closed(head, nodes)
    requires forall i | 0 <= i < k :: Walk(head, nodes, i) != null
    requires forall i, j | 0 <= i < j < k :: Walk(head, nodes, i) != Walk(head, nodes, j)
    ensures |Visited(head, nodes, k)| == k
  {
    if k > 0 {
      VisitedCount(head, nodes, k - 1);
      NotVisited(head, nodes, k - 1, Walk(head, nodes, k - 1));
    }
  }

  /** Pigeonhole: a walk that has not ended within |nodes| links repeats a node. */
  lemma Repeats(head: Node?, nodes: set<Node>) returns (a: nat, b: nat)
    requires Closed(head, nodes) && Walk(head, nodes, |nodes|) != null
    ensures a < b <= |nodes| && Walk(head, nodes, a) == Walk(head, nodes, b)
  {
    var n := |nodes| + 1;
    forall i | 0 <= i < n ensures Walk(head, nodes, i) != null {
      if Walk(head, nodes, i) == null { NullStays(head, nodes, i, |nodes|); }
    }
    if forall i, j | 0 <= i < j < n :: Walk(head, nodes, i) != Walk(head, nodes, j) {
      VisitedCount(head, nodes, n);
      SmallerSet(Visited(head, nodes, n), nodes);
      assert false;
    }
    a, b :| 0 <= a < b < n && Walk(head, nodes, a) == Walk(head, nodes, b);
  }

  lemma {:induction false} Laps(head: Node?, nodes: set<Node>, a: nat, lap: nat, m: nat, laps: nat)
    requires Closed(head, nodes) && a <= m
    requires Walk(head, nodes, a) == Walk(head, nodes, a + lap)
    ensures Walk(head, nodes, m) == Walk(head, nodes, m + laps * lap)
  {
    if laps > 0 {
      Laps(head, nodes, a, lap, m, laps - 1);
      StayTogether(head, nodes, a, a + lap, m - a + (laps - 1) * lap);
      assert m + laps * lap == a + lap + (m - a + (laps - 1) * lap);
    }
  }

  /** Slow and fast pointer meet within |nodes| steps, at a node or past the end. */
  lemma MeetingPoint(head: Node?, nodes: set<Node>) returns (m: nat)
    requires Closed(head, nodes) && head != null
    ensures 1 <= m <= |nodes| && Walk(head, nodes, m) == Walk(head, nodes, 2 * m)
  {
    SmallerSet({head}, nodes);
    if Walk(head, nodes, |nodes|) == null {
      m := |nodes|;
      NullStays(head, nodes, m, 2 * m);
    } else {
      var a, b := Repeats(head, nodes);
      var lap := b - a;
      var laps, r := DivMod(if a == 0 then lap else a + lap - 1, lap);
      m := laps * lap;
      Laps(head, nodes, a, lap, m, laps);
    }
  }

  // ---------- has_cycle ----------

  /** Following the links never reaches null. */
  ghost predicate Endless(head: Node?, nodes: set<Node>)
    requires Closed(head, nodes)
    reads nodes
  {
    forall k: nat :: Walk(head, nodes, k) != null
  }

  method HasCycle(head: Node?, ghost nodes: set<Node>) returns (r: bool)
    requires Closed(head, nodes)
    ensures r <==> Endless(head, nodes)
  {
    var slow, fast := head, head;
    ghost var i: nat, meeting: nat := 0, 0;
    if head != null { meeting := MeetingPoint(head, nodes); }
    while fast != null && fast.next != null
      invariant slow == Walk(head, nodes, i) && fast == Walk(head, nodes, 2 * i)
      invariant head == null ==> i == 0
      invariant head != null ==> i < meeting && Walk(head, nodes, meeting) == Walk(head, nodes, 2 * meeting)
      invariant forall j | 1 <= j <= i :: Walk(head, nodes, j) != Walk(head, nodes, 2 * j)
      decreases meeting - i
    {
      if slow == null { NullStays(head, nodes, i, 2 * i); }
      assert Walk(head, nodes, 2 * i + 1) == fast.next;
      slow := slow.next;
      fast := fast.next.next;
      i := i + 1;
      if slow == fast {
        if slow == null { NullStays(head, nodes, i, 2 * i - 1); }
        forall k: nat ensures Walk(head, nodes, k) != null {
          MeetingIsEndless(head, nodes, i, 2 * i, k);
        }
        return true;
      }
    }
    assert Walk(head, nodes, 2 * i) == null || Walk(head, nodes, 2 * i + 1) == null;
    return false;
  }

  ghost predicate ComesBack(head: Node?, nodes: set<Node>, i: nat, j: nat)
    requires Closed(head, nodes)
    reads nodes
  {
    i < j && Walk(head, nodes, i) == Walk(head, nodes, j) != null
  }

  /** The walk never ends exactly when it comes back to some node. */
  lemma EndlessIffCycle(head: Node?, nodes: set<Node>)
    requires Closed(head, nodes)
    ensures Endless(head, nodes) <==> exists i: nat, j: nat :: ComesBack(head, nodes, i, j)
  {
    if Endless(head, nodes) {
      var a, b := Repeats(head, nodes);
      assert ComesBack(head, nodes, a, b);
    } else if exists i: nat, j: nat :: ComesBack(head, nodes, i, j) {
      var i: nat, j: nat :| ComesBack(head, nodes, i, j);
      var k: nat :| Walk(head, nodes, k) == null;
      MeetingIsEndless(head, nodes, i, j, k);
    }
  }
}
