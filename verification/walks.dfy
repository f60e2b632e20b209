/** Walks and reachability over a successor function, shared by the A* search
    over the proximity graph and the breadth-first finder over plain adjacency
    lists. */
module Walks {

  /** The ids a node may step to, in adjacency-list order. */
  type Successors = int -> seq<int>

  /** A non-empty node sequence in which every node is followed by one of its
      successors. */
  ghost predicate IsWalk(next: Successors, p: seq<int>) {
    |p| >= 1 && forall i :: 0 < i < |p| ==> p[i] in next(p[i - 1])
  }

  ghost predicate Reachable(next: Successors, s: int, t: int) {
    exists p :: IsWalk(next, p) && p[0] == s && p[|p| - 1] == t
  }

  /** Every successor of a member is a member. */
  ghost predicate Closed(next: Successors, known: set<int>) {
    forall u, k :: u in known && 0 <= k < |next(u)| ==> next(u)[k] in known
  }

  /** A walk that starts inside a closed set never leaves it. */
  lemma {:induction false} WalkStaysInside(next: Successors, known: set<int>, p: seq<int>, n: nat)
    requires Closed(next, known) && IsWalk(next, p) && p[0] in known && n < |p|
    ensures p[n] in known
  {
    if n > 0 {
      WalkStaysInside(next, known, p, n - 1);
      var u := p[n - 1];
      var k :| 0 <= k < |next(u)| && next(u)[k] == p[n];
      assert next(u)[k] in known;
    }
  }

  /** A closed set holding `s` but not `t` proves `t` unreachable from `s`:
      this is how a search that runs out of work shows there is no path. */
  lemma {:induction false} ClosedSetSeparates(next: Successors, known: set<int>, s: int, t: int)
    requires Closed(next, known) && s in known && t !in known
    ensures !Reachable(next, s, t)
  {
    if Reachable(next, s, t) {
      var p :| IsWalk(next, p) && p[0] == s && p[|p| - 1] == t;
      WalkStaysInside(next, known, p, |p| - 1);
    }
  }

  /** One node is a walk to itself. */
  lemma {:induction false} ReachableSelf(next: Successors, s: int)
    ensures Reachable(next, s, s)
  {
    assert IsWalk(next, [s]);
  }

  /** A walk witnesses that its last node is reachable from its first. */
  lemma {:induction false} WalkReaches(next: Successors, p: seq<int>)
    requires IsWalk(next, p)
    ensures Reachable(next, p[0], p[|p| - 1])
  {
  }
}
