/**
 * Directed graphs given as adjacency maps, and what the traversals promise
 * about them: walks, reachability and hop distance.
 */
module Graphs {

  /** Vertex id -> neighbour ids, in the order the adjacency field lists them. */
  type Adj = map<nat, seq<nat>>

  /** `adj.get(v, [])`: the neighbours of `v`, none for an id without a row. */
  function Succ(adj: Adj, v: nat): seq<nat>
  {
    if v in adj then adj[v] else []
  }

  /** Every id the adjacency map mentions, as a key or as a neighbour. */
  function Vertices(adj: Adj): set<nat>
  {
    adj.Keys + set v, n | v in adj && n in adj[v] :: n
  }

  lemma SuccInVertices(adj: Adj, v: nat, n: nat)
    requires n in Succ(adj, v)
    ensures n in Vertices(adj)
  {
    assert v in adj;
  }

  /** A sequence of vertices in which each one is a listed neighbour of the one before. */
  ghost predicate IsWalk(adj: Adj, p: seq<nat>)
  {
    |p| > 0 && forall i :: 0 < i < |p| ==> p[i] in Succ(adj, p[i - 1])
  }

  ghost predicate WalkFromTo(adj: Adj, p: seq<nat>, s: nat, e: nat)
  {
    IsWalk(adj, p) && p[0] == s && p[|p| - 1] == e
  }

  ghost predicate Reachable(adj: Adj, s: nat, e: nat)
  {
    exists p :: WalkFromTo(adj, p, s, e)
  }

  /** Some walk from `s` to `e` takes exactly `k` hops. */
  ghost predicate HasWalkOfLength(adj: Adj, s: nat, e: nat, k: nat)
  {
    exists p {:trigger WalkFromTo(adj, p, s, e)} :: WalkFromTo(adj, p, s, e) && |p| == k + 1
  }

  /** Every walk from `s` to `e` takes at least `k` hops. */
  ghost predicate NoShorterWalk(adj: Adj, s: nat, e: nat, k: nat)
  {
    forall p {:trigger WalkFromTo(adj, p, s, e)} :: WalkFromTo(adj, p, s, e) ==> k <= |p| - 1
  }

  /** `d` is the minimum hop count from `s` to `e`. */
  ghost predicate IsDistance(adj: Adj, s: nat, e: nat, d: nat)
  {
    HasWalkOfLength(adj, s, e, d) && NoShorterWalk(adj, s, e, d)
  }

  ghost predicate IsShortestPath(adj: Adj, p: seq<nat>, s: nat, e: nat)
  {
    WalkFromTo(adj, p, s, e) && NoShorterWalk(adj, s, e, |p| - 1)
  }

  /** No vertex repeats. */
  ghost predicate Distinct(p: seq<nat>)
  {
    forall i, j :: 0 <= i < j < |p| ==> p[i] != p[j]
  }

  /** Every neighbour of a member of `S` is in `S`. */
  ghost predicate ClosedUnder(adj: Adj, S: set<nat>)
  {
    forall v :: v in S ==> forall n :: n in Succ(adj, v) ==> n in S
  }

  lemma WalkExtend(adj: Adj, p: seq<nat>, s: nat, u: nat, v: nat)
    requires WalkFromTo(adj, p, s, u) && v in Succ(adj, u)
    ensures WalkFromTo(adj, p + [v], s, v)
  {
  }

  lemma WalkPrefix(adj: Adj, p: seq<nat>, i: nat)
    requires IsWalk(adj, p) && 0 < i <= |p|
    ensures IsWalk(adj, p[..i])
  {
  }

  lemma ReachableStep(adj: Adj, s: nat, u: nat, v: nat)
    requires Reachable(adj, s, u) && v in Succ(adj, u)
    ensures Reachable(adj, s, v)
  {
    var p :| WalkFromTo(adj, p, s, u);
    WalkExtend(adj, p, s, u, v);
  }

  lemma ReachableSelf(adj: Adj, s: nat)
    ensures Reachable(adj, s, s)
  {
    assert WalkFromTo(adj, [s], s, s);
  }

  /** A walk that starts inside a closed set never leaves it. */
  lemma {:induction false} ClosedSetHoldsWalk(adj: Adj, S: set<nat>, p: seq<nat>)
    requires ClosedUnder(adj, S) && IsWalk(adj, p) && p[0] in S
    ensures p[|p| - 1] in S
    decreases |p|
  {
    if |p| > 1 {
      WalkPrefix(adj, p, |p| - 1);
      ClosedSetHoldsWalk(adj, S, p[..|p| - 1]);
      assert p[|p| - 1] in Succ(adj, p[|p| - 2]);
    }
  }

  /** Nothing outside a closed set is reachable from inside it. */
  lemma ClosedSetBoundsReach(adj: Adj, S: set<nat>, s: nat, e: nat)
    requires ClosedUnder(adj, S) && s in S && e !in S
    ensures !Reachable(adj, s, e)
  {
    if p :| WalkFromTo(adj, p, s, e) {
      ClosedSetHoldsWalk(adj, S, p);
    }
  }

  lemma DistanceUnique(adj: Adj, s: nat, e: nat, d1: nat, d2: nat)
    requires IsDistance(adj, s, e, d1) && IsDistance(adj, s, e, d2)
    ensures d1 == d2
  {
    var p1 :| WalkFromTo(adj, p1, s, e) && |p1| == d1 + 1;
    var p2 :| WalkFromTo(adj, p2, s, e) && |p2| == d2 + 1;
  }

  lemma DistanceSelf(adj: Adj, s: nat)
    ensures IsDistance(adj, s, s, 0)
  {
    assert WalkFromTo(adj, [s], s, s);
  }

  lemma DistanceReachable(adj: Adj, s: nat, e: nat, d: nat)
    requires IsDistance(adj, s, e, d)
    ensures Reachable(adj, s, e)
  {
  }

  /** Python's `max(...)` over a non-empty collection of naturals. */
  method MaxOf(s: set<nat>) returns (m: nat)
    requires s != {}
    ensures m in s && forall x :: x in s ==> x <= m
  {
    var first :| first in s;
    m := first;
    var todo := s - {first};
    while todo != {}
      invariant todo <= s && m in s
      invariant forall y :: y in s && y !in todo ==> y <= m
      decreases |todo|
    {
      var x :| x in todo;
      if x > m {
        m := x;
      }
      todo := todo - {x};
    }
  }
}
