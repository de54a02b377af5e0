/**
 * `bfs_distances_from` and `graph_eccentricity` of the school graph: one
 * breadth-first pass per source recording hop counts, and the largest hop
 * count over every source.
 */
module Eccentricity {
  import opened Graphs
  import opened BfsLevels
  import opened SearchState

  /**
   * The `for neighbor in self.adj.get(current, [])` loop of
   * `bfs_distances_from`: an unseen neighbour gets `current_dist + 1` and
   * joins the queue.
   */
  method RecordNeighbors(adj: Adj, s: nat, current: nat, distances: map<nat, nat>, queue: seq<nat>,
                         ghost U: set<nat>)
    returns (distances': map<nat, nat>, queue': seq<nat>)
    requires Vertices(adj) <= U && distances.Keys <= U
    requires Scanning(adj, s, distances, queue, current, 0)
    ensures Scanning(adj, s, distances', queue', current, |Succ(adj, current)|)
    ensures distances.Keys <= distances'.Keys <= U
    ensures distances'.Keys == distances.Keys ==> queue' == queue
  {
    distances', queue' := distances, queue;
    var currentDist := distances[current];
    var neighbors := Succ(adj, current);
    for j := 0 to |neighbors|
      invariant Scanning(adj, s, distances', queue', current, j)
      invariant distances.Keys <= distances'.Keys <= U
      invariant distances'.Keys == distances.Keys ==> queue' == queue
      invariant distances'[current] == currentDist
    {
      var neighbor := neighbors[j];
      if neighbor !in distances' {
        BfsDiscover(adj, s, distances', queue', current, j);
        SuccInVertices(adj, current, neighbor);
        distances' := distances'[neighbor := currentDist + 1];
        queue' := queue' + [neighbor];
      } else {
        BfsSkip(adj, s, distances', queue', current, j);
      }
    }
  }

  /**
   * `bfs_distances_from(s)`: the keys are exactly the vertices reachable
   * from `s`, and each value is the hop distance, `s` itself at 0.
   */
  method BfsDistancesFrom(adj: Adj, s: nat) returns (distances: map<nat, nat>)
    ensures s in distances && distances[s] == 0
    ensures forall w :: w in distances <==> Reachable(adj, s, w)
    ensures Sound(adj, s, distances)
  {
    var queue: seq<nat> := [s];
    distances := map[s := 0];
    ghost var U := {s} + Vertices(adj);
    BfsStart(adj, s, queue);

    while queue != []
      invariant BfsInv(adj, s, distances, queue) && distances.Keys <= U
      decreases |U - distances.Keys|, |queue|
    {
      BfsEnter(adj, s, distances, queue);
      var current := queue[0];
      queue := queue[1..];
      ghost var seen := distances.Keys;
      distances, queue := RecordNeighbors(adj, s, current, distances, queue, U);
      BfsLeave(adj, s, distances, queue, current);
      GrowingShrinksRest(U, seen, distances.Keys);
    }
    BfsDone(adj, s, distances);
  }

  /** A shortest path found by `bfs_path` has as many hops as `bfs_distances_from` records for its end. */
  lemma PathLengthIsDistance(adj: Adj, s: nat, e: nat, p: seq<nat>, distances: map<nat, nat>)
    requires IsShortestPath(adj, p, s, e) && Sound(adj, s, distances) && e in distances
    ensures |p| - 1 == distances[e]
  {
    assert IsDistance(adj, s, e, distances[e]);
    assert IsDistance(adj, s, e, |p| - 1);
    DistanceUnique(adj, s, e, |p| - 1, distances[e]);
  }

  /** The largest value of a complete distance map bounds every hop distance from its source. */
  lemma DistanceBounded(adj: Adj, v: nat, distances: map<nat, nat>, localMax: nat)
    requires (forall w :: w in distances <==> Reachable(adj, v, w)) && Sound(adj, v, distances)
    requires forall x :: x in distances.Values ==> x <= localMax
    ensures forall w: nat, d: nat :: IsDistance(adj, v, w, d) ==> d <= localMax
  {
    forall w: nat, d: nat | IsDistance(adj, v, w, d)
      ensures d <= localMax
    {
      DistanceReachable(adj, v, w, d);
      assert IsDistance(adj, v, w, distances[w]);
      DistanceUnique(adj, v, w, d, distances[w]);
      assert distances[w] in distances.Values;
    }
  }

  /** The largest value of a distance map is itself a hop distance from its source. */
  lemma DistanceAttained(adj: Adj, v: nat, distances: map<nat, nat>, localMax: nat)
    requires Sound(adj, v, distances) && localMax in distances.Values
    ensures exists w: nat :: IsDistance(adj, v, w, localMax)
  {
    var w :| w in distances && distances[w] == localMax;
    assert IsDistance(adj, v, w, distances[w]);
  }

  /**
   * `graph_eccentricity`: the largest hop distance from any vertex with a
   * row to any vertex it reaches; 0 for a graph with no rows.  The source
   * visits `self.adj.keys()` in dict order; the maximum does not depend on
   * it, so any order is taken here.
   */
  method GraphEccentricity(adj: Adj) returns (m: nat)
    ensures forall v: nat, w: nat, d: nat :: v in adj && IsDistance(adj, v, w, d) ==> d <= m
    ensures m == 0 || exists v: nat, w: nat :: v in adj && IsDistance(adj, v, w, m)
  {
    m := 0;
    var todo := adj.Keys;
    while todo != {}
      invariant todo <= adj.Keys
      invariant forall v: nat, w: nat, d: nat :: v in adj && v !in todo && IsDistance(adj, v, w, d) ==> d <= m
      invariant m == 0 || exists v: nat, w: nat :: v in adj && IsDistance(adj, v, w, m)
      decreases |todo|
    {
      var v :| v in todo;
      var distances := BfsDistancesFrom(adj, v);
      assert distances[v] in distances.Values;
      var localMax := MaxOf(distances.Values);
      DistanceBounded(adj, v, distances, localMax);
      if localMax > m {
        DistanceAttained(adj, v, distances, localMax);
        m := localMax;
      }
      todo := todo - {v};
    }
  }

  /** Every listed edge leads back to its own vertex. */
  ghost predicate OnlySelfLoops(adj: Adj)
  {
    forall v, n :: v in adj && n in adj[v] ==> n == v
  }

  /** Without edges to other vertices a walk never moves. */
  lemma {:induction false} WalkStaysPut(adj: Adj, p: seq<nat>)
    requires OnlySelfLoops(adj) && IsWalk(adj, p)
    ensures p[|p| - 1] == p[0]
    decreases |p|
  {
    if |p| > 1 {
      WalkPrefix(adj, p, |p| - 1);
      WalkStaysPut(adj, p[..|p| - 1]);
      assert p[|p| - 1] in Succ(adj, p[|p| - 2]);
    }
  }

  /**
   * The eccentricity is 0 exactly when every edge is a self-loop (a graph
   * without rows or without edges included), not only for a single room.
   */
  lemma ZeroEccentricity(adj: Adj, m: nat)
    requires forall v: nat, w: nat, d: nat :: v in adj && IsDistance(adj, v, w, d) ==> d <= m
    requires m == 0 || exists v: nat, w: nat :: v in adj && IsDistance(adj, v, w, m)
    ensures m == 0 <==> OnlySelfLoops(adj)
  {
    if m == 0 && !OnlySelfLoops(adj) {
      var v, n :| v in adj && n in adj[v] && n != v;
      assert WalkFromTo(adj, [v, n], v, n);
      assert IsDistance(adj, v, n, 1);
    }
    if m != 0 && OnlySelfLoops(adj) {
      var v, w :| v in adj && IsDistance(adj, v, w, m);
      var p :| WalkFromTo(adj, p, v, w) && |p| == m + 1;
      WalkStaysPut(adj, p);
      assert WalkFromTo(adj, [v], v, w);
    }
  }
}
