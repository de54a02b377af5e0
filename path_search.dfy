/**
 * `bfs_path` and `dfs_path` of the school graph: a search over vertex ids
 * that fills `visited` and `parent`, followed by the walk back from `end`
 * along the parent links, and the conversion of the ids to room names.
 */
module PathSearch {
  import opened Wrappers
  import opened Graphs
  import opened BfsLevels
  import opened SchoolGraphs
  import opened SearchState

  /**
   * "reconstruct path": follow `parent` from `end` until `start`.  The
   * source appends and reverses at the end; putting each vertex in front
   * yields the same list.
   */
  method TracePath(parent: map<nat, nat>, start: nat, end: nat, ghost adj: Adj, ghost depth: map<nat, nat>)
    returns (path: seq<nat>)
    requires ParentChain(adj, start, parent, depth) && end in depth
    ensures WalkFromTo(adj, path, start, end) && |path| == depth[end] + 1 && Distinct(path)
  {
    path := [];
    var cur := end;
    while true
      invariant cur in depth
      invariant Trail(adj, depth, [cur] + path, end)
      decreases depth[cur]
    {
      path := [cur] + path;
      if cur == start {
        break;
      }
      cur := parent[cur];
      assert ([cur] + path)[1..] == path;
    }
    forall i, j | 0 <= i < j < |path|
      ensures path[i] != path[j]
    {
      assert depth[path[i]] < depth[path[j]];
    }
  }

  /** A shortest path from a vertex to itself is that vertex alone. */
  lemma ShortestPathToSelf(adj: Adj, p: seq<nat>, s: nat)
    requires IsShortestPath(adj, p, s, s)
    ensures p == [s]
  {
    assert WalkFromTo(adj, [s], s, s);
  }

  /** The `for neighbor in self.adj.get(current, [])` loop of `bfs_path`. */
  method ExpandVertex(adj: Adj, start: nat, current: nat, visited: set<nat>, parent: map<nat, nat>,
                      queue: seq<nat>, ghost D: map<nat, nat>, ghost U: set<nat>)
    returns (visited': set<nat>, parent': map<nat, nat>, queue': seq<nat>, ghost D': map<nat, nat>)
    requires Vertices(adj) <= U
    requires Expanding(adj, start, D, parent, visited, queue, U, current, 0)
    ensures Expanding(adj, start, D', parent', visited', queue', U, current, |Succ(adj, current)|)
    ensures visited <= visited' && (visited' == visited ==> queue' == queue)
  {
    visited', parent', queue', D' := visited, parent, queue, D;
    var neighbors := Succ(adj, current);
    for j := 0 to |neighbors|
      invariant Expanding(adj, start, D', parent', visited', queue', U, current, j)
      invariant visited <= visited'
      invariant visited' == visited ==> queue' == queue
    {
      var neighbor := neighbors[j];
      if neighbor !in visited' {
        ExpandDiscover(adj, start, D', parent', visited', queue', U, current, j);
        visited' := visited' + {neighbor};
        parent' := parent'[neighbor := current];
        queue' := queue' + [neighbor];
        D' := D'[neighbor := D'[current] + 1];
      } else {
        BfsSkip(adj, start, D', queue', current, j);
      }
    }
  }

  /**
   * The `while queue` loop of `bfs_path` over ids.  `seededTwice` is the
   * queue of `Map_Find.py`, created holding `start` and then given `start`
   * again; `MapFind_dict.py` starts from an empty queue.  The loop stops
   * early once `end` is dequeued; otherwise it visits everything reachable.
   */
  method BfsSearch(adj: Adj, start: nat, end: nat, seededTwice: bool)
    returns (visited: set<nat>, parent: map<nat, nat>, ghost D: map<nat, nat>)
    ensures visited == D.Keys && Sound(adj, start, D) && ParentChain(adj, start, parent, D)
    ensures end in visited || !Reachable(adj, start, end)
  {
    var queue: seq<nat> := if seededTwice then [start] else [];
    visited := {};
    parent := map[];
    queue := queue + [start];
    visited := visited + {start};
    D := map[start := 0];
    ghost var U := {start} + Vertices(adj);
    BfsStart(adj, start, queue);
    visited, parent, D := BfsLoop(adj, start, end, visited, parent, queue, D, U);
  }

  /** The `while queue` loop of `bfs_path`, from a state the level invariant holds of. */
  method BfsLoop(adj: Adj, start: nat, end: nat, visited: set<nat>, parent: map<nat, nat>, queue: seq<nat>,
                 ghost D: map<nat, nat>, ghost U: set<nat>)
    returns (visited': set<nat>, parent': map<nat, nat>, ghost D': map<nat, nat>)
    requires Vertices(adj) <= U && Searching(adj, start, D, parent, visited, queue, U)
    ensures visited' == D'.Keys && Sound(adj, start, D') && ParentChain(adj, start, parent', D')
    ensures end in visited' || !Reachable(adj, start, end)
  {
    visited', parent', D' := visited, parent, D;
    var queue' := queue;
    while queue' != []
      invariant Searching(adj, start, D', parent', visited', queue', U)
      decreases |U - visited'|, |queue'|
    {
      BfsEnter(adj, start, D', queue');
      var current := queue'[0];
      queue' := queue'[1..];
      if current == end {
        return;
      }
      ghost var visited0 := visited';
      visited', parent', queue', D' := ExpandVertex(adj, start, current, visited', parent', queue', D', U);
      BfsLeave(adj, start, D', queue', current);
      GrowingShrinksRest(U, visited0, visited');
    }
    BfsDone(adj, start, D');
  }

  /** `bfs_path` over ids: the search, then the walk back along `parent`. */
  method BfsIndexPath(adj: Adj, start: nat, end: nat, seededTwice: bool) returns (r: Option<seq<nat>>)
    ensures r.None? <==> !Reachable(adj, start, end)
    ensures r.Some? ==> IsShortestPath(adj, r.value, start, end) && Distinct(r.value)
    ensures start == end ==> r == Some([start])
  {
    var visited, parent, D := BfsSearch(adj, start, end, seededTwice);
    if end !in visited {
      return None;
    }
    var path := TracePath(parent, start, end, adj, D);
    assert IsDistance(adj, start, end, D[end]);
    DistanceReachable(adj, start, end, D[end]);
    if start == end {
      ShortestPathToSelf(adj, path, start);
    }
    r := Some(path);
  }

  /**
   * The nested `dfs(current)` of `dfs_path`; `visited` and `parent` are the
   * enclosing function's variables it updates, passed in and handed back.
   * `stack` is the ghost set of vertices whose calls are still running.
   * A `false` result leaves `end` unvisited and everything visited outside
   * the stack with all its neighbours visited.
   */
  method Dfs(adj: Adj, start: nat, end: nat, current: nat, visited: set<nat>, parent: map<nat, nat>,
             ghost depth: map<nat, nat>, ghost stack: set<nat>, ghost U: set<nat>)
    returns (found: bool, visited': set<nat>, parent': map<nat, nat>, ghost depth': map<nat, nat>)
    requires Vertices(adj) <= U && current in U && visited <= U
    requires current !in visited && end !in visited && depth.Keys == visited + {current}
    requires ParentChain(adj, start, parent, depth)
    requires ClosedOutside(adj, visited, stack + {current})
    ensures visited + {current} <= visited' <= U && depth'.Keys == visited'
    ensures ParentChain(adj, start, parent', depth')
    ensures found <==> end in visited'
    ensures !found ==> ClosedOutside(adj, visited', stack)
    decreases |U - visited|, 0
  {
    visited' := visited + {current};
    if current == end {
      return true, visited', parent, depth;
    }
    ClosedOutsideGrow(adj, visited, visited', stack + {current});
    ShrinkingSet(U - visited', U - visited, current);
    found, visited', parent', depth' := DfsNeighbors(adj, start, end, current, visited', parent, depth, stack, U);
  }

  /**
   * The `for neighbor in self.adj.get(current, [])` loop of `dfs`: each
   * neighbour not yet visited gets `current` as its parent and its own call,
   * until one of those calls reaches `end`.
   */
  method DfsNeighbors(adj: Adj, start: nat, end: nat, current: nat, visited: set<nat>, parent: map<nat, nat>,
                      ghost depth: map<nat, nat>, ghost stack: set<nat>, ghost U: set<nat>)
    returns (found: bool, visited': set<nat>, parent': map<nat, nat>, ghost depth': map<nat, nat>)
    requires Vertices(adj) <= U && visited <= U && current in visited
    requires end !in visited && depth.Keys == visited
    requires ParentChain(adj, start, parent, depth)
    requires ClosedOutside(adj, visited, stack + {current})
    ensures visited <= visited' <= U && depth'.Keys == visited'
    ensures ParentChain(adj, start, parent', depth')
    ensures found <==> end in visited'
    ensures !found ==> ClosedOutside(adj, visited', stack)
    decreases |U - visited|, 1
  {
    found := false;
    visited', parent', depth' := visited, parent, depth;
    var neighbors := Succ(adj, current);
    for j := 0 to |neighbors|
      invariant visited <= visited' <= U && depth'.Keys == visited' && end !in visited'
      invariant ParentChain(adj, start, parent', depth')
      invariant ClosedOutside(adj, visited', stack + {current})
      invariant forall i :: 0 <= i < j ==> neighbors[i] in visited'
    {
      var neighbor := neighbors[j];
      if neighbor !in visited' {
        SuccInVertices(adj, current, neighbor);
        ChainExtend(adj, start, parent', depth', current, neighbor);
        parent' := parent'[neighbor := current];
        depth' := depth'[neighbor := depth'[current] + 1];
        SubsetCardinality(U - visited', U - visited);
        var sub;
        sub, visited', parent', depth' :=
          Dfs(adj, start, end, neighbor, visited', parent', depth', stack + {current}, U);
        if sub {
          return true, visited', parent', depth';
        }
      }
    }
    assert SuccsVisited(adj, current, visited') by {
      forall n | n in neighbors ensures n in visited' {
        var i :| 0 <= i < |neighbors| && neighbors[i] == n;
      }
    }
  }

  /** The search of `dfs_path` over ids: `dfs(start)`, then the walk back along `parent`. */
  method DfsIndexPath(adj: Adj, start: nat, end: nat) returns (r: Option<seq<nat>>)
    ensures r.None? <==> !Reachable(adj, start, end)
    ensures r.Some? ==> WalkFromTo(adj, r.value, start, end) && Distinct(r.value)
  {
    var visited: set<nat> := {};
    var parent: map<nat, nat> := map[];
    var found;
    ghost var depth;
    found, visited, parent, depth :=
      Dfs(adj, start, end, start, visited, parent, map[start := 0], {}, {start} + Vertices(adj));
    if !found {
      ClosedOutsideAll(adj, visited);
      ClosedSetBoundsReach(adj, visited, start, end);
      return None;
    }
    var path := TracePath(parent, start, end, adj, depth);
    r := Some(path);
  }

  /** Every vertex of an index path has a name, so the final name conversion cannot raise. */
  lemma PathHasNames(g: SchoolGraph, p: seq<nat>, s: nat)
    requires Valid(g) && Resolves(g) && s in g.adj
    requires IsWalk(g.adj, p) && p[0] == s
    ensures forall i :: 0 <= i < |p| ==> p[i] in g.idxToName
  {
    forall i | 0 <= i < |p|
      ensures p[i] in g.idxToName
    {
      if i > 0 {
        assert p[i] in Succ(g.adj, p[i - 1]);
      }
    }
  }

  /**
   * `bfs_path`: `KeyError` for an unregistered room name, `None` when `end`
   * cannot be reached, otherwise the room names along a shortest path.
   * `seededTwice` selects the queue set-up of `Map_Find.py` over that of
   * `MapFind_dict.py`; the result is specified the same way for both.
   */
  method BfsPath(g: SchoolGraph, startName: string, endName: string, seededTwice: bool)
    returns (r: Result<Option<seq<string>>>)
    requires Valid(g) && Resolves(g)
    ensures r.Failure? <==> startName !in g.nameToIdx || endName !in g.nameToIdx
    ensures r.Failure? ==> r.error == KeyError
    ensures r.Success? ==>
              var s, e := g.nameToIdx[startName], g.nameToIdx[endName];
              && (r.value.None? <==> !Reachable(g.adj, s, e))
              && (r.value.Some? ==> exists p :: IsShortestPath(g.adj, p, s, e) && Distinct(p)
                                                && (forall i :: 0 <= i < |p| ==> p[i] in g.idxToName)
                                                && r.value.value == ToNames(g, p))
              && (s == e ==> r.value == Some([g.idxToName[s]]))
  {
    if startName !in g.nameToIdx || endName !in g.nameToIdx {
      return Failure(KeyError);
    }
    var start := g.nameToIdx[startName];
    var end := g.nameToIdx[endName];
    var found := BfsIndexPath(g.adj, start, end, seededTwice);
    if found.None? {
      assert start != end;
      return Success(None);
    }
    var path := found.value;
    PathHasNames(g, path, start);
    r := Success(Some(ToNames(g, path)));
    if start == end {
      assert path == [start];
      assert ToNames(g, path) == [g.idxToName[start]];
    }
  }

  /** `dfs_path`: as `bfs_path`, with some repetition-free path in place of a shortest one. */
  method DfsPath(g: SchoolGraph, startName: string, endName: string) returns (r: Result<Option<seq<string>>>)
    requires Valid(g) && Resolves(g)
    ensures r.Failure? <==> startName !in g.nameToIdx || endName !in g.nameToIdx
    ensures r.Failure? ==> r.error == KeyError
    ensures r.Success? ==>
              var s, e := g.nameToIdx[startName], g.nameToIdx[endName];
              && (r.value.None? <==> !Reachable(g.adj, s, e))
              && (r.value.Some? ==> exists p :: WalkFromTo(g.adj, p, s, e) && Distinct(p)
                                                && (forall i :: 0 <= i < |p| ==> p[i] in g.idxToName)
                                                && r.value.value == ToNames(g, p))
  {
    if startName !in g.nameToIdx || endName !in g.nameToIdx {
      return Failure(KeyError);
    }
    var start := g.nameToIdx[startName];
    var end := g.nameToIdx[endName];
    var found := DfsIndexPath(g.adj, start, end);
    if found.None? {
      return Success(None);
    }
    var path := found.value;
    PathHasNames(g, path, start);
    r := Success(Some(ToNames(g, path)));
  }
}
