/**
 * `bfs_spanning_tree`, `dfs_spanning_tree` and `spanning_tree_names` of the
 * school graph.  A traversal from the root fills `visited` and the `parent`
 * dict; the dict's assignments, in insertion order, then become a symmetric
 * tree adjacency `{v: [] for v in visited}` with one entry per direction of
 * each parent link.
 */
module SpanningTrees {
  import opened Wrappers
  import opened Graphs
  import opened BfsLevels
  import opened SchoolGraphs
  import opened SearchState

  /** One `parent[child] = par` assignment, as the pair `(child, par)`. */
  type Link = (nat, nat)

  /** The keys of the `parent` dict. */
  function Children(links: seq<Link>): set<nat>
  {
    set i | 0 <= i < |links| :: links[i].0
  }

  /** `v` has been given a parent. */
  ghost predicate Linked(links: seq<Link>, v: nat)
  {
    exists i :: 0 <= i < |links| && links[i].0 == v
  }

  /**
   * The `parent` dict of a traversal from `start`, as its assignments in
   * insertion order: every visited vertex but `start` is assigned exactly
   * once, to a visited vertex it is a listed neighbour of.
   */
  ghost predicate TreeLinks(adj: Adj, start: nat, links: seq<Link>, visited: set<nat>)
  {
    && start in visited
    && (forall i :: 0 <= i < |links| ==>
          && links[i].0 in visited && links[i].0 != start
          && links[i].1 in visited && links[i].0 in Succ(adj, links[i].1))
    && (forall i, j :: 0 <= i < j < |links| ==> links[i].0 != links[j].0)
    && (forall v {:trigger Linked(links, v)} :: v in visited && v != start ==> Linked(links, v))
    && Rooted(start, links)
  }

  /** `v` was given a parent by one of the first `i` assignments. */
  ghost predicate LinkedBefore(links: seq<Link>, i: nat, v: nat)
    requires i <= |links|
  {
    exists j :: 0 <= j < i && links[j].0 == v
  }

  /**
   * Each parent is the root or a vertex given a parent earlier: the links
   * grow one tree out of `start`, with no cycle and no detached part.
   */
  ghost predicate Rooted(start: nat, links: seq<Link>)
  {
    forall i {:trigger LinkedBefore(links, i, links[i].1)} ::
      0 <= i < |links| ==> links[i].1 == start || LinkedBefore(links, i, links[i].1)
  }

  /** A new link whose parent is the root or already linked keeps the links rooted. */
  lemma RootedExtend(start: nat, links: seq<Link>, n: nat, cur: nat)
    requires Rooted(start, links) && (cur == start || Linked(links, cur))
    ensures Rooted(start, links + [(n, cur)])
  {
    var links' := links + [(n, cur)];
    forall i | 0 <= i < |links'|
      ensures links'[i].1 == start || LinkedBefore(links', i, links'[i].1)
    {
      if i < |links| {
        assert links'[i] == links[i];
        if links[i].1 != start {
          assert LinkedBefore(links, i, links[i].1);
          var j :| 0 <= j < i && links[j].0 == links[i].1;
          assert links'[j] == links[j];
        }
      } else if cur != start {
        var j :| 0 <= j < |links| && links[j].0 == cur;
        assert links'[j] == links[j];
      }
    }
  }

  /** Every member of `S` is reachable from `start`. */
  ghost predicate AllReachable(adj: Adj, start: nat, S: set<nat>)
  {
    forall v {:trigger Reachable(adj, start, v)} :: v in S ==> Reachable(adj, start, v)
  }

  /** `visited.add(n); parent[n] = cur` for an unvisited neighbour `n` of `cur`. */
  lemma LinksExtend(adj: Adj, start: nat, links: seq<Link>, visited: set<nat>, cur: nat, n: nat)
    requires TreeLinks(adj, start, links, visited)
    requires cur in visited && n !in visited && n in Succ(adj, cur)
    ensures TreeLinks(adj, start, links + [(n, cur)], visited + {n})
  {
    var links' := links + [(n, cur)];
    RootedExtend(start, links, n, cur);
    forall v | v in visited + {n} && v != start
      ensures Linked(links', v)
    {
      if v == n {
        assert links'[|links|].0 == v;
      } else {
        assert Linked(links, v);
        var i :| 0 <= i < |links| && links[i].0 == v;
        assert links'[i].0 == v;
      }
    }
  }

  /** The parent links of a finished traversal: one per visited vertex other than `start`. */
  lemma {:induction false} ChildrenCount(adj: Adj, start: nat, links: seq<Link>, visited: set<nat>)
    requires TreeLinks(adj, start, links, visited)
    ensures |links| == |visited| - 1
  {
    assert Children(links) == visited - {start} by {
      forall v | v in visited && v != start
        ensures v in Children(links)
      {
        assert Linked(links, v);
      }
    }
    DistinctChildren(links);
  }

  /** Distinct children: the dict has as many keys as assignments. */
  lemma {:induction false} DistinctChildren(links: seq<Link>)
    requires forall i, j :: 0 <= i < j < |links| ==> links[i].0 != links[j].0
    ensures |Children(links)| == |links|
  {
    if links != [] {
      var init := links[..|links| - 1];
      var last := links[|links| - 1].0;
      DistinctChildren(init);
      ChildrenSnoc(links);
      assert last !in Children(init) by {
        forall i | 0 <= i < |init| ensures init[i].0 != last {
          assert init[i] == links[i];
        }
      }
    }
  }

  /** One more assignment adds its child to the keys. */
  lemma ChildrenSnoc(links: seq<Link>)
    requires links != []
    ensures Children(links) == Children(links[..|links| - 1]) + {links[|links| - 1].0}
  {
    var init := links[..|links| - 1];
    forall c | c in Children(links)
      ensures c in Children(init) + {links[|links| - 1].0}
    {
      var i :| 0 <= i < |links| && links[i].0 == c;
      if i < |init| {
        assert init[i].0 == c;
      }
    }
    forall c | c in Children(init)
      ensures c in Children(links)
    {
      var i :| 0 <= i < |init| && init[i].0 == c;
      assert links[i].0 == c;
    }
  }

  // ---------------------------------------------------------------------
  // The breadth-first traversal of `bfs_spanning_tree`

  /** The state at the top of `while queue`: the level invariant plus the links. */
  ghost predicate TreeSearching(adj: Adj, start: nat, D: map<nat, nat>, links: seq<Link>,
                                visited: set<nat>, queue: seq<nat>, U: set<nat>)
  {
    BfsInv(adj, start, D, queue) && visited == D.Keys && visited <= U && TreeLinks(adj, start, links, visited)
    && Layered(D, links)
  }

  /** The state while the neighbours of `current` are scanned, `j` of them done. */
  ghost predicate TreeExpanding(adj: Adj, start: nat, D: map<nat, nat>, links: seq<Link>,
                                visited: set<nat>, queue: seq<nat>, U: set<nat>, current: nat, j: nat)
  {
    Scanning(adj, start, D, queue, current, j) && visited == D.Keys && visited <= U
    && TreeLinks(adj, start, links, visited) && Layered(D, links)
  }

  /** Each link's child sits one BFS level below its parent. */
  ghost predicate Layered(D: map<nat, nat>, links: seq<Link>)
  {
    forall i :: 0 <= i < |links| ==> links[i].0 in D && links[i].1 in D && D[links[i].0] == D[links[i].1] + 1
  }

  /**
   * Each link's child is one hop further from `start` than its parent, so
   * following the parents back from any vertex walks a shortest path.
   */
  ghost predicate ShortestLinks(adj: Adj, start: nat, links: seq<Link>)
  {
    forall i, d: nat {:trigger IsDistance(adj, start, links[i].1, d)} ::
      0 <= i < |links| && IsDistance(adj, start, links[i].1, d) ==> IsDistance(adj, start, links[i].0, d + 1)
  }

  /** Links that follow exact BFS levels go one hop further from `start` each. */
  lemma LayeredShortest(adj: Adj, start: nat, D: map<nat, nat>, links: seq<Link>)
    requires Sound(adj, start, D) && Layered(D, links)
    ensures ShortestLinks(adj, start, links)
  {
    forall i, d: nat | 0 <= i < |links| && IsDistance(adj, start, links[i].1, d)
      ensures IsDistance(adj, start, links[i].0, d + 1)
    {
      DistanceUnique(adj, start, links[i].1, d, D[links[i].1]);
      assert IsDistance(adj, start, links[i].0, D[links[i].0]);
    }
  }

  /**
   * The `for neighbor in self.adj.get(current, [])` loop of
   * `bfs_spanning_tree`.  `D` is ghost: the level of each visited vertex.
   */
  method ExpandTree(adj: Adj, start: nat, current: nat, visited: set<nat>, links: seq<Link>,
                    queue: seq<nat>, ghost D: map<nat, nat>, ghost U: set<nat>)
    returns (visited': set<nat>, links': seq<Link>, queue': seq<nat>, ghost D': map<nat, nat>)
    requires Vertices(adj) <= U
    requires TreeExpanding(adj, start, D, links, visited, queue, U, current, 0)
    ensures TreeExpanding(adj, start, D', links', visited', queue', U, current, |Succ(adj, current)|)
    ensures visited <= visited' && (visited' == visited ==> queue' == queue)
  {
    visited', links', queue', D' := visited, links, queue, D;
    var neighbors := Succ(adj, current);
    for j := 0 to |neighbors|
      invariant TreeExpanding(adj, start, D', links', visited', queue', U, current, j)
      invariant visited <= visited'
      invariant visited' == visited ==> queue' == queue
    {
      var neighbor := neighbors[j];
      if neighbor !in visited' {
        BfsDiscover(adj, start, D', queue', current, j);
        LinksExtend(adj, start, links', visited', current, neighbor);
        SuccInVertices(adj, current, neighbor);
        visited' := visited' + {neighbor};
        links' := links' + [(neighbor, current)];
        queue' := queue' + [neighbor];
        D' := D'[neighbor := D'[current] + 1];
      } else {
        BfsSkip(adj, start, D', queue', current, j);
      }
    }
  }

  /** The traversal of `bfs_spanning_tree`: every vertex reachable from `start`, with its parent link. */
  method BfsTreeLinks(adj: Adj, start: nat) returns (visited: set<nat>, links: seq<Link>)
    ensures TreeLinks(adj, start, links, visited) && ShortestLinks(adj, start, links)
    ensures forall w :: w in visited <==> Reachable(adj, start, w)
  {
    var queue: seq<nat> := [start];
    visited := {start};
    links := [];
    ghost var D: map<nat, nat> := map[start := 0];
    ghost var U := {start} + Vertices(adj);
    BfsStart(adj, start, queue);
    visited, links := BfsTreeLoop(adj, start, visited, links, queue, D, U);
  }

  /** The `while queue` loop of `bfs_spanning_tree`, from a state the level invariant holds of. */
  method BfsTreeLoop(adj: Adj, start: nat, visited: set<nat>, links: seq<Link>, queue: seq<nat>,
                     ghost D: map<nat, nat>, ghost U: set<nat>)
    returns (visited': set<nat>, links': seq<Link>)
    requires Vertices(adj) <= U && TreeSearching(adj, start, D, links, visited, queue, U)
    ensures TreeLinks(adj, start, links', visited') && ShortestLinks(adj, start, links')
    ensures forall w :: w in visited' <==> Reachable(adj, start, w)
  {
    visited', links' := visited, links;
    var queue' := queue;
    ghost var D' := D;
    while queue' != []
      invariant TreeSearching(adj, start, D', links', visited', queue', U)
      decreases |U - visited'|, |queue'|
    {
      BfsEnter(adj, start, D', queue');
      var current := queue'[0];
      queue' := queue'[1..];
      ghost var visited0 := visited';
      visited', links', queue', D' := ExpandTree(adj, start, current, visited', links', queue', D', U);
      BfsLeave(adj, start, D', queue', current);
      GrowingShrinksRest(U, visited0, visited');
    }
    BfsDone(adj, start, D');
    LayeredShortest(adj, start, D', links');
  }

  // ---------------------------------------------------------------------
  // The depth-first traversal of `dfs_spanning_tree`

  /**
   * The nested `dfs(current)` of `dfs_spanning_tree`, with the enclosing
   * `visited` and `parent` passed in and handed back.  `stack` is the ghost
   * set of vertices whose calls are still running; on return everything
   * visited outside it has all its neighbours visited.
   */
  method DfsTree(adj: Adj, start: nat, current: nat, visited: set<nat>, links: seq<Link>,
                 ghost stack: set<nat>, ghost U: set<nat>)
    returns (visited': set<nat>, links': seq<Link>)
    requires Vertices(adj) <= U && current in U && visited <= U && current !in visited
    requires TreeLinks(adj, start, links, visited + {current})
    requires AllReachable(adj, start, visited + {current})
    requires ClosedOutside(adj, visited, stack + {current})
    ensures visited + {current} <= visited' <= U
    ensures TreeLinks(adj, start, links', visited')
    ensures AllReachable(adj, start, visited')
    ensures ClosedOutside(adj, visited', stack)
    decreases |U - visited|
  {
    visited' := visited + {current};
    links' := links;
    ClosedOutsideGrow(adj, visited, visited', stack + {current});
    var neighbors := Succ(adj, current);
    for j := 0 to |neighbors|
      invariant visited + {current} <= visited' <= U
      invariant TreeLinks(adj, start, links', visited')
      invariant AllReachable(adj, start, visited')
      invariant ClosedOutside(adj, visited', stack + {current})
      invariant forall i :: 0 <= i < j ==> neighbors[i] in visited'
    {
      var neighbor := neighbors[j];
      if neighbor !in visited' {
        SuccInVertices(adj, current, neighbor);
        ReachableStep(adj, start, current, neighbor);
        LinksExtend(adj, start, links', visited', current, neighbor);
        ShrinkingSet(U - visited', U - visited, current);
        visited', links' := DfsTree(adj, start, neighbor, visited', links' + [(neighbor, current)],
                                    stack + {current}, U);
      }
    }
    assert SuccsVisited(adj, current, visited') by {
      forall n | n in neighbors
        ensures n in visited'
      {
        var i :| 0 <= i < |neighbors| && neighbors[i] == n;
      }
    }
  }

  /** The traversal of `dfs_spanning_tree`: `dfs(start)` from an empty `visited`. */
  method DfsTreeLinks(adj: Adj, start: nat) returns (visited: set<nat>, links: seq<Link>)
    ensures TreeLinks(adj, start, links, visited)
    ensures forall w :: w in visited <==> Reachable(adj, start, w)
  {
    ReachableSelf(adj, start);
    visited, links := DfsTree(adj, start, start, {}, [], {}, {start} + Vertices(adj));
    ClosedOutsideAll(adj, visited);
    forall w | w !in visited
      ensures !Reachable(adj, start, w)
    {
      ClosedSetBoundsReach(adj, visited, start, w);
    }
  }

  // ---------------------------------------------------------------------
  // Building `tree_adj` from the parent links

  /**
   * What `tree_adj[u]` holds once the links are processed: for each link in
   * order, the child when `u` is the parent, then the parent when `u` is
   * the child.
   */
  function Incident(links: seq<Link>, u: nat): seq<nat>
  {
    if links == [] then []
    else
      var (c, p) := links[|links| - 1];
      Incident(links[..|links| - 1], u) + (if p == u then [c] else []) + (if c == u then [p] else [])
  }

  /** `v` is listed for `u` exactly when some link joins them, in either direction. */
  lemma {:induction false} IncidentMembers(links: seq<Link>, u: nat, v: nat)
    ensures v in Incident(links, u) <==>
            exists i :: 0 <= i < |links| && (links[i] == (v, u) || links[i] == (u, v))
  {
    if links != [] {
      var init := links[..|links| - 1];
      IncidentMembers(init, u, v);
      if exists i :: 0 <= i < |init| && (init[i] == (v, u) || init[i] == (u, v)) {
        var i :| 0 <= i < |init| && (init[i] == (v, u) || init[i] == (u, v));
        assert links[i] == init[i];
      }
      if exists i :: 0 <= i < |links| && (links[i] == (v, u) || links[i] == (u, v)) {
        var i :| 0 <= i < |links| && (links[i] == (v, u) || links[i] == (u, v));
        if i < |init| {
          assert init[i] == links[i];
        }
      }
    }
  }

  /** The list positions of a tree adjacency: one per entry, so their number is the total length. */
  ghost function Slots(tree: map<nat, seq<nat>>): set<(nat, nat)>
  {
    set u, i | u in tree && 0 <= i < |tree[u]| :: (u, i)
  }

  /** `tree_adj[u].append(x)` adds one entry. */
  lemma SlotsAppend(tree: map<nat, seq<nat>>, u: nat, x: nat)
    requires u in tree
    ensures |Slots(tree[u := tree[u] + [x]])| == |Slots(tree)| + 1
  {
    var tree' := tree[u := tree[u] + [x]];
    assert Slots(tree') == Slots(tree) + {(u, |tree[u]|)};
  }

  /**
   * `tree_adj = {v: [] for v in visited}` and the loop over
   * `parent.items()`: each link appended in both directions.
   */
  method BuildTreeAdj(visited: set<nat>, links: seq<Link>) returns (tree: map<nat, seq<nat>>)
    requires forall i :: 0 <= i < |links| ==> links[i].0 in visited && links[i].1 in visited
    ensures tree.Keys == visited
    ensures forall u :: u in tree ==> tree[u] == Incident(links, u)
    ensures |Slots(tree)| == 2 * |links|
  {
    tree := map v | v in visited :: [];
    assert Slots(tree) == {};
    for k := 0 to |links|
      invariant tree.Keys == visited
      invariant forall u :: u in tree ==> tree[u] == Incident(links[..k], u)
      invariant |Slots(tree)| == 2 * k
    {
      var (child, par) := links[k];
      IncidentAppend(tree, links, k);
      SlotsAppend(tree, par, child);
      tree := tree[par := tree[par] + [child]];
      SlotsAppend(tree, child, par);
      tree := tree[child := tree[child] + [par]];
    }
    assert links[..|links|] == links;
  }

  /** Appending link `k` in both directions extends every list to the first `k + 1` links. */
  lemma IncidentAppend(tree: map<nat, seq<nat>>, links: seq<Link>, k: nat)
    requires k < |links| && links[k].0 in tree && links[k].1 in tree
    requires forall u :: u in tree ==> tree[u] == Incident(links[..k], u)
    ensures var (c, p) := links[k];
            var t := tree[p := tree[p] + [c]];
            var t' := t[c := t[c] + [p]];
            forall u :: u in t' ==> t'[u] == Incident(links[..k + 1], u)
  {
    assert links[..k + 1][..k] == links[..k];
  }

  /** A tree adjacency some parent links of a traversal from `s` give rise to. */
  ghost predicate BuiltFromLinks(adj: Adj, s: nat, tree: map<nat, seq<nat>>)
  {
    exists links :: TreeLinks(adj, s, links, tree.Keys) && forall u :: u in tree ==> tree[u] == Incident(links, u)
  }

  /**
   * A tree adjacency built from parent links that each go one hop further
   * from `s`: every tree entry joins two vertices one hop apart in distance.
   */
  ghost predicate BuiltFromShortestLinks(adj: Adj, s: nat, tree: map<nat, seq<nat>>)
  {
    exists links :: TreeLinks(adj, s, links, tree.Keys) && ShortestLinks(adj, s, links)
                    && forall u :: u in tree ==> tree[u] == Incident(links, u)
  }

  /** In the breadth-first tree, the two ends of every entry are one hop apart in distance from `s`. */
  lemma ShortestTreeEntry(adj: Adj, s: nat, tree: map<nat, seq<nat>>, u: nat, v: nat, du: nat, dv: nat)
    requires BuiltFromShortestLinks(adj, s, tree) && u in tree && v in tree[u]
    requires IsDistance(adj, s, u, du) && IsDistance(adj, s, v, dv)
    ensures du == dv + 1 || dv == du + 1
  {
    var links: seq<Link> :| TreeLinks(adj, s, links, tree.Keys) && ShortestLinks(adj, s, links)
                 && forall w :: w in tree ==> tree[w] == Incident(links, w);
    TreeEntry(adj, s, links, tree.Keys, u, v);
    var i :| 0 <= i < |links| && (links[i] == (v, u) || links[i] == (u, v));
    if links[i] == (v, u) {
      assert IsDistance(adj, s, links[i].1, du);
      DistanceUnique(adj, s, v, dv, du + 1);
    } else {
      assert IsDistance(adj, s, links[i].1, dv);
      DistanceUnique(adj, s, u, du, dv + 1);
    }
  }

  /** The tree adjacency is symmetric, and each entry is an edge of `adj` in one direction or the other. */
  lemma TreeShape(adj: Adj, s: nat, tree: map<nat, seq<nat>>)
    requires BuiltFromLinks(adj, s, tree)
    ensures forall u, v :: u in tree && v in tree[u] ==> v in tree && u in tree[v]
    ensures forall u, v :: u in tree && v in tree[u] ==> v in Succ(adj, u) || u in Succ(adj, v)
  {
    forall u, v | u in tree && v in tree[u]
      ensures v in tree && u in tree[v]
      ensures v in Succ(adj, u) || u in Succ(adj, v)
    {
      TreeShapeAt(adj, s, tree, u, v);
    }
  }

  lemma TreeShapeAt(adj: Adj, s: nat, tree: map<nat, seq<nat>>, u: nat, v: nat)
    requires BuiltFromLinks(adj, s, tree) && u in tree && v in tree[u]
    ensures v in tree && u in tree[v]
    ensures v in Succ(adj, u) || u in Succ(adj, v)
  {
    var links: seq<Link> :| TreeLinks(adj, s, links, tree.Keys) && forall w :: w in tree ==> tree[w] == Incident(links, w);
    TreeEntry(adj, s, links, tree.Keys, u, v);
    assert tree[v] == Incident(links, v);
    IncidentMembers(links, v, u);
  }

  /** An entry of the tree adjacency comes from a link between its two ends. */
  lemma TreeEntry(adj: Adj, s: nat, links: seq<Link>, visited: set<nat>, u: nat, v: nat)
    requires TreeLinks(adj, s, links, visited) && v in Incident(links, u)
    ensures v in visited && (v in Succ(adj, u) || u in Succ(adj, v))
    ensures exists i :: 0 <= i < |links| && (links[i] == (v, u) || links[i] == (u, v))
  {
    IncidentMembers(links, u, v);
  }

  /** `p` follows the lists of a tree adjacency, one entry at a time. */
  ghost predicate TreeWalk(tree: map<nat, seq<nat>>, p: seq<nat>)
  {
    && |p| > 0
    && (forall k :: 0 <= k < |p| ==> p[k] in tree)
    && (forall k :: 0 <= k < |p| - 1 ==> p[k + 1] in tree[p[k]])
  }

  /** Some walk along the tree adjacency leads from `s` to `v`. */
  ghost predicate TreeReaches(tree: map<nat, seq<nat>>, s: nat, v: nat)
  {
    exists p :: TreeWalk(tree, p) && p[0] == s && p[|p| - 1] == v
  }

  /** Every vertex of the tree adjacency is reached from `s` along it. */
  ghost predicate Connected(tree: map<nat, seq<nat>>, s: nat)
  {
    forall v {:trigger TreeReaches(tree, s, v)} :: v in tree ==> TreeReaches(tree, s, v)
  }

  lemma TreeWalkExtend(tree: map<nat, seq<nat>>, p: seq<nat>, v: nat)
    requires TreeWalk(tree, p) && v in tree && v in tree[p[|p| - 1]]
    ensures TreeWalk(tree, p + [v])
  {
    var q := p + [v];
    forall k | 0 <= k < |q| - 1
      ensures q[k + 1] in tree[q[k]]
    {
      if k < |p| - 1 {
        assert q[k] == p[k] && q[k + 1] == p[k + 1];
      }
    }
  }

  /** Each child is listed under its parent in the tree adjacency. */
  ghost predicate ChildListed(links: seq<Link>, tree: map<nat, seq<nat>>)
  {
    forall k :: 0 <= k < |links| ==> links[k].0 in tree && links[k].1 in tree && links[k].0 in tree[links[k].1]
  }

  /** Following parent links back from the child of link `i` ends at `s`: it hangs from the root. */
  lemma {:induction false} LinkReaches(s: nat, links: seq<Link>, tree: map<nat, seq<nat>>, i: nat)
    requires Rooted(s, links) && s in tree && ChildListed(links, tree)
    requires i < |links|
    ensures TreeReaches(tree, s, links[i].0)
    decreases i
  {
    var (c, par) := links[i];
    var p: seq<nat>;
    if par == s {
      p := [s];
    } else {
      assert LinkedBefore(links, i, par);
      var j :| 0 <= j < i && links[j].0 == par;
      LinkReaches(s, links, tree, j);
      p :| TreeWalk(tree, p) && p[0] == s && p[|p| - 1] == par;
    }
    TreeWalkExtend(tree, p, c);
    assert (p + [c])[0] == s && (p + [c])[|p|] == c;
  }

  /** The adjacency built from the links of a traversal is connected from its root. */
  lemma LinksConnected(adj: Adj, s: nat, links: seq<Link>, tree: map<nat, seq<nat>>)
    requires TreeLinks(adj, s, links, tree.Keys)
    requires forall u :: u in tree ==> tree[u] == Incident(links, u)
    ensures Connected(tree, s)
  {
    forall k | 0 <= k < |links|
      ensures links[k].0 in tree[links[k].1]
    {
      IncidentMembers(links, links[k].1, links[k].0);
    }
    forall v | v in tree
      ensures TreeReaches(tree, s, v)
    {
      if v == s {
        assert TreeWalk(tree, [s]);
      } else {
        assert Linked(links, v);
        var i :| 0 <= i < |links| && links[i].0 == v;
        LinkReaches(s, links, tree, i);
      }
    }
  }

  /** The links of a traversal from `s` turned into `tree_adj`, with its size. */
  method TreeFromLinks(ghost adj: Adj, s: nat, visited: set<nat>, links: seq<Link>) returns (tree: map<nat, seq<nat>>)
    requires TreeLinks(adj, s, links, visited)
    ensures tree.Keys == visited && BuiltFromLinks(adj, s, tree)
    ensures forall u :: u in tree ==> tree[u] == Incident(links, u)
    ensures Connected(tree, s)
    ensures |Slots(tree)| == 2 * (|tree| - 1)
  {
    tree := BuildTreeAdj(visited, links);
    ChildrenCount(adj, s, links, visited);
    LinksConnected(adj, s, links, tree);
  }

  /**
   * `bfs_spanning_tree`: `KeyError` for an unregistered root name, otherwise
   * a tree adjacency over exactly the vertices reachable from the root.
   */
  method BfsSpanningTree(g: SchoolGraph, startName: string) returns (r: Result<map<nat, seq<nat>>>)
    ensures r.Failure? <==> startName !in g.nameToIdx
    ensures r.Failure? ==> r.error == KeyError
    ensures r.Success? ==>
              var s := g.nameToIdx[startName];
              && (forall w :: w in r.value <==> Reachable(g.adj, s, w))
              && BuiltFromLinks(g.adj, s, r.value)
              && Connected(r.value, s)
              && |Slots(r.value)| == 2 * (|r.value| - 1)
              && BuiltFromShortestLinks(g.adj, s, r.value)
  {
    if startName !in g.nameToIdx {
      return Failure(KeyError);
    }
    var start := g.nameToIdx[startName];
    var visited, links := BfsTreeLinks(g.adj, start);
    var tree := TreeFromLinks(g.adj, start, visited, links);
    r := Success(tree);
  }

  /** `dfs_spanning_tree`: as `bfs_spanning_tree`, over the links of the depth-first traversal. */
  method DfsSpanningTree(g: SchoolGraph, startName: string) returns (r: Result<map<nat, seq<nat>>>)
    ensures r.Failure? <==> startName !in g.nameToIdx
    ensures r.Failure? ==> r.error == KeyError
    ensures r.Success? ==>
              var s := g.nameToIdx[startName];
              && (forall w :: w in r.value <==> Reachable(g.adj, s, w))
              && BuiltFromLinks(g.adj, s, r.value)
              && Connected(r.value, s)
              && |Slots(r.value)| == 2 * (|r.value| - 1)
  {
    if startName !in g.nameToIdx {
      return Failure(KeyError);
    }
    var start := g.nameToIdx[startName];
    var visited, links := DfsTreeLinks(g.adj, start);
    var tree := TreeFromLinks(g.adj, start, visited, links);
    r := Success(tree);
  }

  // ---------------------------------------------------------------------
  // `spanning_tree_names`

  /** The room names of the first `|order|` keys of a tree, as `tree_adj.items()` yields them. */
  function NamesOf(g: SchoolGraph, order: seq<nat>): set<string>
    requires forall i :: 0 <= i < |order| ==> order[i] in g.idxToName
  {
    set i | 0 <= i < |order| :: g.idxToName[order[i]]
  }

  lemma NamesOfSnoc(g: SchoolGraph, order: seq<nat>)
    requires |order| > 0 && forall i :: 0 <= i < |order| ==> order[i] in g.idxToName
    ensures NamesOf(g, order) == NamesOf(g, order[..|order| - 1]) + {g.idxToName[order[|order| - 1]]}
  {
    var init := order[..|order| - 1];
    forall i | 0 <= i < |init|
      ensures init[i] == order[i]
    {
    }
  }

  /**
   * The loop of `spanning_tree_names` over the first `|order|` keys of
   * `tree_adj`.  A later key with the same room name overwrites an earlier one.
   */
  function NamesFrom(g: SchoolGraph, tree: map<nat, seq<nat>>, order: seq<nat>): (r: map<string, seq<string>>)
    requires forall i :: 0 <= i < |order| ==> order[i] in tree && order[i] in g.idxToName
    requires forall k, n :: k in tree && n in tree[k] ==> n in g.idxToName
    ensures r.Keys == NamesOf(g, order)
  {
    if order == [] then map[]
    else
      var k := order[|order| - 1];
      NamesOfSnoc(g, order);
      NamesFrom(g, tree, order[..|order| - 1])[g.idxToName[k] := ToNames(g, tree[k])]
  }

  /** Each room name carries the neighbour names of the last key in `order` with that name. */
  lemma {:induction false} NamesFromValue(g: SchoolGraph, tree: map<nat, seq<nat>>, order: seq<nat>, i: nat)
    requires forall i :: 0 <= i < |order| ==> order[i] in tree && order[i] in g.idxToName
    requires forall k, n :: k in tree && n in tree[k] ==> n in g.idxToName
    requires i < |order| && forall j :: i < j < |order| ==> g.idxToName[order[j]] != g.idxToName[order[i]]
    ensures g.idxToName[order[i]] in NamesFrom(g, tree, order)
    ensures NamesFrom(g, tree, order)[g.idxToName[order[i]]] == ToNames(g, tree[order[i]])
  {
    if i < |order| - 1 {
      var init := order[..|order| - 1];
      NamesFromValue(g, tree, init, i);
    }
  }

  /** With keys of distinct room names, no key is lost. */
  lemma {:induction false} NamesFromCount(g: SchoolGraph, tree: map<nat, seq<nat>>, order: seq<nat>)
    requires forall i :: 0 <= i < |order| ==> order[i] in tree && order[i] in g.idxToName
    requires forall k, n :: k in tree && n in tree[k] ==> n in g.idxToName
    requires forall i, j :: 0 <= i < j < |order| ==> g.idxToName[order[i]] != g.idxToName[order[j]]
    ensures |NamesFrom(g, tree, order)| == |order|
  {
    if order != [] {
      var init := order[..|order| - 1];
      NamesFromCount(g, tree, init);
      var name := g.idxToName[order[|order| - 1]];
      assert name !in NamesOf(g, init);
    }
  }

  /** Over all the keys of a tree, the names reached are the names of its vertices. */
  lemma NamesOfKeys(g: SchoolGraph, tree: map<nat, seq<nat>>, order: seq<nat>)
    requires Elements(order) == tree.Keys
    requires forall k :: k in tree ==> k in g.idxToName
    ensures NamesOf(g, order) == set k | k in tree :: g.idxToName[k]
  {
    forall k | k in tree
      ensures g.idxToName[k] in NamesOf(g, order)
    {
      assert k in Elements(order);
      var i :| 0 <= i < |order| && order[i] == k;
    }
  }

  /**
   * `spanning_tree_names`: `order` lists the keys of `tree_adj` once each,
   * in the order the dict yields them.
   */
  function SpanningTreeNames(g: SchoolGraph, tree: map<nat, seq<nat>>, order: seq<nat>): (r: map<string, seq<string>>)
    requires Elements(order) == tree.Keys && NoDuplicates(order)
    requires forall k :: k in tree ==> k in g.idxToName
    requires forall k, n :: k in tree && n in tree[k] ==> n in g.idxToName
    ensures r.Keys == set k | k in tree :: g.idxToName[k]
  {
    NamesOfKeys(g, tree, order);
    NamesFrom(g, tree, order)
  }

  /** One more key of the loop of `spanning_tree_names` overwrites its name's entry. */
  lemma NamesFromStep(g: SchoolGraph, tree: map<nat, seq<nat>>, order: seq<nat>, k: nat)
    requires forall k :: k in tree ==> k in g.idxToName
    requires forall k, n :: k in tree && n in tree[k] ==> n in g.idxToName
    requires Elements(order) == tree.Keys && k < |order|
    ensures forall i :: 0 <= i < |order| ==> order[i] in tree && order[i] in g.idxToName
    ensures NamesFrom(g, tree, order[..k + 1])
            == NamesFrom(g, tree, order[..k])[g.idxToName[order[k]] := ToNames(g, tree[order[k]])]
  {
    assert forall i :: 0 <= i < |order| ==> order[i] in Elements(order);
    assert order[..k + 1][..k] == order[..k];
  }

  /** The `for idx, neighbors in tree_adj.items()` loop of `spanning_tree_names`. */
  method NameTree(g: SchoolGraph, tree: map<nat, seq<nat>>, order: seq<nat>) returns (nameAdj: map<string, seq<string>>)
    requires Elements(order) == tree.Keys && NoDuplicates(order)
    requires forall k :: k in tree ==> k in g.idxToName
    requires forall k, n :: k in tree && n in tree[k] ==> n in g.idxToName
    ensures nameAdj == SpanningTreeNames(g, tree, order)
  {
    nameAdj := map[];
    for k := 0 to |order|
      invariant forall i :: 0 <= i < |order| ==> order[i] in tree && order[i] in g.idxToName
      invariant nameAdj == NamesFrom(g, tree, order[..k])
    {
      NamesFromStep(g, tree, order, k);
      var idx := order[k];
      nameAdj := nameAdj[g.idxToName[idx] := ToNames(g, tree[idx])];
    }
    assert order[..|order|] == order;
  }

  /** Each room name carries the neighbour names of the last key in `order` with that name. */
  lemma SpanningTreeNamesValue(g: SchoolGraph, tree: map<nat, seq<nat>>, order: seq<nat>, i: nat)
    requires Elements(order) == tree.Keys && NoDuplicates(order)
    requires forall k :: k in tree ==> k in g.idxToName
    requires forall k, n :: k in tree && n in tree[k] ==> n in g.idxToName
    requires i < |order| && forall j :: i < j < |order| ==> g.idxToName[order[j]] != g.idxToName[order[i]]
    ensures g.idxToName[order[i]] in SpanningTreeNames(g, tree, order)
    ensures SpanningTreeNames(g, tree, order)[g.idxToName[order[i]]] == ToNames(g, tree[order[i]])
  {
    NamesFromValue(g, tree, order, i);
  }

  /**
   * With distinct room names, the renamed tree has one entry per vertex,
   * holding that vertex's neighbour names.
   */
  lemma SpanningTreeNamesCount(g: SchoolGraph, tree: map<nat, seq<nat>>, order: seq<nat>)
    requires Elements(order) == tree.Keys && NoDuplicates(order)
    requires forall k :: k in tree ==> k in g.idxToName
    requires forall k, n :: k in tree && n in tree[k] ==> n in g.idxToName
    requires forall a, b :: a in tree && b in tree && a != b ==> g.idxToName[a] != g.idxToName[b]
    ensures |SpanningTreeNames(g, tree, order)| == |tree|
    ensures forall k :: k in tree ==> SpanningTreeNames(g, tree, order)[g.idxToName[k]] == ToNames(g, tree[k])
  {
    assert forall i :: 0 <= i < |order| ==> order[i] in Elements(order);
    NamesFromCount(g, tree, order);
    DistinctElements(order);
    forall k | k in tree
      ensures SpanningTreeNames(g, tree, order)[g.idxToName[k]] == ToNames(g, tree[k])
    {
      assert k in Elements(order);
      var i :| 0 <= i < |order| && order[i] == k;
      NamesFromValue(g, tree, order, i);
    }
  }
}
