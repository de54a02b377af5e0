/**
 * The state the school graph's searches keep in `visited`, `parent` and the
 * queue, stated as predicates, with the lemmas that carry it across one
 * step of a search.
 */
module SearchState {
  import opened Graphs
  import opened BfsLevels

  /**
   * The parent links seen as a tree rooted at `start`: each recorded vertex
   * other than `start` was reached over an edge from its parent, one level
   * deeper.  `depth` is ghost bookkeeping; the source keeps only `parent`.
   */
  ghost predicate ParentChain(adj: Adj, start: nat, parent: map<nat, nat>, depth: map<nat, nat>)
  {
    && start in depth && depth[start] == 0
    && parent.Keys == depth.Keys - {start}
    && forall v {:trigger parent[v]} :: v in parent ==>
         && parent[v] in depth
         && depth[v] == depth[parent[v]] + 1
         && v in Succ(adj, parent[v])
  }

  /** `parent[n] = cur` for a newly reached `n` keeps the chain. */
  lemma ChainExtend(adj: Adj, start: nat, parent: map<nat, nat>, depth: map<nat, nat>, cur: nat, n: nat)
    requires ParentChain(adj, start, parent, depth)
    requires cur in depth && n !in depth && n in Succ(adj, cur)
    ensures ParentChain(adj, start, parent[n := cur], depth[n := depth[cur] + 1])
  {
    var parent', depth' := parent[n := cur], depth[n := depth[cur] + 1];
    forall v | v in depth' && v != start
      ensures v in parent' && parent'[v] in depth' && depth'[v] == depth'[parent'[v]] + 1
      ensures v in Succ(adj, parent'[v])
    {
      if v != n {
        assert v in depth;
        assert parent[v] != n;
      }
    }
  }

  /** The vertices from `t[0]` to `end` along parent links, each one level deeper than the last. */
  ghost predicate Trail(adj: Adj, depth: map<nat, nat>, t: seq<nat>, end: nat)
  {
    && IsWalk(adj, t) && t[|t| - 1] == end
    && (forall i :: 0 <= i < |t| ==> t[i] in depth)
    && forall i :: 0 <= i < |t| ==> depth[t[i]] == depth[t[0]] + i
  }

  /** Removing a member makes a finite set smaller: the searches' termination measure. */
  lemma ShrinkingSet(a: set<nat>, b: set<nat>, x: nat)
    requires a <= b && x in b && x !in a
    ensures |a| < |b|
  {
    SubsetCardinality(a, b - {x});
  }

  /** Recording new vertices shrinks the set of those still unrecorded. */
  lemma GrowingShrinksRest(U: set<nat>, a: set<nat>, b: set<nat>)
    requires a <= b <= U
    ensures a != b ==> |U - b| < |U - a|
  {
    if a != b {
      var x :| x in b && x !in a;
      ShrinkingSet(U - b, U - a, x);
    }
  }

  lemma {:induction false} SubsetCardinality(a: set<nat>, b: set<nat>)
    requires a <= b
    ensures |a| <= |b|
    decreases |a|
  {
    if a != {} {
      var y :| y in a;
      SubsetCardinality(a - {y}, b - {y});
    }
  }

  /** The search state at the top of `while queue`. */
  ghost predicate Searching(adj: Adj, start: nat, D: map<nat, nat>, parent: map<nat, nat>,
                            visited: set<nat>, queue: seq<nat>, U: set<nat>)
  {
    BfsInv(adj, start, D, queue) && visited == D.Keys && visited <= U && ParentChain(adj, start, parent, D)
  }

  /** The search state while the neighbours of `current` are scanned, `j` of them done. */
  ghost predicate Expanding(adj: Adj, start: nat, D: map<nat, nat>, parent: map<nat, nat>,
                            visited: set<nat>, queue: seq<nat>, U: set<nat>, current: nat, j: nat)
  {
    Scanning(adj, start, D, queue, current, j) && visited == D.Keys && visited <= U
    && ParentChain(adj, start, parent, D)
  }

  /** `visited.add(neighbor); parent[neighbor] = current; queue.append(neighbor)` */
  lemma ExpandDiscover(adj: Adj, start: nat, D: map<nat, nat>, parent: map<nat, nat>,
                       visited: set<nat>, queue: seq<nat>, U: set<nat>, current: nat, j: nat)
    requires Vertices(adj) <= U
    requires Expanding(adj, start, D, parent, visited, queue, U, current, j)
    requires j < |Succ(adj, current)| && Succ(adj, current)[j] !in visited
    ensures var n := Succ(adj, current)[j];
            Expanding(adj, start, D[n := D[current] + 1], parent[n := current],
                      visited + {n}, queue + [n], U, current, j + 1)
  {
    var n := Succ(adj, current)[j];
    BfsDiscover(adj, start, D, queue, current, j);
    ChainExtend(adj, start, parent, D, current, n);
    SuccInVertices(adj, current, n);
  }

  ghost predicate SuccsVisited(adj: Adj, v: nat, visited: set<nat>)
  {
    forall n :: n in Succ(adj, v) ==> n in visited
  }

  /** Every recorded vertex outside the active recursion has all its neighbours recorded. */
  ghost predicate ClosedOutside(adj: Adj, visited: set<nat>, stack: set<nat>)
  {
    forall v {:trigger SuccsVisited(adj, v, visited)} :: v in visited && v !in stack ==> SuccsVisited(adj, v, visited)
  }

  /** Recording more vertices, all of them on the stack, keeps the others closed. */
  lemma ClosedOutsideGrow(adj: Adj, visited: set<nat>, visited': set<nat>, stack: set<nat>)
    requires ClosedOutside(adj, visited, stack) && visited <= visited' && visited' - visited <= stack
    ensures ClosedOutside(adj, visited', stack)
  {
    forall v | v in visited' && v !in stack
      ensures SuccsVisited(adj, v, visited')
    {
      assert SuccsVisited(adj, v, visited);
    }
  }

  /** With the stack empty, the recorded vertices are closed under the edges. */
  lemma ClosedOutsideAll(adj: Adj, visited: set<nat>)
    requires ClosedOutside(adj, visited, {})
    ensures ClosedUnder(adj, visited)
  {
    forall v | v in visited
      ensures forall n :: n in Succ(adj, v) ==> n in visited
    {
      assert SuccsVisited(adj, v, visited);
    }
  }
}
