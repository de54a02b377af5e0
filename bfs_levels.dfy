/**
 * The level-order argument behind every breadth-first loop of the school
 * graph: what holds of the `visited`/`distances` map and the FIFO queue at
 * the top of `while queue`, and while one dequeued vertex's neighbours are
 * being scanned.  Each breadth-first method carries these as its loop
 * invariants and calls the step lemmas below.
 */
module BfsLevels {
  import opened Graphs

  /** Every recorded level is the true hop distance from `s`. */
  ghost predicate Sound(adj: Adj, s: nat, D: map<nat, nat>)
  {
    forall v {:trigger D[v]} :: v in D ==> IsDistance(adj, s, v, D[v])
  }

  ghost predicate SuccsIn(adj: Adj, v: nat, D: map<nat, nat>)
  {
    forall n :: n in Succ(adj, v) ==> n in D
  }

  /** State at the top of the `while queue` loop. */
  ghost predicate BfsInv(adj: Adj, s: nat, D: map<nat, nat>, Q: seq<nat>)
  {
    && s in D && D[s] == 0 && Sound(adj, s, D)
    && (forall i :: 0 <= i < |Q| ==> Q[i] in D)
    && (forall i, j :: 0 <= i <= j < |Q| ==> D[Q[i]] <= D[Q[j]])
    && (|Q| > 0 ==> D[Q[|Q| - 1]] <= D[Q[0]] + 1)
    && (forall v {:trigger SuccsIn(adj, v, D)} :: v in D && v !in Q ==> SuccsIn(adj, v, D))
  }

  /** State while the neighbours of the dequeued `cur` are scanned, `j` of them done. */
  ghost predicate Scanning(adj: Adj, s: nat, D: map<nat, nat>, Q: seq<nat>, cur: nat, j: nat)
  {
    && s in D && D[s] == 0 && Sound(adj, s, D) && cur in D && j <= |Succ(adj, cur)|
    && (forall i :: 0 <= i < |Q| ==> Q[i] in D && D[cur] <= D[Q[i]] <= D[cur] + 1)
    && (forall i, k :: 0 <= i <= k < |Q| ==> D[Q[i]] <= D[Q[k]])
    && (forall v {:trigger SuccsIn(adj, v, D)} :: v in D && v !in Q && v != cur ==> SuccsIn(adj, v, D))
    && (forall i :: 0 <= i < j ==> Succ(adj, cur)[i] in D)
    && (forall p, w {:trigger WalkFromTo(adj, p, s, w)} :: WalkFromTo(adj, p, s, w) && w !in D ==> D[cur] + 1 <= |p| - 1)
  }

  /** The queue seeded with copies of `s`, and `s` alone at level 0. */
  lemma BfsStart(adj: Adj, s: nat, Q: seq<nat>)
    requires forall i :: 0 <= i < |Q| ==> Q[i] == s
    requires |Q| > 0
    ensures BfsInv(adj, s, map[s := 0], Q)
  {
    DistanceSelf(adj, s);
    assert Q[0] == s;
  }

  /** Some step of a walk leaves `D` for the first time. */
  lemma {:induction false} FirstOutside(p: seq<nat>, D: map<nat, nat>) returns (i: nat)
    requires |p| > 0 && p[0] in D && p[|p| - 1] !in D
    ensures 0 < i < |p| && p[i - 1] in D && p[i] !in D
  {
    if p[1] !in D {
      i := 1;
    } else {
      var k := FirstOutside(p[1..], D);
      i := k + 1;
    }
  }

  /** Dequeuing the head: nothing undiscovered is closer than one level past it. */
  lemma BfsEnter(adj: Adj, s: nat, D: map<nat, nat>, Q: seq<nat>)
    requires BfsInv(adj, s, D, Q) && |Q| > 0
    ensures Scanning(adj, s, D, Q[1..], Q[0], 0)
  {
    var L := D[Q[0]];
    forall p, w | WalkFromTo(adj, p, s, w) && w !in D
      ensures L + 1 <= |p| - 1
    {
      var i := FirstOutside(p, D);
      var u := p[i - 1];
      assert p[i] in Succ(adj, u);
      assert !SuccsIn(adj, u, D);
      var k :| 0 <= k < |Q| && Q[k] == u;
      assert L <= D[u];
      WalkPrefix(adj, p, i);
      assert WalkFromTo(adj, p[..i], s, u);
    }
    forall v | v in D && v !in Q[1..] && v != Q[0]
      ensures SuccsIn(adj, v, D)
    {
      assert v !in Q;
    }
  }

  /** Discovering an unseen neighbour `n` of `cur` at level `D[cur] + 1`. */
  lemma BfsDiscover(adj: Adj, s: nat, D: map<nat, nat>, Q: seq<nat>, cur: nat, j: nat)
    requires Scanning(adj, s, D, Q, cur, j) && j < |Succ(adj, cur)|
    requires Succ(adj, cur)[j] !in D
    ensures var n := Succ(adj, cur)[j];
            Scanning(adj, s, D[n := D[cur] + 1], Q + [n], cur, j + 1)
  {
    var n := Succ(adj, cur)[j];
    var D' := D[n := D[cur] + 1];
    var p :| WalkFromTo(adj, p, s, cur) && |p| == D[cur] + 1;
    WalkExtend(adj, p, s, cur, n);
    assert IsDistance(adj, s, n, D'[n]);
    forall v | v in D'
      ensures IsDistance(adj, s, v, D'[v])
    {
      if v != n {
        assert D'[v] == D[v];
      }
    }
    var Q' := Q + [n];
    forall v | v in D' && v !in Q' && v != cur
      ensures SuccsIn(adj, v, D')
    {
      assert v in D && v !in Q;
      assert SuccsIn(adj, v, D);
    }
  }

  /** A neighbour that is already known changes nothing. */
  lemma BfsSkip(adj: Adj, s: nat, D: map<nat, nat>, Q: seq<nat>, cur: nat, j: nat)
    requires Scanning(adj, s, D, Q, cur, j) && j < |Succ(adj, cur)|
    requires Succ(adj, cur)[j] in D
    ensures Scanning(adj, s, D, Q, cur, j + 1)
  {
  }

  /** All neighbours of `cur` scanned: back at the top of the loop. */
  lemma BfsLeave(adj: Adj, s: nat, D: map<nat, nat>, Q: seq<nat>, cur: nat)
    requires Scanning(adj, s, D, Q, cur, |Succ(adj, cur)|)
    ensures BfsInv(adj, s, D, Q)
  {
    forall v | v in D && v !in Q
      ensures SuccsIn(adj, v, D)
    {
      if v == cur {
        forall n | n in Succ(adj, cur) ensures n in D {
          var i :| 0 <= i < |Succ(adj, cur)| && Succ(adj, cur)[i] == n;
        }
      }
    }
  }

  /** An empty queue: the recorded vertices are exactly those reachable from `s`. */
  lemma BfsDone(adj: Adj, s: nat, D: map<nat, nat>)
    requires BfsInv(adj, s, D, [])
    ensures forall w :: w in D <==> Reachable(adj, s, w)
  {
    assert ClosedUnder(adj, D.Keys) by {
      forall v | v in D.Keys ensures forall n :: n in Succ(adj, v) ==> n in D.Keys {
        assert SuccsIn(adj, v, D);
      }
    }
    forall w
      ensures w in D <==> Reachable(adj, s, w)
    {
      if w in D {
        DistanceReachable(adj, s, w, D[w]);
      } else {
        ClosedSetBoundsReach(adj, D.Keys, s, w);
      }
    }
  }
}
