/**
 * The earliest room graph (MapFind_old.py): rooms are keyed by name in a
 * `defaultdict(list)`, `add_edge` appends each neighbour at most once, and
 * the loader reads the room table in two passes, silently dropping whatever
 * it cannot use.
 */
module MapFindOld {
  import opened Wrappers
  import opened Text
  import opened SchoolGraphs

  /** `b` is listed among the neighbours of `a`. */
  predicate Edge(adj: map<string, seq<string>>, a: string, b: string)
  {
    a in adj && b in adj[a]
  }

  /** Every edge of `adj` is still an edge of `adj'`. */
  ghost predicate Grows(adj: map<string, seq<string>>, adj': map<string, seq<string>>)
  {
    adj.Keys <= adj'.Keys && forall a, b {:trigger Edge(adj, a, b)} :: Edge(adj, a, b) ==> Edge(adj', a, b)
  }

  /** Every list is duplicate-free. */
  ghost predicate DistinctLists(adj: map<string, seq<string>>)
  {
    forall k {:trigger adj[k]} :: k in adj ==> NoDuplicates(adj[k])
  }

  /** Every key has at least one neighbour. */
  ghost predicate NoEmptyRows(adj: map<string, seq<string>>)
  {
    forall k {:trigger adj[k]} :: k in adj ==> adj[k] != []
  }

  /** `v` is listed for `u` exactly when `u` is listed for `v`. */
  ghost predicate Symmetric(adj: map<string, seq<string>>)
  {
    forall a, b {:trigger Edge(adj, a, b)} :: Edge(adj, a, b) ==> Edge(adj, b, a)
  }

  /**
   * `adj[u]`, created empty by the `defaultdict` if missing, with `v`
   * appended unless it is already listed; nothing else changes.
   */
  function Connect(adj: map<string, seq<string>>, u: string, v: string): (r: map<string, seq<string>>)
    ensures r.Keys == adj.Keys + {u} && Edge(r, u, v)
    ensures forall k {:trigger r[k]} :: k in adj && k != u ==> r[k] == adj[k]
    ensures u in adj ==> adj[u] <= r[u] && |r[u]| <= |adj[u]| + 1
    ensures Edge(adj, u, v) ==> r == adj
  {
    var l := if u in adj then adj[u] else [];
    adj[u := if v in l then l else l + [v]]
  }

  /** The only new edge `Connect` makes is `u -> v`, and it loses none. */
  lemma ConnectEdges(adj: map<string, seq<string>>, u: string, v: string, a: string, b: string)
    ensures Edge(Connect(adj, u, v), a, b) <==> Edge(adj, a, b) || (a, b) == (u, v)
  {
    var r := Connect(adj, u, v);
    if a == u && u in adj && Edge(adj, a, b) {
      assert adj[u] <= r[u];
    }
  }

  lemma ConnectGrows(adj: map<string, seq<string>>, u: string, v: string)
    ensures Grows(adj, Connect(adj, u, v))
  {
    forall a, b | Edge(adj, a, b)
      ensures Edge(Connect(adj, u, v), a, b)
    {
      ConnectEdges(adj, u, v, a, b);
    }
  }

  /** The membership test before each append keeps every list duplicate-free. */
  lemma ConnectKeepsDistinct(adj: map<string, seq<string>>, u: string, v: string)
    requires DistinctLists(adj)
    ensures DistinctLists(Connect(adj, u, v))
  {
    var r := Connect(adj, u, v);
    if u in adj && v !in adj[u] {
      var l := adj[u] + [v];
      assert r[u] == l;
      forall i, j | 0 <= i < j < |l|
        ensures l[i] != l[j]
      {
        if j == |l| - 1 {
          assert l[i] in adj[u];
        }
      }
    }
  }

  /** `add_edge` never leaves a key without neighbours. */
  lemma ConnectKeepsRows(adj: map<string, seq<string>>, u: string, v: string)
    requires NoEmptyRows(adj)
    ensures NoEmptyRows(Connect(adj, u, v))
  {
  }

  /** An undirected `add_edge` keeps the graph symmetric. */
  lemma ConnectBothKeepsSymmetric(adj: map<string, seq<string>>, u: string, v: string)
    requires Symmetric(adj)
    ensures Symmetric(Connect(Connect(adj, u, v), v, u))
  {
    var m := Connect(adj, u, v);
    var r := Connect(m, v, u);
    forall a, b | Edge(r, a, b)
      ensures Edge(r, b, a)
    {
      ConnectEdges(m, v, u, a, b);
      ConnectEdges(adj, u, v, a, b);
      ConnectEdges(m, v, u, b, a);
      ConnectEdges(adj, u, v, b, a);
    }
  }

  /** The order of the dict's keys once `k` has been looked up through the `defaultdict`. */
  function AddKey<T(==)>(order: seq<T>, k: T): (r: seq<T>)
    ensures Elements(r) == Elements(order) + {k}
    ensures order <= r
    ensures NoDuplicates(order) ==> NoDuplicates(r)
  {
    if k in order then order else order + [k]
  }

  /** `SchoolGraph` of MapFind_old.py: `self.adj`, with its keys in insertion order. */
  class SchoolGraph {
    var adj: map<string, seq<string>>
    /** The order `self.adj.keys()` yields, that is the order in which keys were created. */
    var order: seq<string>

    ghost predicate Valid()
      reads this
    {
      && adj.Keys == Elements(order)
      && NoDuplicates(order)
      && DistinctLists(adj)
    }

    constructor()
      ensures Valid() && adj == map[] && order == []
    {
      adj := map[];
      order := [];
    }

    /**
     * `add_edge(u, v, undirected)`: both lookups go through the
     * `defaultdict`, so `u` (and, undirected, `v`) become keys even when
     * nothing is appended.
     */
    method AddEdge(u: string, v: string, undirected: bool)
      requires Valid()
      modifies this
      ensures Valid()
      ensures adj == if undirected then Connect(Connect(old(adj), u, v), v, u) else Connect(old(adj), u, v)
      ensures order == if undirected then AddKey(AddKey(old(order), u), v) else AddKey(old(order), u)
      ensures Edge(adj, u, v) && (undirected ==> Edge(adj, v, u))
      ensures Grows(old(adj), adj)
    {
      ConnectKeepsDistinct(adj, u, v);
      ConnectGrows(adj, u, v);
      adj := Connect(adj, u, v);
      order := AddKey(order, u);
      if undirected {
        ConnectKeepsDistinct(adj, v, u);
        ConnectGrows(adj, v, u);
        adj := Connect(adj, v, u);
        order := AddKey(order, v);
      }
    }

    /** `neighbors(room)`: `self.adj.get(room, [])`, which creates no key. */
    function Neighbors(room: string): (r: seq<string>)
      reads this
      requires Valid()
      ensures room !in adj ==> r == []
      ensures forall b :: b in r <==> Edge(adj, room, b)
      ensures NoDuplicates(r)
    {
      if room in adj then adj[room] else []
    }

    /** `rooms()`: every key once, in insertion order. */
    function Rooms(): (r: seq<string>)
      reads this
      requires Valid()
      ensures Elements(r) == adj.Keys
      ensures NoDuplicates(r)
    {
      order
    }
  }

  // ---------------------------------------------------------------------
  // The loader

  /**
   * The pieces of an adjacency field as the first pass keeps them: each is
   * stripped, blank pieces and pieces `int` rejects are skipped, the rest
   * kept in order.
   */
  function LenientTokens(pieces: seq<string>): seq<nat>
  {
    if pieces == [] then []
    else
      var ns := LenientTokens(pieces[..|pieces| - 1]);
      var p := Strip(pieces[|pieces| - 1]);
      if p == "" then ns
      else match ParseNat(p)
        case None => ns
        case Some(n) => ns + [n]
  }

  /** The inner `for piece in adj_str.split(",")` loop of the first pass. */
  method ParseLenient(pieces: seq<string>) returns (neighbors: seq<nat>)
    ensures neighbors == LenientTokens(pieces)
  {
    neighbors := [];
    for i := 0 to |pieces|
      invariant neighbors == LenientTokens(pieces[..i])
    {
      assert pieces[..i + 1][..i] == pieces[..i];
      var piece := Strip(pieces[i]);
      if piece == "" {
        continue;
      }
      var n := ParseNat(piece);
      if n.None? {
        continue;
      }
      neighbors := neighbors + [n.value];
    }
    assert pieces[..|pieces|] == pieces;
  }

  /** What `int` makes of each stripped piece, `None` where it raises. */
  function PieceValues(pieces: seq<string>): (r: seq<Option<nat>>)
    ensures |r| == |pieces|
  {
    if pieces == [] then [] else PieceValues(pieces[..|pieces| - 1]) + [ParseNat(Strip(pieces[|pieces| - 1]))]
  }

  lemma {:induction false} PieceValuesAt(pieces: seq<string>, i: nat)
    requires i < |pieces|
    ensures PieceValues(pieces)[i] == ParseNat(Strip(pieces[i]))
  {
    if i < |pieces| - 1 {
      var init := pieces[..|pieces| - 1];
      PieceValuesAt(init, i);
      assert init[i] == pieces[i];
      assert PieceValues(pieces)[i] == PieceValues(init)[i];
    }
  }

  /** Every kept number is the value of some piece, and every numeric piece is kept. */
  lemma {:induction false} LenientTokensMembers(pieces: seq<string>, n: nat)
    ensures n in LenientTokens(pieces) <==> Some(n) in PieceValues(pieces)
  {
    if pieces != [] {
      LenientTokensMembers(pieces[..|pieces| - 1], n);
    }
  }

  /** On a field the strict loaders accept, the lenient reading gives the same list. */
  lemma {:induction false} LenientAgreesWithStrict(pieces: seq<string>)
    requires Tokens(pieces).Some?
    ensures LenientTokens(pieces) == Tokens(pieces).value
  {
    if pieces != [] {
      var init := pieces[..|pieces| - 1];
      assert Tokens(init).Some?;
      LenientAgreesWithStrict(init);
    }
  }

  /** The index of a row the first pass keeps, or `None` for a row it skips. */
  function AcceptIndex(row: Row): Option<nat>
  {
    var idxStr := Strip(row.idx);
    if idxStr == "" || Strip(row.vertexName) == "" then None else ParseNat(idxStr)
  }

  /** The neighbour indices the first pass records for a row. */
  function RowNeighbors(row: Row): seq<nat>
  {
    var adjStr := Strip(row.adjacencies);
    if adjStr == "" then [] else LenientTokens(Split(adjStr, ','))
  }

  /** `index_to_name`, `raw_adj` and the insertion order of `raw_adj`'s keys. */
  datatype Tables = Tables(indexToName: map<nat, string>, rawAdj: map<nat, seq<nat>>, rawOrder: seq<nat>)

  /** Both dicts have the same keys, listed once each in `rawOrder`. */
  ghost predicate Consistent(t: Tables)
  {
    t.indexToName.Keys == t.rawAdj.Keys == Elements(t.rawOrder) && NoDuplicates(t.rawOrder)
  }

  /** `index_to_name[idx] = name` and `raw_adj[idx] = neighbors`: a dict keeps an overwritten key in place. */
  function Record(t: Tables, idx: nat, name: string, neighbors: seq<nat>): (r: Tables)
    requires Consistent(t)
    ensures Consistent(r)
    ensures r.indexToName.Keys == t.indexToName.Keys + {idx}
  {
    Tables(t.indexToName[idx := name], t.rawAdj[idx := neighbors], AddKey(t.rawOrder, idx))
  }

  /** The tables after the first pass over `rows`. */
  function Gather(rows: seq<Row>): (t: Tables)
    ensures Consistent(t)
  {
    if rows == [] then Tables(map[], map[], [])
    else
      var t := Gather(rows[..|rows| - 1]);
      var row := rows[|rows| - 1];
      match AcceptIndex(row)
      case None => t
      case Some(idx) => Record(t, idx, Strip(row.vertexName), RowNeighbors(row))
  }

  /** The index each row is kept under, `None` for a skipped row. */
  function AcceptedIndices(rows: seq<Row>): (r: seq<Option<nat>>)
    ensures |r| == |rows|
    ensures forall i :: 0 <= i < |rows| ==> r[i] == AcceptIndex(rows[i])
  {
    if rows == [] then [] else AcceptedIndices(rows[..|rows| - 1]) + [AcceptIndex(rows[|rows| - 1])]
  }

  /** The first pass keeps exactly the rows with a non-blank name and a non-blank integer index. */
  lemma {:induction false} GatherKeys(rows: seq<Row>, k: nat)
    ensures k in Gather(rows).indexToName <==> Some(k) in AcceptedIndices(rows)
  {
    if rows != [] {
      GatherKeys(rows[..|rows| - 1], k);
    }
  }

  /**
   * The last row kept under an index decides its name and its neighbours,
   * whatever rows with other indices come after it.
   */
  lemma {:induction false} GatherLastRowWins(rows: seq<Row>, k: nat, i: nat)
    requires i < |rows| && AcceptIndex(rows[i]) == Some(k)
    requires forall j :: i < j < |rows| ==> AcceptIndex(rows[j]) != Some(k)
    ensures k in Gather(rows).indexToName && k in Gather(rows).rawAdj
    ensures Gather(rows).indexToName[k] == Strip(rows[i].vertexName)
    ensures Gather(rows).rawAdj[k] == RowNeighbors(rows[i])
  {
    if i < |rows| - 1 {
      var init := rows[..|rows| - 1];
      assert init[i] == rows[i];
      assert forall j :: i < j < |init| ==> init[j] == rows[j];
      GatherLastRowWins(init, k, i);
    }
  }

  /** The first pass of `load_school_graph_from_csv`. */
  method FirstPass(rows: seq<Row>) returns (t: Tables)
    ensures t == Gather(rows)
  {
    var indexToName: map<nat, string> := map[];
    var rawAdj: map<nat, seq<nat>> := map[];
    var rawOrder: seq<nat> := [];
    for k := 0 to |rows|
      invariant Gather(rows[..k]) == Tables(indexToName, rawAdj, rawOrder)
    {
      assert rows[..k + 1][..k] == rows[..k];
      var row := rows[k];
      var idxStr := Strip(row.idx);
      var name := Strip(row.vertexName);
      var adjStr := Strip(row.adjacencies);
      if idxStr == "" || name == "" {
        continue;
      }
      var idx := ParseNat(idxStr);
      if idx.None? {
        continue;
      }
      indexToName := indexToName[idx.value := name];
      rawOrder := AddKey(rawOrder, idx.value);
      if adjStr == "" {
        rawAdj := rawAdj[idx.value := []];
      } else {
        var neighbors := ParseLenient(Split(adjStr, ','));
        rawAdj := rawAdj[idx.value := neighbors];
      }
    }
    assert rows[..|rows|] == rows;
    t := Tables(indexToName, rawAdj, rawOrder);
  }

  /** Some raw adjacency entry `u -> v` between two named indices carries the names `a` and `b`. */
  ghost predicate NamedEdge(t: Tables, a: string, b: string)
  {
    exists u, v :: u in t.rawAdj && v in t.rawAdj[u] && u in t.indexToName && v in t.indexToName
                   && t.indexToName[u] == a && t.indexToName[v] == b
  }

  /** Every entry of the built graph comes from a named raw edge, in one direction or the other. */
  ghost predicate FromNamedEdges(adj: map<string, seq<string>>, t: Tables)
  {
    forall a, b {:trigger Edge(adj, a, b)} :: Edge(adj, a, b) ==> NamedEdge(t, a, b) || NamedEdge(t, b, a)
  }

  /** Every named neighbour of `u`'s raw row is an edge of `adj`. */
  ghost predicate RowDone(adj: map<string, seq<string>>, t: Tables, u: nat)
  {
    forall v :: u in t.rawAdj && v in t.rawAdj[u] && u in t.indexToName && v in t.indexToName ==>
      Edge(adj, t.indexToName[u], t.indexToName[v])
  }

  lemma RowDoneGrows(adj: map<string, seq<string>>, adj': map<string, seq<string>>, t: Tables, u: nat)
    requires RowDone(adj, t, u) && Grows(adj, adj')
    ensures RowDone(adj', t, u)
  {
    forall v | u in t.rawAdj && v in t.rawAdj[u] && u in t.indexToName && v in t.indexToName
      ensures Edge(adj', t.indexToName[u], t.indexToName[v])
    {
      assert Edge(adj, t.indexToName[u], t.indexToName[v]);
    }
  }

  /** Adding both directions of a named edge keeps every entry accounted for. */
  lemma ConnectNamedEdge(adj: map<string, seq<string>>, t: Tables, a: string, b: string)
    requires FromNamedEdges(adj, t) && NamedEdge(t, a, b)
    ensures FromNamedEdges(Connect(Connect(adj, a, b), b, a), t)
  {
    var m := Connect(adj, a, b);
    var r := Connect(m, b, a);
    forall x, y | Edge(r, x, y)
      ensures NamedEdge(t, x, y) || NamedEdge(t, y, x)
    {
      ConnectEdges(m, b, a, x, y);
      ConnectEdges(adj, a, b, x, y);
    }
  }

  /** The graph invariant the second pass keeps. */
  ghost predicate Building(graph: SchoolGraph, t: Tables)
    reads graph
  {
    graph.Valid() && Symmetric(graph.adj) && NoEmptyRows(graph.adj) && FromNamedEdges(graph.adj, t)
  }

  /**
   * The inner loop of the second pass for the row of `u`: an undirected
   * edge to every neighbour index that has a name.
   */
  method AddRowEdges(graph: SchoolGraph, t: Tables, u: nat)
    requires Building(graph, t)
    requires u in t.rawAdj && u in t.indexToName
    modifies graph
    ensures Building(graph, t)
    ensures Grows(old(graph.adj), graph.adj)
    ensures RowDone(graph.adj, t, u)
  {
    var uName := t.indexToName[u];
    var neighbors := t.rawAdj[u];
    for j := 0 to |neighbors|
      invariant Building(graph, t)
      invariant Grows(old(graph.adj), graph.adj)
      invariant forall i :: 0 <= i < j && neighbors[i] in t.indexToName ==>
                  Edge(graph.adj, uName, t.indexToName[neighbors[i]])
    {
      var v := neighbors[j];
      if v !in t.indexToName {
        continue;
      }
      var vName := t.indexToName[v];
      ConnectBothKeepsSymmetric(graph.adj, uName, vName);
      ConnectNamedEdge(graph.adj, t, uName, vName);
      ConnectKeepsRows(graph.adj, uName, vName);
      ConnectKeepsRows(Connect(graph.adj, uName, vName), vName, uName);
      ghost var before := graph.adj;
      graph.AddEdge(uName, vName, true);
      forall i | 0 <= i < j && neighbors[i] in t.indexToName
        ensures Edge(graph.adj, uName, t.indexToName[neighbors[i]])
      {
        assert Edge(before, uName, t.indexToName[neighbors[i]]);
      }
    }
    forall v | v in neighbors && v in t.indexToName
      ensures Edge(graph.adj, uName, t.indexToName[v])
    {
      var i :| 0 <= i < |neighbors| && neighbors[i] == v;
    }
  }

  /** The second pass: an undirected edge for every raw entry whose two ends have names. */
  method SecondPass(t: Tables) returns (graph: SchoolGraph)
    requires Consistent(t)
    ensures fresh(graph) && Building(graph, t)
    ensures forall u :: RowDone(graph.adj, t, u)
  {
    graph := new SchoolGraph();
    for k := 0 to |t.rawOrder|
      invariant fresh(graph) && Building(graph, t)
      invariant forall i :: 0 <= i < k ==> RowDone(graph.adj, t, t.rawOrder[i])
    {
      var u := t.rawOrder[k];
      if u !in t.indexToName {
        continue;
      }
      ghost var before := graph.adj;
      AddRowEdges(graph, t, u);
      forall i | 0 <= i < k
        ensures RowDone(graph.adj, t, t.rawOrder[i])
      {
        RowDoneGrows(before, graph.adj, t, t.rawOrder[i]);
      }
    }
    forall u
      ensures RowDone(graph.adj, t, u)
    {
      if u in t.rawAdj {
        assert u in Elements(t.rawOrder);
        var i :| 0 <= i < |t.rawOrder| && t.rawOrder[i] == u;
      }
    }
  }

  /**
   * `load_school_graph_from_csv` over rows already read.  The result is
   * symmetric, has an edge for every raw entry between named indices,
   * every entry traces back to such a raw entry, and a room appears only
   * once it has a neighbour.
   */
  method Load(rows: seq<Row>) returns (graph: SchoolGraph)
    ensures fresh(graph) && graph.Valid()
    ensures Symmetric(graph.adj) && NoEmptyRows(graph.adj)
    ensures FromNamedEdges(graph.adj, Gather(rows))
    ensures forall u :: RowDone(graph.adj, Gather(rows), u)
  {
    var t := FirstPass(rows);
    graph := SecondPass(t);
  }
}
