/**
 * The school room graph of `SchoolGraph` (Map_Find.py, and the identical
 * parts of MapFind_dict.py): three dictionaries filled row by row from the
 * room table, and the lookups over them.  After loading, the graph is never
 * changed, so it is a value here.
 */
module SchoolGraphs {
  import opened Wrappers
  import opened Text
  import opened Graphs

  /** One row of the room table, as the strings the CSV reader hands over. */
  datatype Row = Row(idx: string, vertexName: string, adjacencies: string)

  /** A row once its index and neighbour list are parsed and its name stripped. */
  datatype Record = Record(idx: nat, name: string, neighbors: seq<nat>)

  /** `self.adj`, `self.idx_to_name` and `self.name_to_idx`. */
  datatype SchoolGraph = SchoolGraph(adj: Adj, idxToName: map<nat, string>, nameToIdx: map<string, nat>)

  /** What loading always establishes: one name per row index, every name maps to a loaded index. */
  ghost predicate Valid(g: SchoolGraph)
  {
    && g.adj.Keys == g.idxToName.Keys
    && forall name :: name in g.nameToIdx ==> g.nameToIdx[name] in g.adj
  }

  /** Every listed neighbour id has a name, so name conversion cannot raise. */
  ghost predicate Resolves(g: SchoolGraph)
  {
    forall v, n :: v in g.adj && n in g.adj[v] ==> n in g.idxToName
  }

  /** The neighbour list an adjacency field denotes; `None` is the `ValueError` of `int(part)`. */
  function AdjacencyOf(field: string): Option<seq<nat>>
  {
    var s := Strip(field);
    if s == "" then Some([]) else Tokens(Split(s, ','))
  }

  /** Step 2 of the row loop: parse the adjacency field. */
  method ParseAdjacency(field: string) returns (r: Option<seq<nat>>)
    ensures r == AdjacencyOf(field)
  {
    var neighborsStr := Strip(field);
    if neighborsStr == "" {
      return Some([]);
    }
    r := ParseTokens(Split(neighborsStr, ','));
  }

  /** A list of ids written the way the room table writes it, `"1,2,3"`. */
  function FormatAdjacency(ns: seq<nat>): string
  {
    if ns == [] then "" else Join(DecimalPieces(ns), ',')
  }

  /** Parsing a written neighbour list gives back the ids, in written order; a blank field gives `[]`. */
  lemma AdjacencyRoundTrip(ns: seq<nat>)
    ensures AdjacencyOf(FormatAdjacency(ns)) == Some(ns)
  {
    if ns != [] {
      var pieces := DecimalPieces(ns);
      var field := Join(pieces, ',');
      forall i | 0 <= i < |pieces| ensures ',' !in pieces[i] {
        DecimalHasNoComma(ns[i]);
      }
      JoinOfDecimalsUnspaced(ns);
      StripUnspaced(field);
      SplitJoin(pieces, ',');
      TokensOfDecimals(ns);
    }
  }

  lemma {:induction false} JoinOfDecimalsUnspaced(ns: seq<nat>)
    requires ns != []
    ensures var f := Join(DecimalPieces(ns), ',');
            f != [] && !IsSpace(f[0]) && !IsSpace(f[|f| - 1])
  {
    var ps := DecimalPieces(ns);
    var first := NatToDecimal(ns[0]);
    var last := NatToDecimal(ns[|ns| - 1]);
    assert IsDigit(first[0]) && IsDigit(last[|last| - 1]);
    JoinEnds(ps, ',');
  }

  lemma {:induction false} JoinEnds(ps: seq<string>, sep: char)
    requires |ps| >= 1 && forall i :: 0 <= i < |ps| ==> ps[i] != []
    ensures var f := Join(ps, sep);
            f != [] && f[0] == ps[0][0] && f[|f| - 1] == ps[|ps| - 1][|ps[|ps| - 1]| - 1]
  {
    if |ps| > 1 {
      JoinEnds(ps[1..], sep);
    }
  }

  /** One row parsed; `None` when `int(row["idx"])` or an `int(part)` raises. */
  function ParseRow(row: Row): Option<Record>
  {
    match ParseNat(row.idx)
    case None => None
    case Some(i) =>
      match AdjacencyOf(row.adjacencies)
      case None => None
      case Some(ns) => Some(Record(i, Strip(row.vertexName), ns))
  }

  /** All rows parsed, in order; `None` from the first row that raises. */
  function ParseRows(rows: seq<Row>): Option<seq<Record>>
  {
    Traverse(ParseRow, rows)
  }

  lemma ParseRowOf(row: Row, i: nat, ns: seq<nat>)
    requires ParseNat(row.idx) == Some(i) && AdjacencyOf(row.adjacencies) == Some(ns)
    ensures ParseRow(row) == Some(Record(i, Strip(row.vertexName), ns))
  {
  }

  /** Loading raises exactly when some row does not parse. */
  lemma ParseRowsFails(rows: seq<Row>)
    ensures ParseRows(rows).None? <==> exists i :: 0 <= i < |rows| && ParseRow(rows[i]).None?
  {
    TraverseFails(ParseRow, rows);
  }

  /** Steps 1 and 3 of the row loop: the three dictionary writes. */
  function Put(g: SchoolGraph, r: Record): SchoolGraph
  {
    SchoolGraph(g.adj[r.idx := r.neighbors], g.idxToName[r.idx := r.name], g.nameToIdx[r.name := r.idx])
  }

  /** The graph after writing every record in order. */
  function Ingest(records: seq<Record>): SchoolGraph
  {
    if records == [] then SchoolGraph(map[], map[], map[])
    else Put(Ingest(records[..|records| - 1]), records[|records| - 1])
  }

  /** `_load_from_csv`: the row loop over the table, raising on the first row that does not parse. */
  method Load(rows: seq<Row>) returns (r: Result<SchoolGraph>)
    ensures ParseRows(rows).None? ==> r == Failure(ValueError)
    ensures ParseRows(rows).Some? ==> r == Success(Ingest(ParseRows(rows).value))
  {
    var adj: Adj := map[];
    var idxToName: map<nat, string> := map[];
    var nameToIdx: map<string, nat> := map[];
    for k := 0 to |rows|
      invariant ParseRows(rows[..k]).Some?
      invariant SchoolGraph(adj, idxToName, nameToIdx) == Ingest(ParseRows(rows[..k]).value)
    {
      TraverseStep(ParseRow, rows, k);
      var idx := ParseNat(rows[k].idx);
      if idx.None? {
        TraverseFailureSticks(ParseRow, rows, k + 1);
        return Failure(ValueError);
      }
      var name := Strip(rows[k].vertexName);
      idxToName := idxToName[idx.value := name];
      nameToIdx := nameToIdx[name := idx.value];
      var neighbors := ParseAdjacency(rows[k].adjacencies);
      if neighbors.None? {
        TraverseFailureSticks(ParseRow, rows, k + 1);
        return Failure(ValueError);
      }
      adj := adj[idx.value := neighbors.value];
      ParseRowOf(rows[k], idx.value, neighbors.value);
      ghost var recs := ParseRows(rows[..k]).value;
      ghost var rec := Record(idx.value, name, neighbors.value);
      assert (recs + [rec])[..|recs|] == recs;
    }
    assert rows[..|rows|] == rows;
    r := Success(SchoolGraph(adj, idxToName, nameToIdx));
  }

  /** The loaded vertices are the row indices, the registered names the row names; the graph is `Valid`. */
  lemma {:induction false} IngestKeys(records: seq<Record>)
    ensures var g := Ingest(records);
            && g.adj.Keys == g.idxToName.Keys == (set i | 0 <= i < |records| :: records[i].idx)
            && g.nameToIdx.Keys == (set i | 0 <= i < |records| :: records[i].name)
            && Valid(g)
  {
    if records != [] {
      var init := records[..|records| - 1];
      IngestKeys(init);
      var last := records[|records| - 1];
      assert records == init + [last];
      IndicesSnoc(init, last);
      NamesSnoc(init, last);
      PutValid(Ingest(init), last);
    }
  }

  /** The three writes of one row keep the graph `Valid`. */
  lemma PutValid(g: SchoolGraph, r: Record)
    requires Valid(g)
    ensures Valid(Put(g, r))
  {
  }

  lemma IndicesSnoc(init: seq<Record>, last: Record)
    ensures (set i | 0 <= i < |init + [last]| :: (init + [last])[i].idx)
         == (set i | 0 <= i < |init| :: init[i].idx) + {last.idx}
  {
    var records := init + [last];
    assert forall i :: 0 <= i < |init| ==> records[i] == init[i];
    assert records[|init|] == last;
  }

  lemma NamesSnoc(init: seq<Record>, last: Record)
    ensures (set i | 0 <= i < |init + [last]| :: (init + [last])[i].name)
         == (set i | 0 <= i < |init| :: init[i].name) + {last.name}
  {
    var records := init + [last];
    assert forall i :: 0 <= i < |init| ==> records[i] == init[i];
    assert records[|init|] == last;
  }

  /** A repeated index keeps the last row's name and neighbour list. */
  lemma {:induction false} IngestLastIndexWins(records: seq<Record>, i: nat)
    requires i < |records|
    requires forall j :: i < j < |records| ==> records[j].idx != records[i].idx
    ensures var g := Ingest(records);
            && records[i].idx in g.idxToName && g.idxToName[records[i].idx] == records[i].name
            && NeighborsByIndex(g, records[i].idx) == records[i].neighbors
  {
    if i < |records| - 1 {
      IngestLastIndexWins(records[..|records| - 1], i);
    }
  }

  /** An index that no row carries has no name and no neighbours. */
  lemma {:induction false} IngestMissingIndex(records: seq<Record>, idx: nat)
    requires forall i :: 0 <= i < |records| ==> records[i].idx != idx
    ensures var g := Ingest(records);
            idx !in g.idxToName && NeighborsByIndex(g, idx) == []
  {
    if records != [] {
      IngestMissingIndex(records[..|records| - 1], idx);
    }
  }

  /** A repeated name keeps the index of the last row that carries it. */
  lemma {:induction false} IngestLastNameWins(records: seq<Record>, i: nat)
    requires i < |records|
    requires forall j :: i < j < |records| ==> records[j].name != records[i].name
    ensures var g := Ingest(records);
            records[i].name in g.nameToIdx && g.nameToIdx[records[i].name] == records[i].idx
  {
    if i < |records| - 1 {
      IngestLastNameWins(records[..|records| - 1], i);
    }
  }

  /** When no index and no name repeats, the two name maps are inverse to each other. */
  lemma {:induction false} IngestDistinctRowsConsistent(records: seq<Record>)
    requires forall i, j :: 0 <= i < j < |records| ==> records[i].idx != records[j].idx
    requires forall i, j :: 0 <= i < j < |records| ==> records[i].name != records[j].name
    ensures var g := Ingest(records);
            forall name :: name in g.nameToIdx ==>
              g.nameToIdx[name] in g.idxToName && g.idxToName[g.nameToIdx[name]] == name
  {
    if records != [] {
      var init := records[..|records| - 1];
      IngestDistinctRowsConsistent(init);
      IngestKeys(init);
      var g := Ingest(records);
      var last := records[|records| - 1];
      forall name | name in g.nameToIdx
        ensures g.idxToName[g.nameToIdx[name]] == name
      {
        if name != last.name {
          var i :| 0 <= i < |init| && init[i].name == name;
          assert records[i].idx != last.idx;
        }
      }
    }
  }

  /** `neighbors_by_index`: the stored list, or `[]` for an index without a row. */
  function NeighborsByIndex(g: SchoolGraph, idx: nat): (r: seq<nat>)
    ensures idx in g.adj ==> r == g.adj[idx]
    ensures idx !in g.adj ==> r == []
  {
    Succ(g.adj, idx)
  }

  /** `[self.idx_to_name[i] for i in ids]`. */
  function ToNames(g: SchoolGraph, ids: seq<nat>): (r: seq<string>)
    requires forall i :: 0 <= i < |ids| ==> ids[i] in g.idxToName
    ensures |r| == |ids| && forall i :: 0 <= i < |ids| ==> r[i] == g.idxToName[ids[i]]
  {
    if ids == [] then [] else [g.idxToName[ids[0]]] + ToNames(g, ids[1..])
  }

  /** `neighbors_by_name`: `KeyError` for an unknown name, otherwise the neighbour names in list order. */
  function NeighborsByName(g: SchoolGraph, name: string): (r: Result<seq<string>>)
    requires Resolves(g)
    ensures name !in g.nameToIdx <==> r == Failure(KeyError)
    ensures r.Success? ==> var ids := NeighborsByIndex(g, g.nameToIdx[name]);
              |r.value| == |ids| && forall i :: 0 <= i < |ids| ==> r.value[i] == g.idxToName[ids[i]]
  {
    if name !in g.nameToIdx then Failure(KeyError)
    else Success(ToNames(g, NeighborsByIndex(g, g.nameToIdx[name])))
  }

  /** `num_vertices`: the number of rows with distinct indices. */
  function NumVertices(g: SchoolGraph): nat
  {
    |g.adj|
  }

  /** The vertex count of a loaded graph is the number of distinct row indices. */
  lemma IngestVertexCount(records: seq<Record>)
    ensures NumVertices(Ingest(records)) == |set i | 0 <= i < |records| :: records[i].idx|
  {
    IngestKeys(records);
    assert Ingest(records).adj.Keys == set i | 0 <= i < |records| :: records[i].idx;
  }

  /**
   * `as_list_of_lists`: a list indexed by vertex id, `max key + 1` long, with
   * `[]` where no row exists; `max()` of no keys raises `ValueError`.
   */
  method AsListOfLists(g: SchoolGraph) returns (r: Result<seq<seq<nat>>>)
    ensures r.Failure? <==> g.adj == map[]
    ensures r.Failure? ==> r.error == ValueError
    ensures r.Success? ==> var lists := r.value;
              && |lists| > 0 && |lists| - 1 in g.adj
              && (forall k :: k in g.adj ==> k < |lists|)
              && (forall i :: 0 <= i < |lists| ==> lists[i] == NeighborsByIndex(g, i))
  {
    if g.adj == map[] {
      return Failure(ValueError);
    }
    var maxKey := MaxOf(g.adj.Keys);
    var lists := ListsByIndex(g.adj, maxKey + 1);
    r := Success(lists);
  }

  /** `result = [[] for _ in range(n)]`, then `result[idx] = nbrs` for every key. */
  method ListsByIndex(adj: Adj, n: nat) returns (lists: seq<seq<nat>>)
    requires forall k :: k in adj ==> k < n
    ensures |lists| == n
    ensures forall i :: 0 <= i < n ==> lists[i] == if i in adj then adj[i] else []
  {
    lists := seq(n, _ => []);
    var todo := adj.Keys;
    while todo != {}
      invariant todo <= adj.Keys && |lists| == n
      invariant forall i :: 0 <= i < n ==> lists[i] == if i in adj && i !in todo then adj[i] else []
      decreases |todo|
    {
      var idx :| idx in todo;
      lists := lists[idx := adj[idx]];
      todo := todo - {idx};
    }
  }
}
