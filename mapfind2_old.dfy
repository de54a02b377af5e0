/**
 * The array-backed room graph of MapFind2_old.py: a fixed number of vertex
 * slots, each holding an optional name and a neighbour list, sized by the
 * largest index in the table and then filled row by row.  Unlike the other
 * loaders this one raises on the first malformed row.
 */
module MapFind2Old {
  import opened Wrappers
  import opened Text
  import opened SchoolGraphs

  /**
   * What `add_edges_from_string` reads from a field: `None` for a blank
   * field (the method returns early), the parsed list, or the `ValueError`
   * of `int(part)`.
   */
  function EdgesOf(s: string): (r: Result<Option<seq<nat>>>)
    ensures r.Failure? ==> r.error == ValueError
    ensures r == Success(None) <==> Strip(s) == ""
  {
    if Strip(s) == "" then Success(None)
    else match AdjacencyOf(s)
      case None => Failure(ValueError)
      case Some(ns) => Success(Some(ns))
  }

  /** Reading back a list written as `"1,2,3"` gives the list; an empty list is written blank. */
  lemma EdgesRoundTrip(ns: seq<nat>)
    ensures EdgesOf(FormatAdjacency(ns)) == Success(if ns == [] then None else Some(ns))
  {
    AdjacencyRoundTrip(ns);
    if ns != [] {
      var f := FormatAdjacency(ns);
      JoinOfDecimalsUnspaced(ns);
      StripUnspaced(f);
      assert Strip(f) == f;
    }
  }

  /** `SchoolGraph(n_vertices)` of MapFind2_old.py. */
  class SchoolGraph {
    var adj: array<seq<nat>>
    var vertexNames: array<Option<string>>

    ghost predicate Valid()
      reads this
    {
      adj.Length == vertexNames.Length
    }

    /** `n_vertices` empty neighbour lists and as many missing names. */
    constructor(n: nat)
      ensures Valid() && fresh(adj) && fresh(vertexNames)
      ensures adj.Length == n && forall k :: 0 <= k < n ==> adj[k] == [] && vertexNames[k] == None
    {
      adj := new seq<nat>[n](_ => []);
      vertexNames := new Option<string>[n](_ => None);
    }

    /** `add_vertex(idx, name)`: an index past the end is the `IndexError` of the list store. */
    method AddVertex(idx: nat, name: string) returns (r: Result<()>)
      requires Valid()
      modifies vertexNames
      ensures Valid()
      ensures idx < vertexNames.Length ==> r == Success(()) && vertexNames[..] == old(vertexNames[..])[idx := Some(name)]
      ensures idx >= vertexNames.Length ==> r == Failure(IndexError) && vertexNames[..] == old(vertexNames[..])
    {
      if idx >= vertexNames.Length {
        return Failure(IndexError);
      }
      vertexNames[idx] := Some(name);
      r := Success(());
    }

    /**
     * `add_edges_from_string(idx, s)`: a blank string returns without
     * touching the slot; otherwise the parsed list replaces it, a piece
     * `int` rejects raising `ValueError` first and an index past the end
     * raising `IndexError` only once the whole list has been parsed.
     */
    method AddEdgesFromString(idx: nat, s: string) returns (r: Result<()>)
      requires Valid()
      modifies adj
      ensures Valid()
      ensures EdgesOf(s).Failure? ==> r == Failure(ValueError) && adj[..] == old(adj[..])
      ensures EdgesOf(s) == Success(None) ==> r == Success(()) && adj[..] == old(adj[..])
      ensures EdgesOf(s).Success? && EdgesOf(s).value.Some? ==>
                if idx < adj.Length then r == Success(()) && adj[..] == old(adj[..])[idx := EdgesOf(s).value.value]
                else r == Failure(IndexError) && adj[..] == old(adj[..])
    {
      var adjacencyString := Strip(s);
      if adjacencyString == "" {
        return Success(());
      }
      var neighbors := ParseTokens(Split(adjacencyString, ','));
      if neighbors.None? {
        return Failure(ValueError);
      }
      if idx >= adj.Length {
        return Failure(IndexError);
      }
      adj[idx] := neighbors.value;
      r := Success(());
    }

    /** `neighbors(idx)`: the slot's list, or `IndexError` past the end. */
    function Neighbors(idx: nat): (r: Result<seq<nat>>)
      reads this, adj
      ensures r.Success? <==> idx < adj.Length
      ensures r.Success? ==> r.value == adj[idx]
      ensures r.Failure? ==> r.error == IndexError
    {
      if idx < adj.Length then Success(adj[idx]) else Failure(IndexError)
    }

    /** `len(graph)`: the number of vertex slots, named or not. */
    function Len(): (r: nat)
      reads this
      requires Valid()
      ensures r == adj.Length == vertexNames.Length
    {
      adj.Length
    }
  }

  // ---------------------------------------------------------------------
  // The loader

  /** What the loader's loop takes from one row: `int(row["idx"])`, the raw name, and the adjacency field read. */
  datatype Entry = Entry(idx: Option<nat>, name: string, edges: Result<Option<seq<nat>>>)

  function EntryOf(row: Row): Entry
  {
    Entry(ParseNat(row.idx), row.vertexName, EdgesOf(row.adjacencies))
  }

  /** `EntryOf` of every row, in order. */
  function Entries(rows: seq<Row>): (r: seq<Entry>)
    ensures |r| == |rows|
  {
    seq(|rows|, i requires 0 <= i < |rows| => EntryOf(rows[i]))
  }

  /** One more row is one more entry. */
  lemma EntriesStep(rows: seq<Row>, k: nat)
    requires k < |rows|
    ensures Entries(rows[..k + 1]) == Entries(rows[..k]) + [EntryOf(rows[k])]
  {
    var a, b := Entries(rows[..k + 1]), Entries(rows[..k]) + [EntryOf(rows[k])];
    forall i | 0 <= i < |a|
      ensures a[i] == b[i]
    {
      if i < k {
        assert rows[..k + 1][i] == rows[..k][i];
      }
    }
  }

  /** The indices of the entries, in order. */
  function Indices(es: seq<Entry>): (r: seq<Option<nat>>)
    ensures |r| == |es|
  {
    seq(|es|, i requires 0 <= i < |es| => es[i].idx)
  }

  /**
   * `max(...)` over the parsed indices: `ValueError` for no rows (an empty
   * `max`) or for an index `int` rejects; otherwise the largest index.
   */
  function MaxIndex(xs: seq<Option<nat>>): (r: Result<nat>)
    ensures r.Success? <==> xs != [] && None !in xs
    ensures r.Failure? ==> r.error == ValueError
  {
    if xs == [] then Failure(ValueError)
    else
      var init := xs[..|xs| - 1];
      var last := xs[|xs| - 1];
      if last.None? then Failure(ValueError)
      else if init == [] then Success(last.value)
      else match MaxIndex(init)
        case Failure(e) => Failure(e)
        case Success(m) =>
          assert xs == init + [last];
          Success(if last.value > m then last.value else m)
  }

  /** The maximum is one of the indices and no index exceeds it. */
  lemma {:induction false} MaxIndexIsMax(xs: seq<Option<nat>>)
    requires MaxIndex(xs).Success?
    ensures Some(MaxIndex(xs).value) in xs
    ensures forall i :: 0 <= i < |xs| ==> xs[i].value <= MaxIndex(xs).value
  {
    var init := xs[..|xs| - 1];
    if init != [] {
      MaxIndexIsMax(init);
      assert forall i :: 0 <= i < |init| ==> init[i] == xs[i];
    }
  }

  /** The names and neighbour lists held by the slots. */
  datatype Slots = Slots(names: seq<Option<string>>, adj: seq<seq<nat>>)

  /** `n` slots with no name and no neighbours. */
  function EmptySlots(n: nat): (r: Slots)
    ensures |r.names| == |r.adj| == n
    ensures forall k :: 0 <= k < n ==> r.names[k] == None && r.adj[k] == []
  {
    Slots(seq(n, _ => None), seq(n, _ => []))
  }

  /** An entry the loop gets through: an integer index below `n` and a blank or well-formed field. */
  predicate Fits(e: Entry, n: nat)
  {
    e.idx.Some? && e.idx.value < n && e.edges.Success?
  }

  /**
   * One row of the loader's loop over slots sized `n`: `add_vertex` stores
   * the name and, unless the field is blank, `add_edges_from_string` the
   * list; a bad index or list raises, `IndexError` only for an index past
   * the end.
   */
  function Step(s: Result<Slots>, e: Entry, n: nat): (r: Result<Slots>)
    requires s.Success? ==> |s.value.names| == |s.value.adj| == n
    ensures r.Success? <==> s.Success? && Fits(e, n)
    ensures r.Failure? ==> r.error == if s.Failure? then s.error
                                      else if e.idx.Some? && e.idx.value >= n then IndexError
                                      else ValueError
    ensures r.Success? ==>
              var idx := e.idx.value;
              && |r.value.names| == |r.value.adj| == n
              && r.value.names[idx] == Some(e.name)
              && r.value.adj[idx] == (if e.edges.value.Some? then e.edges.value.value else s.value.adj[idx])
              && forall k :: 0 <= k < n && k != idx ==> r.value.names[k] == s.value.names[k] && r.value.adj[k] == s.value.adj[k]
  {
    match s
    case Failure(err) => Failure(err)
    case Success(slots) =>
      match e.idx
      case None => Failure(ValueError)
      case Some(idx) =>
        if idx >= n then Failure(IndexError)
        else
          var names := slots.names[idx := Some(e.name)];
          match e.edges
          case Failure(_) => Failure(ValueError)
          case Success(None) => Success(Slots(names, slots.adj))
          case Success(Some(ns)) => Success(Slots(names, slots.adj[idx := ns]))
  }

  /** The slots after the loader's loop over `es`, starting from `n` empty slots. */
  function Fill(es: seq<Entry>, n: nat): (r: Result<Slots>)
    ensures r.Success? ==> |r.value.names| == |r.value.adj| == n
  {
    if es == [] then Success(EmptySlots(n))
    else Step(Fill(es[..|es| - 1], n), es[|es| - 1], n)
  }

  /** What `load_school_graph_from_csv` produces from the rows read: the slots, or the error it raises. */
  function LoadEntries(es: seq<Entry>): Result<Slots>
  {
    match MaxIndex(Indices(es))
    case Failure(err) => Failure(err)
    case Success(m) => Fill(es, m + 1)
  }

  function LoadSpec(rows: seq<Row>): Result<Slots>
  {
    LoadEntries(Entries(rows))
  }

  /** The loader fails when the size cannot be taken... */
  lemma LoadSpecUnsized(rows: seq<Row>)
    requires MaxIndex(Indices(Entries(rows))).Failure?
    ensures LoadSpec(rows) == Failure(MaxIndex(Indices(Entries(rows))).error)
  {
  }

  /** ...and is otherwise the loop over slots of that size. */
  lemma LoadSpecSized(rows: seq<Row>, m: nat)
    requires MaxIndex(Indices(Entries(rows))) == Success(m)
    ensures LoadSpec(rows) == Fill(Entries(rows), m + 1)
  {
    LoadEntriesSized(Entries(rows), m);
  }

  lemma LoadEntriesCases(es: seq<Entry>)
    ensures var m := MaxIndex(Indices(es));
            LoadEntries(es) == if m.Failure? then Failure(m.error) else Fill(es, m.value + 1)
  {
  }

  lemma LoadEntriesSized(es: seq<Entry>, m: nat)
    requires MaxIndex(Indices(es)) == Success(m)
    ensures LoadEntries(es) == Fill(es, m + 1)
  {
  }

  /** One more row is one more `Step`. */
  lemma FillSnoc(es: seq<Entry>, e: Entry, n: nat)
    ensures Fill(es + [e], n) == Step(Fill(es, n), e, n)
  {
    assert (es + [e])[..|es|] == es;
  }

  /** The loop succeeds exactly when every row fits. */
  lemma {:induction false} FillSucceeds(es: seq<Entry>, n: nat)
    ensures Fill(es, n).Success? <==> forall i :: 0 <= i < |es| ==> Fits(es[i], n)
  {
    if es != [] {
      var init := es[..|es| - 1];
      FillSucceeds(init, n);
      assert forall i :: 0 <= i < |init| ==> init[i] == es[i];
    }
  }

  /** A slot no row names keeps its `None` name and empty list. */
  lemma {:induction false} FillUntouched(es: seq<Entry>, n: nat, k: nat)
    requires Fill(es, n).Success? && k < n
    requires forall i :: 0 <= i < |es| ==> es[i].idx != Some(k)
    ensures Fill(es, n).value.names[k] == None && Fill(es, n).value.adj[k] == []
  {
    if es != [] {
      var init := es[..|es| - 1];
      assert forall i :: 0 <= i < |init| ==> init[i] == es[i];
      FillUntouched(init, n, k);
    }
  }

  /** The name of a slot is the raw `vertex_name` of the last row with that index. */
  lemma {:induction false} FillLastName(es: seq<Entry>, n: nat, i: nat, k: nat)
    requires Fill(es, n).Success? && i < |es| && k < n
    requires es[i].idx == Some(k)
    requires forall j :: i < j < |es| ==> es[j].idx != Some(k)
    ensures Fill(es, n).value.names[k] == Some(es[i].name)
  {
    if i < |es| - 1 {
      var init := es[..|es| - 1];
      assert forall j :: 0 <= j < |init| ==> init[j] == es[j];
      FillLastName(init, n, i, k);
    }
  }

  /**
   * The list of a slot is the one written by the last row with that index
   * whose field is not blank: a later blank field does not clear it.
   */
  lemma {:induction false} FillLastAdjacency(es: seq<Entry>, n: nat, i: nat, k: nat, ns: seq<nat>)
    requires Fill(es, n).Success? && i < |es| && k < n
    requires es[i].idx == Some(k) && es[i].edges == Success(Some(ns))
    requires forall j :: i < j < |es| && es[j].idx == Some(k) ==> es[j].edges == Success(None)
    ensures Fill(es, n).value.adj[k] == ns
  {
    if i < |es| - 1 {
      var init := es[..|es| - 1];
      assert forall j :: 0 <= j < |init| ==> init[j] == es[j];
      FillLastAdjacency(init, n, i, k, ns);
    }
  }

  /** Every index is at most `m`, so a failing row fails with `ValueError`. */
  lemma {:induction false} FillBelowMax(es: seq<Entry>, m: nat)
    requires forall i :: 0 <= i < |es| ==> es[i].idx.Some? && es[i].idx.value <= m
    requires Fill(es, m + 1).Failure?
    ensures Fill(es, m + 1).error == ValueError
  {
    var init := es[..|es| - 1];
    if Fill(init, m + 1).Failure? {
      assert forall i :: 0 <= i < |init| ==> init[i] == es[i];
      FillBelowMax(init, m);
    }
  }

  /**
   * Sized by the largest index, the loop never raises `IndexError`: the
   * loader fails with `ValueError` exactly when there are no rows, or some
   * index or non-blank field is not a list of integers.
   */
  lemma LoadEntriesErrors(es: seq<Entry>)
    ensures LoadEntries(es).Failure? <==>
              es == [] || exists i :: 0 <= i < |es| && (es[i].idx.None? || es[i].edges.Failure?)
    ensures LoadEntries(es).Failure? ==> LoadEntries(es).error == ValueError
    ensures LoadEntries(es).Success? ==> |LoadEntries(es).value.names| == MaxIndex(Indices(es)).value + 1
  {
    LoadEntriesCases(es);
    var m := MaxIndex(Indices(es));
    if m.Success? {
      IndicesBelow(es, m.value);
      FilledBelowMax(es, m.value);
    } else {
      IndicesMissing(es);
    }
  }

  /** A successful `max` bounds every index, all of which parsed. */
  lemma IndicesBelow(es: seq<Entry>, m: nat)
    requires MaxIndex(Indices(es)) == Success(m)
    ensures forall i :: 0 <= i < |es| ==> es[i].idx.Some? && es[i].idx.value <= m
  {
    MaxIndexIsMax(Indices(es));
    assert forall i :: 0 <= i < |es| ==> Indices(es)[i] == es[i].idx;
  }

  /** A failing `max` means no rows, or an index that did not parse. */
  lemma IndicesMissing(es: seq<Entry>)
    requires MaxIndex(Indices(es)).Failure?
    ensures es == [] || exists i :: 0 <= i < |es| && es[i].idx.None?
  {
    if es != [] {
      var i :| 0 <= i < |es| && Indices(es)[i] == None;
    }
  }

  /** With every index parsed and at most `m`, the loop fails, with `ValueError`, exactly on a bad field. */
  lemma FilledBelowMax(es: seq<Entry>, m: nat)
    requires forall i :: 0 <= i < |es| ==> es[i].idx.Some? && es[i].idx.value <= m
    ensures Fill(es, m + 1).Failure? <==> exists i :: 0 <= i < |es| && es[i].edges.Failure?
    ensures Fill(es, m + 1).Failure? ==> Fill(es, m + 1).error == ValueError
  {
    FillSucceeds(es, m + 1);
    if Fill(es, m + 1).Failure? {
      FillBelowMax(es, m);
    }
  }

  /** A row the loader gets through: `int` accepts its index and its field is blank or a list of integers. */
  predicate RowParses(row: Row)
  {
    ParseNat(row.idx).Some? && EdgesOf(row.adjacencies).Success?
  }

  lemma EntriesParse(rows: seq<Row>)
    ensures (exists i :: 0 <= i < |rows| && !RowParses(rows[i])) <==>
            (exists i :: 0 <= i < |rows| && (Entries(rows)[i].idx.None? || Entries(rows)[i].edges.Failure?))
  {
    assert forall i :: 0 <= i < |rows| ==> Entries(rows)[i] == EntryOf(rows[i]);
  }

  /** `load_school_graph_from_csv` raises, always `ValueError`, exactly when there are no rows or some row does not parse. */
  lemma LoadErrors(rows: seq<Row>)
    ensures LoadSpec(rows).Failure? <==> rows == [] || exists i :: 0 <= i < |rows| && !RowParses(rows[i])
    ensures LoadSpec(rows).Failure? ==> LoadSpec(rows).error == ValueError
  {
    LoadEntriesErrors(Entries(rows));
    EntriesParse(rows);
  }

  /** One pass of the loader's loop: `add_vertex`, then `add_edges_from_string`, as `Step` describes. */
  method AddRow(graph: SchoolGraph, row: Row) returns (r: Result<()>)
    requires graph.Valid()
    modifies graph.adj, graph.vertexNames
    ensures graph.Valid()
    ensures Step(Success(old(Slots(graph.vertexNames[..], graph.adj[..]))), EntryOf(row), graph.adj.Length)
            == if r.Success? then Success(Slots(graph.vertexNames[..], graph.adj[..])) else Failure(r.error)
    ensures r.Failure? ==> graph.adj[..] == old(graph.adj[..])
    ensures r.Failure? ==>
              var e := EntryOf(row);
              graph.vertexNames[..] == if e.idx.Some? && e.idx.value < graph.vertexNames.Length
                                       then old(graph.vertexNames[..])[e.idx.value := Some(e.name)]
                                       else old(graph.vertexNames[..])
  {
    var idx := ParseNat(row.idx);
    if idx.None? {
      return Failure(ValueError);
    }
    var added := graph.AddVertex(idx.value, row.vertexName);
    if added.Failure? {
      return added;
    }
    var stored := graph.AddEdgesFromString(idx.value, row.adjacencies);
    if stored.Failure? {
      return stored;
    }
    r := Success(());
  }

  /** The loop of `load_school_graph_from_csv` over an already sized graph. */
  method FillGraph(graph: SchoolGraph, rows: seq<Row>) returns (r: Result<()>)
    requires graph.Valid()
    requires forall k :: 0 <= k < graph.adj.Length ==> graph.adj[k] == [] && graph.vertexNames[k] == None
    modifies graph.adj, graph.vertexNames
    ensures graph.Valid()
    ensures r.Success? <==> Fill(Entries(rows), graph.adj.Length).Success?
    ensures r.Failure? ==> r.error == Fill(Entries(rows), graph.adj.Length).error
    ensures r.Success? ==> Fill(Entries(rows), graph.adj.Length).value == Slots(graph.vertexNames[..], graph.adj[..])
  {
    var n := graph.adj.Length;
    assert Slots(graph.vertexNames[..], graph.adj[..]) == EmptySlots(n);
    for k := 0 to |rows|
      invariant graph.Valid() && graph.adj.Length == n
      invariant Fill(Entries(rows[..k]), n) == Success(Slots(graph.vertexNames[..], graph.adj[..]))
    {
      EntriesStep(rows, k);
      FillSnoc(Entries(rows[..k]), EntryOf(rows[k]), n);
      var added := AddRow(graph, rows[k]);
      if added.Failure? {
        FillFailureSticks(rows, n, k + 1);
        return added;
      }
    }
    assert rows[..|rows|] == rows;
    r := Success(());
  }

  lemma {:induction false} FillFailureSticks(rows: seq<Row>, n: nat, k: nat)
    requires k <= |rows| && Fill(Entries(rows[..k]), n).Failure?
    ensures Fill(Entries(rows), n) == Fill(Entries(rows[..k]), n)
    decreases |rows| - k
  {
    if k < |rows| {
      EntriesStep(rows, k);
      FillSnoc(Entries(rows[..k]), EntryOf(rows[k]), n);
      FillFailureSticks(rows, n, k + 1);
    } else {
      assert rows[..k] == rows;
    }
  }

  /**
   * The part of `load_school_graph_from_csv` after the size is known:
   * `SchoolGraph(n)`, then the loop, whose outcome `spec` names.
   */
  method LoadSized(rows: seq<Row>, n: nat, ghost spec: Result<Slots>) returns (r: Result<SchoolGraph>)
    requires spec == Fill(Entries(rows), n)
    ensures r.Failure? ==> spec == Failure(r.error)
    ensures r.Success? ==> && fresh(r.value) && fresh(r.value.adj) && fresh(r.value.vertexNames)
                           && r.value.Valid()
                           && spec == Success(Slots(r.value.vertexNames[..], r.value.adj[..]))
  {
    var graph := new SchoolGraph(n);
    var filled := FillGraph(graph, rows);
    if filled.Failure? {
      return Failure(filled.error);
    }
    r := Success(graph);
  }

  /**
   * `load_school_graph_from_csv` over rows already read: one slot per index
   * up to the largest, each holding what the rows wrote to it, or the
   * `ValueError` the first malformed row raises.
   */
  method Load(rows: seq<Row>) returns (r: Result<SchoolGraph>)
    ensures r.Failure? ==> LoadSpec(rows) == Failure(r.error)
    ensures r.Success? ==> && fresh(r.value) && fresh(r.value.adj) && fresh(r.value.vertexNames)
                           && r.value.Valid()
                           && LoadSpec(rows) == Success(Slots(r.value.vertexNames[..], r.value.adj[..]))
  {
    var maxIdx := MaxIndex(Indices(Entries(rows)));
    if maxIdx.Failure? {
      LoadSpecUnsized(rows);
      return Failure(maxIdx.error);
    }
    r := LoadToSize(rows, maxIdx.value);
  }

  /** `load_school_graph_from_csv` once `max` has found the largest index `m`. */
  method LoadToSize(rows: seq<Row>, m: nat) returns (r: Result<SchoolGraph>)
    requires MaxIndex(Indices(Entries(rows))) == Success(m)
    ensures r.Failure? ==> LoadSpec(rows) == Failure(r.error)
    ensures r.Success? ==> && fresh(r.value) && fresh(r.value.adj) && fresh(r.value.vertexNames)
                           && r.value.Valid()
                           && LoadSpec(rows) == Success(Slots(r.value.vertexNames[..], r.value.adj[..]))
  {
    LoadSpecSized(rows, m);
    r := LoadSized(rows, m + 1, LoadSpec(rows));
  }
}
