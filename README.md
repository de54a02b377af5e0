# School map graphs, Huffman coding and subsets — a Dafny model

This project models three small Python programs.

- **The school map.** A school building is read from a CSV table. Each row
  holds a room index, a room name and a comma-separated list of neighbouring
  indices. The rows become an adjacency structure. That structure is searched:
  breadth- and depth-first paths between two rooms by name, breadth- and
  depth-first spanning trees, the tree converted back to room names, BFS
  distances from one room, and the largest BFS distance in the graph.
- **Two legacy loaders** for the same table:
  - a room-name graph built from a `defaultdict` with an `add_edge` method;
  - a graph over two fixed-size lists, sized from the largest index in the
    file.
- **The Huffman lab.** It counts ASCII characters, builds a Huffman tree
  with a `heapq` priority queue, walks the tree into a code map, and
  compares the coded length with a fixed-length code.
- **A recursive `subsets` function** that lists every subset of a list.

The modules follow the programs:

| module | file | models |
|---|---|---|
| `Wrappers` | wrappers.dfy | `Option`, `Result` with Python's `KeyError` / `ValueError` / `IndexError`, and a fail-fast map over a sequence |
| `Text` | text.dfy | `str.strip`, `str.split(",")`, and `int()` on a decimal token |
| `Graphs` | graphs.dfy | `adj.get(v, [])`, walks, reachability and shortest distance as ghost definitions, and `max` of the key set |
| `SchoolGraphs` | school_graph.dfy | the CSV ingest and the lookups of `SchoolMap/Map_Find.py` and `SchoolMap/MapFind_dict.py` |
| `SearchState`, `BfsLevels` | search_state.dfy, bfs_levels.dfy | the invariants shared by the BFS and DFS loops: parent chains, BFS levels, and the closed-visited-set argument of DFS |
| `PathSearch` | path_search.dfy | `bfs_path` and `dfs_path` |
| `SpanningTrees` | spanning_trees.dfy | `bfs_spanning_tree`, `dfs_spanning_tree` and `spanning_tree_names` |
| `Eccentricity` | eccentricity.dfy | `bfs_distances_from` and `graph_eccentricity` |
| `MapFindOld` | mapfind_old.dfy | `SchoolMap/MapFind_old.py` |
| `MapFind2Old` | mapfind2_old.dfy | `SchoolMap/MapFind2_old.py` |
| `Huffman` | huffman.dfy | `HuffmanLab/main.py` |
| `Subsets` | subsets.dfy | `test.py` |

### Form of the model

- **The `Map_Find` graph is an immutable value.** `SchoolGraphs.SchoolGraph`
  is a datatype of the three dictionaries. `SchoolGraphs.Load` builds it with
  a loop over the rows, as `_load_from_csv` does. Nothing changes the graph
  after `__init__`, so every query is a function or a method of that value.
- **Graph algorithms are loop methods.**
  - The BFS searches are methods with `while` loops over a queue, a
    visited set and a parent map.
  - The DFS searches are recursive methods, as in the source.
  - Each is proved against the ghost definitions of walks and distances.
- **`MapFind_dict.py` shares its algorithm code with `Map_Find.py`.** The
  one difference in the core is how `bfs_path` seeds its queue:
  - `Map_Find.py` holds `start` twice;
  - `MapFind_dict.py` holds it once.

  `PathSearch.BfsPath` takes that choice as its `seededTwice` argument, and
  both settings satisfy the same contract.
- **The legacy graphs are classes, because their methods update fields in
  place.**
  - `MapFindOld.SchoolGraph` keeps the `defaultdict` as a `map` field. Beside
    it, an `order` field records the key insertion order that `rooms()`
    returns.
  - `MapFind2Old.SchoolGraph` keeps its two lists as `array`s.
- **`TreeVertex` is a datatype.** Its children are assigned only while
  `buildTree` creates the merged vertex, never afterwards.
- **The priority queue is a sequence of `(weight, counter, vertex)` entries.**
  - Pushing appends an entry.
  - Popping removes an entry that is least in tuple order.
  - Counters are distinct, so that entry is the one `heapq.heappop` returns.

### Duplicate indices and zero eccentricity

- **Duplicate indices.** The loaders let the last row with an index
  overwrite the earlier ones (`SchoolGraphs.IngestLastIndexWins`,
  `MapFindOld.GatherLastRowWins`, `MapFind2Old.FillLastName`).
- **Eccentricity 0.** `graph_eccentricity` returns 0 exactly when every edge
  is a self-loop, which includes any graph without edges
  (`Eccentricity.ZeroEccentricity`).

## Model

| member | source | states |
|---|---|---|
| `Text.StripBounds` | SchoolMap/Map_Find.py:27 | `strip` returns a slice `s[a..b]`, with only whitespace before `a` and after `b` |
| `Text.Split` | SchoolMap/Map_Find.py:38 | `split(",")` yields at least one piece; no piece contains the separator; joining the pieces gives back the input |
| `Text.SplitJoin` | SchoolMap/Map_Find.py:38 | splitting the join of separator-free pieces returns exactly those pieces |
| `Text.ParseNat` | SchoolMap/Map_Find.py:26 | `int(token)` succeeds exactly when the stripped token is a non-empty string of decimal digits |
| `Text.ParseNatOfDecimal` | SchoolMap/Map_Find.py:26 | `int` of the decimal rendering of `n` is `n` |
| `Text.ParseTokens` | SchoolMap/Map_Find.py:38-43 | the loop that strips each piece, skips blank ones and converts the rest equals the fail-fast specification `Tokens` |
| `Text.TokensOfDecimals` | SchoolMap/Map_Find.py:38-43 | converting the decimal renderings of a list of numbers gives back that list |
| `SchoolGraphs.ParseAdjacency` | SchoolMap/Map_Find.py:33-43 | the adjacency-field loop equals `AdjacencyOf`: empty for a blank field, otherwise the converted pieces, or failure on a bad piece |
| `SchoolGraphs.AdjacencyRoundTrip` | SchoolMap/Map_Find.py:33-43 | the field written as comma-joined decimals parses back to the same neighbour list |
| `SchoolGraphs.ParseRowsFails` | SchoolMap/Map_Find.py:24-43 | reading the rows fails exactly when some row has a bad index or a bad neighbour piece |
| `SchoolGraphs.Load` | SchoolMap/Map_Find.py:12-45 | `ValueError` when any row fails to parse; otherwise the graph is the in-order ingest of the parsed rows |
| `SchoolGraphs.IngestKeys` | SchoolMap/Map_Find.py:29-45 | `adj` and `idx_to_name` have exactly the row indices as keys; `name_to_idx` has exactly the row names; every name maps to a vertex of `adj` |
| `SchoolGraphs.IngestLastIndexWins` | SchoolMap/Map_Find.py:29-45 | the last row with an index decides that index's name and neighbour list |
| `SchoolGraphs.IngestLastNameWins` | SchoolMap/Map_Find.py:30 | the last row with a name decides that name's index |
| `SchoolGraphs.IngestMissingIndex` | SchoolMap/Map_Find.py:48-50 | an index on no row has no name and no neighbours |
| `SchoolGraphs.IngestDistinctRowsConsistent` | SchoolMap/Map_Find.py:29-30 | with distinct indices and names, `idx_to_name` inverts `name_to_idx` |
| `SchoolGraphs.NeighborsByIndex` | SchoolMap/Map_Find.py:48-50 | the stored list for a known index, and `[]` for an unknown one |
| `SchoolGraphs.NeighborsByName` | SchoolMap/Map_Find.py:52-55 | `KeyError` exactly for an unknown name; otherwise the names of that room's neighbours, position by position |
| `SchoolGraphs.IngestVertexCount` | SchoolMap/Map_Find.py:57-58 | `num_vertices` is the number of distinct row indices |
| `Graphs.MaxOf` | SchoolMap/Map_Find.py:62 | `max` of a non-empty key set is a member that bounds every key |
| `SchoolGraphs.AsListOfLists` | SchoolMap/Map_Find.py:60-66 | `ValueError` exactly for an empty graph; otherwise a list of length max key + 1 whose slot `i` holds `neighbors_by_index(i)` |
| `SchoolGraphs.ListsByIndex` | SchoolMap/Map_Find.py:63-66 | the filling loop puts each key's list at its index and `[]` everywhere else |
| `PathSearch.TracePath` | SchoolMap/Map_Find.py:101-110 | following parents back from `end` and reversing gives a walk from `start` to `end` with distinct vertices, one longer than `end`'s BFS level |
| `PathSearch.ExpandVertex` | SchoolMap/Map_Find.py:90-94 | scanning one vertex's neighbours keeps the BFS invariant: each visited vertex is at its exact distance, with a parent one level closer, and the queue stays ordered by level |
| `PathSearch.BfsLoop` | SchoolMap/Map_Find.py:84-94 | when the loop stops, every visited vertex carries its exact distance and a parent chain, and `end` is visited unless it is unreachable |
| `PathSearch.BfsSearch` | SchoolMap/MapFind_dict.py:84-104 | both seedings of the queue, with `start` once or twice, satisfy the same contract: every visited vertex carries its exact distance and a parent chain back to `start`, and `end` is visited unless it is unreachable |
| `PathSearch.BfsIndexPath` | SchoolMap/Map_Find.py:76-110 | `None` exactly when `end` is unreachable; otherwise a shortest path with distinct vertices, which is `[start]` when `start == end` |
| `PathSearch.BfsPath` | SchoolMap/Map_Find.py:72-112 | `KeyError` exactly for an unknown room name; otherwise `None` exactly when unreachable, else the names along a shortest path |
| `PathSearch.Dfs` | SchoolMap/Map_Find.py:126-138 | `found` exactly when `end` gets visited; a failed search leaves the visited set closed under edges except through the rooms still on the stack |
| `PathSearch.DfsNeighbors` | SchoolMap/Map_Find.py:132-138 | the neighbour loop of the DFS helper keeps the parent chain and that closure property |
| `PathSearch.DfsIndexPath` | SchoolMap/Map_Find.py:122-154 | `None` exactly when `end` is unreachable; otherwise a walk from `start` to `end` with distinct vertices |
| `PathSearch.DfsPath` | SchoolMap/Map_Find.py:118-155 | `KeyError` exactly for an unknown name; otherwise `None` exactly when unreachable, else the names along a simple path |
| `SpanningTrees.ExpandTree` | SchoolMap/Map_Find.py:174-178 | scanning one vertex's neighbours records one parent link per newly visited vertex and keeps the BFS invariant |
| `SpanningTrees.BfsTreeLoop` | SchoolMap/Map_Find.py:172-178 | the loop ends with exactly the reachable vertices visited, each except `start` linked once to a visited neighbour that reaches it by an edge and is one hop nearer to `start` |
| `SpanningTrees.BfsTreeLinks` | SchoolMap/Map_Find.py:167-178 | BFS from `start` visits exactly the reachable vertices and records one parent link per visited vertex other than `start`, along a graph edge, whose parent is `start` or was linked earlier (so every parent chain ends at `start`), and whose child is one hop further from `start` than its parent (so every parent chain is a shortest path) |
| `SpanningTrees.DfsTree` | SchoolMap/Map_Find.py:197-202 | the recursive DFS keeps the parent links rooted at `start` (each parent is `start` or was linked earlier) and leaves the visited set closed apart from the rooms on the stack |
| `SpanningTrees.DfsTreeLinks` | SchoolMap/Map_Find.py:193-204 | DFS from `start` visits exactly the reachable vertices and records one parent link per visited vertex other than `start`, along a graph edge, rooted at `start` |
| `SpanningTrees.ChildrenCount` | SchoolMap/Map_Find.py:170-178 | a tree's parent map has one entry fewer than the visited set |
| `SpanningTrees.BuildTreeAdj` | SchoolMap/Map_Find.py:181-184 | one empty list per visited vertex, then each `(child, parent)` link appended in both directions: each list holds exactly the incident links, and the lists total twice the link count |
| `SpanningTrees.TreeShape` | SchoolMap/Map_Find.py:181-184 | the tree adjacency is symmetric, and each of its entries is an edge of the graph in one direction |
| `SpanningTrees.TreeFromLinks` | SchoolMap/Map_Find.py:180-186 | the tree's keys are the visited vertices; its lists hold `2 * (vertices - 1)` entries in total; every key is reached from the root along tree entries |
| `SpanningTrees.LayeredShortest` | SchoolMap/Map_Find.py:172-177 | a link made while scanning a BFS level joins a vertex to one exactly one hop further from `start` |
| `SpanningTrees.ShortestTreeEntry` | SchoolMap/Map_Find.py:164-186 | in the breadth-first tree, the two ends of every entry are one hop apart in distance from the start |
| `SpanningTrees.RootedExtend` | SchoolMap/Map_Find.py:174-177 | linking a newly visited neighbour to the current, already reached vertex keeps every parent linked before its child |
| `SpanningTrees.LinkReaches` | SchoolMap/Map_Find.py:180-184 | the child of every rooted link is reached from the root along tree entries |
| `SpanningTrees.LinksConnected` | SchoolMap/Map_Find.py:180-184 | the adjacency built from rooted links is connected from the root |
| `SpanningTrees.BfsSpanningTree` | SchoolMap/Map_Find.py:164-186 | `KeyError` exactly for an unknown start name; otherwise a symmetric adjacency over exactly the rooms reachable from the start, built from graph edges, connected from the start, with `2 * (rooms - 1)` list entries, which together make it a tree; and built from links that each go one hop further from the start, a shortest-path tree |
| `SpanningTrees.DfsSpanningTree` | SchoolMap/Map_Find.py:192-212 | the same contract for the depth-first tree |
| `SpanningTrees.NamesFrom` | SchoolMap/Map_Find.py:215-218 | the loop over a prefix of the keys produces one entry per distinct name among them |
| `SpanningTrees.NamesFromValue` | SchoolMap/Map_Find.py:216-218 | after a prefix, a name holds the neighbour names of the last key with that name |
| `SpanningTrees.NamesFromCount` | SchoolMap/Map_Find.py:215-218 | keys of distinct names give as many entries as keys |
| `SpanningTrees.NamesOfKeys` | SchoolMap/Map_Find.py:215-216 | walking every key of the tree meets the names of all its vertices |
| `SpanningTrees.SpanningTreeNames` | SchoolMap/Map_Find.py:214-219 | given the tree's keys in dictionary order, each once, the keys of the renamed tree are the names of all the tree's vertices |
| `SpanningTrees.NameTree` | SchoolMap/Map_Find.py:214-220 | the `for` loop builds exactly the renamed tree |
| `SpanningTrees.SpanningTreeNamesValue` | SchoolMap/Map_Find.py:216-218 | a room's entry holds its tree neighbours' names, unless a later key in dictionary order with the same name overwrites it |
| `SpanningTrees.SpanningTreeNamesCount` | SchoolMap/MapFind_dict.py:206-211 | with distinct room names, the renamed tree has one entry per tree vertex, holding that vertex's neighbour names |
| `Eccentricity.RecordNeighbors` | SchoolMap/Map_Find.py:235-239 | recording unseen neighbours at the current distance + 1 keeps the BFS level invariant |
| `Eccentricity.BfsDistancesFrom` | SchoolMap/Map_Find.py:226-241 | the keys are exactly the vertices reachable from `start`, and each value is the shortest-walk distance (0 for `start`) |
| `Eccentricity.PathLengthIsDistance` | SchoolMap/Map_Find.py:226-241 | any shortest path to a vertex is one longer than its recorded distance |
| `Eccentricity.DistanceBounded` | SchoolMap/Map_Find.py:251 | the largest recorded distance bounds every distance from that vertex |
| `Eccentricity.DistanceAttained` | SchoolMap/Map_Find.py:251 | every recorded distance, the largest included, is a true distance to some vertex |
| `Eccentricity.GraphEccentricity` | SchoolMap/Map_Find.py:243-256 | the result bounds every distance from every vertex of `adj`, and is 0 or the distance between some pair |
| `Eccentricity.ZeroEccentricity` | SchoolMap/Map_Find.py:243-256 | the eccentricity is 0 exactly when every edge is a self-loop |
| `MapFindOld.Connect` | SchoolMap/MapFind_old.py:18-19 | `adj[u]` is created if missing and gets `v` unless already listed; no other key changes |
| `MapFindOld.ConnectEdges` | SchoolMap/MapFind_old.py:18-19 | after one append, the edges are the old ones plus `(u, v)` |
| `MapFindOld.ConnectKeepsDistinct` | SchoolMap/MapFind_old.py:18-22 | the `not in` guard keeps every neighbour list free of duplicates |
| `MapFindOld.ConnectBothKeepsSymmetric` | SchoolMap/MapFind_old.py:16-22 | an undirected `add_edge` keeps a symmetric graph symmetric |
| `MapFindOld.SchoolGraph.constructor` | SchoolMap/MapFind_old.py:12-14 | a graph with no rooms |
| `MapFindOld.SchoolGraph.AddEdge` | SchoolMap/MapFind_old.py:16-22 | the new adjacency is one or two `Connect`s of the old one; new keys are appended to the key order; `u → v` (and `v → u` when undirected) is present; no old edge is lost |
| `MapFindOld.SchoolGraph.Neighbors` | SchoolMap/MapFind_old.py:24-26 | `[]` for an unknown room; otherwise exactly the room's neighbours, without duplicates |
| `MapFindOld.SchoolGraph.Rooms` | SchoolMap/MapFind_old.py:28-30 | every room exactly once |
| `MapFindOld.ParseLenient` | SchoolMap/MapFind_old.py:73-83 | the loop equals `LenientTokens`: blank and unparsable pieces are skipped |
| `MapFindOld.LenientAgreesWithStrict` | SchoolMap/MapFind_old.py:73-83 | where the strict parse of `Map_Find.py` succeeds, the lenient one gives the same list |
| `MapFindOld.GatherKeys` | SchoolMap/MapFind_old.py:53-67 | an index is recorded exactly when some row with a non-blank name has it as a parsable index |
| `MapFindOld.GatherLastRowWins` | SchoolMap/MapFind_old.py:67-83 | the last accepted row for an index decides its name and raw neighbour list, whatever rows with other indices follow it |
| `MapFindOld.FirstPass` | SchoolMap/MapFind_old.py:47-83 | the first-pass loop equals `Gather`, whose two tables share their keys, kept in insertion order |
| `MapFindOld.AddRowEdges` | SchoolMap/MapFind_old.py:90-95 | after one raw row, each of its named neighbours is joined to it; no edge is lost |
| `MapFindOld.SecondPass` | SchoolMap/MapFind_old.py:85-95 | every named raw edge is in the graph, in both directions, and every graph edge comes from one |
| `MapFindOld.Load` | SchoolMap/MapFind_old.py:33-97 | the loaded graph is symmetric, has no empty neighbour list, and holds exactly the named raw edges of the accepted rows |
| `MapFind2Old.SchoolGraph.constructor` | SchoolMap/MapFind2_old.py:4-8 | `n` empty neighbour lists and `n` missing names |
| `MapFind2Old.SchoolGraph.AddVertex` | SchoolMap/MapFind2_old.py:10-11 | stores the name at `idx`, or `IndexError` with nothing changed when `idx` is past the end |
| `MapFind2Old.SchoolGraph.AddEdgesFromString` | SchoolMap/MapFind2_old.py:13-28 | a blank field changes nothing; a bad piece raises `ValueError` with nothing changed; otherwise the list at `idx` is replaced, or `IndexError` past the end |
| `MapFind2Old.SchoolGraph.Neighbors` | SchoolMap/MapFind2_old.py:30-31 | the list at `idx`, or `IndexError` past the end |
| `MapFind2Old.SchoolGraph.Len` | SchoolMap/MapFind2_old.py:33-34 | the length of both lists |
| `MapFind2Old.EdgesOf` | SchoolMap/MapFind2_old.py:18-27 | no list exactly when the stripped field is blank; failure is always `ValueError` |
| `MapFind2Old.EdgesRoundTrip` | SchoolMap/MapFind2_old.py:18-27 | a comma-joined decimal field parses back to its list |
| `MapFind2Old.MaxIndex` | SchoolMap/MapFind2_old.py:44 | succeeds exactly when there are rows and every index parses; failure is `ValueError` |
| `MapFind2Old.MaxIndexIsMax` | SchoolMap/MapFind2_old.py:44 | the result is one of the indices and bounds all of them |
| `MapFind2Old.Step` | SchoolMap/MapFind2_old.py:48-54 | one row: succeeds exactly when its index is in range and its field parses; on success it sets that slot's name (and list, unless blank) and nothing else; the error is the one Python raises first |
| `MapFind2Old.FillSucceeds` | SchoolMap/MapFind2_old.py:48-54 | filling succeeds exactly when every row fits |
| `MapFind2Old.FillUntouched` | SchoolMap/MapFind2_old.py:45-54 | a slot that no row names keeps `None` and `[]` |
| `MapFind2Old.FillLastName` | SchoolMap/MapFind2_old.py:53 | the last row with an index decides that slot's name |
| `MapFind2Old.FillLastAdjacency` | SchoolMap/MapFind2_old.py:54 | the last row with a non-blank field for an index decides that slot's list |
| `MapFind2Old.LoadEntriesErrors` | SchoolMap/MapFind2_old.py:44-54 | loading fails exactly for no rows, an unparsable index or a bad field, always with `ValueError`; on success the size is the largest index + 1 |
| `MapFind2Old.LoadErrors` | SchoolMap/MapFind2_old.py:37-56 | the same, stated over the raw rows |
| `MapFind2Old.AddRow` | SchoolMap/MapFind2_old.py:49-54 | the arrays after one row are what `Step` gives; on an error the adjacency lists are unchanged, and the name is already written when the index parses and is in range |
| `MapFind2Old.FillGraph` | SchoolMap/MapFind2_old.py:48-54 | the row loop over fresh arrays ends in the `Fill` specification's result or error |
| `MapFind2Old.LoadSized` | SchoolMap/MapFind2_old.py:45-54 | a fresh graph of the given size, filled as `Fill` says |
| `MapFind2Old.LoadToSize` | SchoolMap/MapFind2_old.py:44-56 | with the largest index known, the result agrees with `LoadSpec` |
| `MapFind2Old.Load` | SchoolMap/MapFind2_old.py:37-56 | a fresh graph whose names and lists are `LoadSpec(rows)`, or that specification's error |
| `Huffman.LeafIffCharacter` | HuffmanLab/main.py:29-32 | in a tree `buildTree` makes, a vertex is a leaf exactly when it carries a character |
| `Huffman.Tally` | HuffmanLab/main.py:49-52 | one character is counted: its count goes up by one, new characters start at 1 and go last in the key order, the others are unchanged, and the total grows by one |
| `Huffman.CountsOfAscii` | HuffmanLab/main.py:45-52 | tallying an ASCII character keeps the counts equal to the occurrences in the text read so far, and the key order that of first occurrence |
| `Huffman.CountFrequencies` | HuffmanLab/main.py:36-55 | the keys are exactly the ASCII characters of the text, in order of first occurrence (the order that numbers the seed entries of `buildTree` and so breaks weight ties); each count is its number of occurrences; the total is the number of ASCII characters |
| `Huffman.SeedQueue` | HuffmanLab/main.py:84-88 | one leaf entry per character, in dictionary order, with counters 0, 1, … |
| `Huffman.HeapPop` | HuffmanLab/main.py:100-101 | removes an entry least in `(weight, counter)` order and keeps the others |
| `Huffman.PopTwo` | HuffmanLab/main.py:100-101 | the two smallest entries come out in order; the leaves and the weight are split between them and the rest |
| `Huffman.MergeTwo` | HuffmanLab/main.py:99-108 | one merge keeps the queue's multiset of leaves and its total weight |
| `Huffman.MergeAll` | HuffmanLab/main.py:99-108 | the loop leaves one entry with the same leaves and weight |
| `Huffman.BuildTree` | HuffmanLab/main.py:72-112 | `None` exactly for no characters; the lone leaf for one character; otherwise a well-formed tree whose leaves are the characters, each once, and whose weight is the total count |
| `Huffman.Walk` | HuffmanLab/main.py:133-143 | the recursive walk adds the codes `Codes(node, bits)` to the map |
| `Huffman.CodesPrefixFree` | HuffmanLab/main.py:133-143 | no code from the walk is a prefix of another key's code |
| `Huffman.CodeMapFacts` | HuffmanLab/main.py:117-146 | no root gives `{}`; otherwise one code per leaf; codes are non-empty bit strings and prefix-free |
| `Huffman.CreateCodeMap` | HuffmanLab/main.py:117-146 | the method computes `CodeMapOf(root)` and so keeps those facts |
| `Huffman.HuffmanTotalBits` | HuffmanLab/main.py:159-167 | the loop computes `TotalBits`, the sum of count × code length |
| `Huffman.TotalBitsFails` | HuffmanLab/main.py:165-166 | `KeyError` exactly when some counted character has no code |
| `Huffman.TotalBitsAtLeastCount` | HuffmanLab/main.py:159-167 | with every character coded, the total is at least the character count |
| `Huffman.BuiltTotalBits` | HuffmanLab/main.py:159-167 | for the tree `buildTree` returns, the coded total exists and is at least the number of characters |
| `Huffman.TotalBitsUniform` | HuffmanLab/main.py:159-186 | with codes all of one width, the Huffman total equals the fixed-length total at that width |
| `Huffman.CeilLog2` | HuffmanLab/main.py:178 | the least `b` with `k <= 2^b` |
| `Huffman.BitsPerChar` | HuffmanLab/main.py:170-178 | at least 1 bit; `k` symbols fit in the width; for `k >= 2` one bit fewer would not fit |
| `Subsets.SubsetsLength` | test.py:4-9 | there are `2^(len - start)` subsets |
| `Subsets.SubsetsHalves` | test.py:8-9 | the first half adds `l[start]` to each subset of the rest; the second half is those subsets |
| `Subsets.SubsetsLast` | test.py:4-9 | the last subset listed is the empty one |
| `Subsets.SubsetsSound` | test.py:4-9 | every listed subset is the selection of some membership mask |
| `Subsets.SubsetsComplete` | test.py:4-9 | every membership mask's selection is listed |

## Left out

- Files and CSV parsing: each loader takes the rows already split into their `idx`, `vertex_name` and `adjacencies` columns. Opening files, `csv.DictReader`, and the `Degree` columns are not modelled.
- `Text.ParseNat`: `int()` is modelled only for ASCII digit strings, after stripping. Signs, `_` separators and non-ASCII digits count as a `ValueError`, so no index or neighbour is negative. Python's negative list indexing in `MapFind2_old.py` therefore does not arise.
- `SchoolGraphs.NeighborsByName`: requires every listed neighbour to have a name (`Resolves`). The source would raise `KeyError` at `Map_Find.py:54` when a neighbour index has no row.
- `PathSearch.BfsPath`: requires every listed neighbour to have a name (`Resolves`). The source would raise `KeyError` while converting a path through an unnamed index.
- `PathSearch.DfsPath`: the same requirement as `BfsPath`. Python's recursion limit on deep searches is not modelled.
- `SpanningTrees.SpanningTreeNames`: requires every tree vertex and neighbour to have a name, where the source would raise `KeyError`. Dictionary iteration order is passed in as a sequence of keys.
- `SpanningTrees.DfsSpanningTree`: Python's recursion limit is not modelled.
- `SpanningTrees.BfsSpanningTree`: `MapFind_dict.py` calls `bfs_spanning_tree` from its script section but does not define it. The model follows the `Map_Find.py` definition.
- `Huffman.BuildTree`: states the tree's leaves, weights and shape rules, not that the code is optimal. The source does not promise optimality either.
- `Huffman.HeapPop`: the array layout of `heapq` is not modelled. The queue is a sequence, and the least entry is found by a scan.
- `Huffman.CountFrequencies`: takes the decoded text. Reading the file and UTF-8 decoding with `errors="replace"` are not modelled.
- `Huffman.BitsPerChar`: `math.ceil(math.log2(k))` is replaced by the exact integer ceiling of the base-2 logarithm. Floating-point rounding is not modelled.
- The `height` field of `TreeVertex` is never read and is not modelled.
- `fixed_length_total_bits` is the product `FixedLengthTotalBits`. Its only property is stated through `Huffman.TotalBitsUniform`.
- `subsets` with `start > len(list)` recurses without bound, since `start` never equals `len(list)`, and Python raises `RecursionError`. `Subsets.Subsets` requires `start <= |l|`.
- Printing: `printFrequencyMap`, `printCodeMap`, `main()` and the script sections of each file only print. They are not modelled.
- Integers: Python integers are unbounded, so `nat` needs no wrap-around.
- Iteration order:
  - Dictionary iteration order is the order of insertion, as Python guarantees.
  - Set iteration order is not modelled. The keys of `tree_adj` come from the set `visited` (`Map_Find.py:181`, `:207`), so the spanning trees are maps without a key order, and `SpanningTrees.SpanningTreeNames` takes that order as its `order` parameter.
  - The order of a graph's keys matters to `as_list_of_lists`, whose result does not depend on it, and to `graph_eccentricity`, whose maximum does not.
  - The order of a spanning tree's keys matters to `spanning_tree_names` when two rooms share a name: the later key's entry wins (`SpanningTrees.SpanningTreeNamesValue`).
