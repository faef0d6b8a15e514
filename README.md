# Home-to-cafe area map: merge pipeline and BFS route, in Dafny

This project models the core of a small pandas program about a grid-shaped
area. The program has three parts:

- Merging. It combines three tables: the map cells (x, y, ConstructionSite),
  the structures (x, y, category, area) and a category catalog (id, name).
  There are two variants, `merge_and_analyze` in `caffee_map.py` and
  `searching_analysis` in `caffe_map_another.py`.
- Graph building. `map_direct_save.py` loads the merged table and builds a
  4-connected grid graph of the cells that are not construction sites
  (`build_graph`).
- Route finding. It searches that graph breadth-first from the home cell to
  the nearest cafe (`bfs_shortest_path`). Then it joins the route back to the
  category column for saving (`save_path`).

Files:

- `frames.dfy` (module `Frames`) holds the table operations the program uses,
  modelled once:
  - `str.strip` (Python's whitespace set);
  - boolean-mask selection;
  - `merge(how="left")`;
  - `sort_values` (ascending, NaN last).
- `grid.dfy` (module `Grid`) holds `load_data`, `build_graph` and `save_path`.
  `build_graph` is imperative: its loops are methods whose postconditions
  relate the graph to the table.
- `bfs.dfy` (module `Bfs`) holds `bfs_shortest_path`. The loop over the queue
  is `Search`. The walk back along `prev` is `Reconstruct`. The queue is a
  sequence, and `visited` and `prev` are a set and a map that the loops
  reassign.
- `area_tables.dfy` (module `AreaTables`) holds the map and structure rows
  both merge variants read.
- `area_merge.dfy` (module `AreaMerge`) holds `merge_and_analyze`. The
  catalog frame is a class, because the function strips its header in place
  and the caller sees that change. The two merges, the sort and the area-1
  selection are functions.
- `area_search.dfy` (module `AreaSearch`) holds `searching_analysis`. It is
  pure: the category dictionary, the id-to-name mapping, the outer merge, the
  sort and the area-1 selection.

Representation choices:

- Nulls (NaN) are `Option` values. Table cells are integers or strings.
- A sort is specified by "ordered, and a permutation of its input". pandas'
  default sort is not stable, so the order among equal keys is left open.
- Where the program can raise, the model returns a `Result`:
  - `KeyError` on a missing graph node or a missing column;
  - `ValueError` from `int()` on a NaN ConstructionSite, or from merging an
    integer key with a text column.

The model follows the code as written, including where a reader might
expect something else:

- No table is validated for duplicate keys, nulls or unknown ids. The model
  shows what duplicates then do:
  - a repeated catalog id duplicates structure rows (`AreaMerge.RepeatedIdDoublesRow`);
  - two structure rows on one map cell repeat that map row
    (`AreaMerge.RepeatedCellDoublesRow`).
- In `searching_analysis`, an id the catalog lacks becomes null, not " etc".
  Only id 0 is forced to " etc".
- That function sorts by area alone, not by (area, x, y).
- `merge_and_analyze` uses left merges anchored on the map, not an outer
  merge.
- A NaN ConstructionSite makes `build_graph` raise. It is not read as 0.
- When no cafe can be reached, `bfs_shortest_path` does not fail. It returns
  the walk to the last cell it took from the queue, not the empty list its
  docstring (map_direct_save.py:56) promises (see Findings).

## Model

| member | source | states |
|---|---|---|
| Frames.Strip | map_direct_save.py:19 | the result has no leading or trailing Python whitespace and is the input with exactly its whitespace prefix and suffix removed |
| Frames.StripIdempotent | map_direct_save.py:19-21 | stripping twice is stripping once |
| Frames.StripAll | map_direct_save.py:19 | `columns.str.strip()` keeps the number of names and strips each one |
| Frames.Keep | caffee_map.py:40 | a boolean-mask selection keeps exactly the rows satisfying the mask (both directions) and never grows the table |
| Frames.KeepCount | caffee_map.py:40 | each selected row is kept as often as it occurs, and an unselected row not at all |
| Frames.KeepConcat | caffee_map.py:40 | selection keeps row order: selecting from a concatenation concatenates the selections |
| Frames.KeepOrdered | caffee_map.py:37-40 | selecting from a table in key order leaves it in key order |
| Frames.Lookup | caffee_map.py:20-24 | the first right row with a key (no earlier right row has it), or none exactly when no right row has it |
| Frames.LookupUnique | caffee_map.py:20-24 | with unique right keys, looking up the key of a right row finds that row |
| Frames.JoinOneRows | caffee_map.py:20-24 | one left row contributes the null-padded row exactly when nothing on the right matches, otherwise one row per matching right row |
| Frames.LeftJoinRows | caffee_map.py:20-24 | every row of a left merge comes from some left row |
| Frames.LeftJoinMembers | caffee_map.py:30-34 | by value, a left merge holds exactly the combinations of a left row with a right row of equal key, and the null-padded left rows that match nothing |
| Frames.LeftJoin | caffee_map.py:30-34 | a left merge has at least as many rows as its left table |
| Frames.JoinOneUnique | caffee_map.py:30-34 | with unique right keys a left row yields exactly one row |
| Frames.LeftJoinUnique | caffee_map.py:30-34 | with unique right keys a left merge has one row per left row, in left order, combined with its match or null-padded |
| Frames.UniqueKeysPermutation | caffe_map_another.py:16 | reordering rows keeps keys unique |
| Frames.KeyLeTotal | caffee_map.py:37 | any two sort keys are comparable |
| Frames.KeyLeTransitive | caffee_map.py:37 | the column-by-column order with NaN last is transitive |
| Frames.Insert | caffee_map.py:37 | inserting into an ordered table keeps it ordered and adds exactly that row |
| Frames.SortBy | caffee_map.py:37 | `sort_values` returns a permutation of its input in ascending key order, NaN last |
| Grid.LoadData | map_direct_save.py:17-22 | header names are stripped; when a `category` column is then present, each category cell is stripped; cells, sites and nulls are unchanged |
| Grid.LoadDataIdempotent | map_direct_save.py:17-22 | loading an already loaded table changes nothing |
| Grid.SiteOf | map_direct_save.py:32 | `int(r.get("ConstructionSite", 0))` fails exactly on a NaN cell of a present column, and is 0 when the column is absent |
| Grid.Passable | map_direct_save.py:32 | a row is left out of the graph exactly when the column is present and its cell is 1 |
| Grid.Candidates | map_direct_save.py:38-39 | the four candidate neighbours are the cell moved by (1,0), (-1,0), (0,1), (0,-1), in that order |
| Grid.OpenAmongMembers | map_direct_save.py:40-41 | the cells appended are exactly the candidates that are nodes |
| Grid.OpenAmongSnoc | map_direct_save.py:38-41 | one more move appends its cell exactly when that cell is a node |
| Grid.OpenAmongNextMove | map_direct_save.py:38-41 | the list after move j is the list after the earlier moves plus move j's cell if it is a node |
| Grid.BuildGraph | map_direct_save.py:25-42 | raises (Err with the first offending row) exactly when some ConstructionSite cell is NaN; otherwise the nodes are exactly the cells of rows whose site is not 1 (0 when the column is absent), and each node lists its neighbouring nodes in move order |
| Grid.CollectTraversable | map_direct_save.py:30-34 | the first loop collects exactly the passable cells, or stops at the first NaN site |
| Grid.LinkNeighbours | map_direct_save.py:36-41 | the second loop gives every passable cell, and no other, the list of its neighbouring passable cells in move order |
| Grid.OpenNeighbours | map_direct_save.py:38-41 | the inner loop appends to a node's list the candidates that are nodes, in move order |
| Grid.NeighbourIsUnitStep | map_direct_save.py:36-41 | in a built graph, v is a neighbour of u exactly when v is a node at Manhattan distance 1 |
| Grid.GraphSymmetric | map_direct_save.py:36-41 | in a built graph, v is a neighbour of u exactly when u is a neighbour of v |
| Grid.OpenAmongOrdered | map_direct_save.py:38-41 | appended cells keep the order of the moves |
| Grid.NeighbourListShape | map_direct_save.py:36-41 | a node has at most four neighbours, listed in move order and none twice |
| Grid.SavePath | map_direct_save.py:99-101 | fails with KeyError exactly when the table has no `category` column; otherwise it has at least one row per path cell |
| Grid.SavePathOneRowPerCell | map_direct_save.py:99-101 | when each cell occurs at most once in the table, the saved table has one row per path cell, in path order, carrying the category of the table row on that cell, null for a cell the table lacks |
| Grid.SavePathCoversPath | map_direct_save.py:99-101 | every path cell appears in the saved table |
| Bfs.Search | map_direct_save.py:58-71 | the queue loop raises KeyError on the first cell taken from the queue that is not a node, when no target was taken before it (never for a closed graph containing start); otherwise the cells are enqueued in breadth-first order (each expansion appends exactly the neighbours not enqueued before, in list order), each once with its exact distance and as predecessor the cell that enqueued it; the loop stops at the first target dequeued, a nearest target, or runs until the queue is empty |
| Bfs.FoundOutcome | map_direct_save.py:64-66 | a target taken from the queue ends the loop with the outcome above, and is a nearest target |
| Bfs.MissingOutcome | map_direct_save.py:67 | a dequeued cell that is not a node raises KeyError; this happens at start only when start is not a node, and never for a closed graph containing start |
| Bfs.EmptyOutcome | map_direct_save.py:63 | when the queue runs empty every enqueued cell was expanded and u is the last cell enqueued |
| Bfs.Fresh | map_direct_save.py:67-71 | the cells the for-loop enqueues are exactly the neighbours not visited before it |
| Bfs.AllExpanded | map_direct_save.py:63-71 | when the queue runs empty, every visited cell is a node whose neighbours are all visited |
| Bfs.Expand | map_direct_save.py:67-71 | expanding the dequeued cell keeps the search invariants (visited = enqueued, exact distances, layered queue, breadth-first trace) and appends to the queue exactly its neighbours not visited before, in list order |
| Bfs.VisitNeighbours | map_direct_save.py:67-71 | the cells enqueued are exactly the neighbours not visited before the loop, in list order, each once; each is marked visited and given u as predecessor; nothing else changes |
| Bfs.ExpandTrace | map_direct_save.py:63-71 | one more expansion extends the breadth-first trace by the fresh neighbours, and each of them has the expanded cell as predecessor |
| Bfs.ParentStep | map_direct_save.py:68-71 | a cell is one step farther from start than the cell that enqueued it |
| Bfs.ExpandDone | map_direct_save.py:67-71 | after the for-loop the dequeued cell counts as expanded and the predecessor tree still has exact distances |
| Bfs.QueueFront | map_direct_save.py:63-64 | the front of the queue is never farther from start than any queued cell |
| Bfs.NearestTarget | map_direct_save.py:64-66 | the first target taken from the queue is at least as near to start as every target |
| Bfs.UnvisitedIsFarther | map_direct_save.py:63-71 | a walk from start that ends outside the visited set is longer than the distance of the queue front |
| Bfs.TreeReaches | map_direct_save.py:68-71 | every cell given a predecessor is reachable from start |
| Bfs.WalkStaysInside | map_direct_save.py:63-71 | a walk starting in a set closed under adjacency ends in it |
| Bfs.GridGraphClosed | map_direct_save.py:36-41 | every neighbour `build_graph` lists is itself a node, so the search on such a graph never raises KeyError when start is a node |
| Bfs.TraceUnique | map_direct_save.py:63-71 | the breadth-first trace after a given number of expansions is determined by the graph and start |
| Bfs.RaisedUnique | map_direct_save.py:63-67 | the cell the search raises KeyError on (the first non-node dequeued, with no target dequeued before it) is determined by the graph, start and targets |
| Bfs.StoppedNotRaised | map_direct_save.py:63-67 | a search that stops at a target or runs its queue empty has no run that raises, so whether the code returns a path or raises is determined by the graph, start and targets |
| Bfs.StoppedUnique | map_direct_save.py:63-66 | where the search stops (the first target in breadth-first order, else the last cell enqueued) is determined by the graph, start and targets |
| Bfs.DistMonotone | map_direct_save.py:63-71 | along the enqueue order the distance from start never decreases |
| Bfs.PathEnqueued | map_direct_save.py:73-82 | each step of the walk back goes from a cell to one it enqueued |
| Bfs.Exhausted | map_direct_save.py:63-71 | when the queue runs empty no target is reachable, every reachable cell was enqueued exactly once, and none is farther from start than the last cell enqueued |
| Bfs.NoTargetOutside | map_direct_save.py:63-71 | when the queue empties without a target, no target is reachable |
| Bfs.DistinctCount | map_direct_save.py:68-71 | no cell is enqueued twice |
| Bfs.Reversed | map_direct_save.py:82 | `path.reverse()` puts element i at position n-1-i |
| Bfs.WalkBack | map_direct_save.py:74-81 | following `prev` from u reaches start after exactly dist(u) steps, so the `cur is None` branch is never taken |
| Bfs.ReversedChainIsWalk | map_direct_save.py:81-82 | the reversed predecessor chain is a walk from start whose every step is a recorded predecessor link |
| Bfs.Reconstruct | map_direct_save.py:73-83 | the reconstructed path is a walk from start to u of length dist(u), linked by `prev`, and is `[start]` when u is start |
| Bfs.BfsShortestPath | map_direct_save.py:45-83 | as written: `[start]` when start is a target; KeyError exactly on the first non-node taken from the queue when no target was taken before it (no such run exists when the search stops normally, `StoppedNotRaised`); otherwise a shortest walk from start that ends where breadth-first search in neighbour-list order stops, each step going to a cell the previous one enqueued; its last cell is a target exactly when some target is reachable, and then it is the first target dequeued, a nearest one; otherwise it ends at the last cell enqueued, a farthest reachable cell, each reachable cell having been enqueued once |
| Bfs.IsolatedStartExample | map_direct_save.py:56 | for an isolated start and an unreachable target the code returns `[start]`, not `[]` |
| Bfs.ListedNonNodeExample | map_direct_save.py:63-67 | when start lists a target before a cell that is not a node, the code returns the path to the target and raises no KeyError |
| Bfs.ShortestPathOrEmpty | map_direct_save.py:56 | as the docstring promises: `[]` exactly when no target is reachable, otherwise a shortest walk from start to a nearest target; KeyError exactly where the code as written raises it |
| AreaMerge.CategoryFrame.StripColumns | caffee_map.py:17 | the caller's catalog frame gets its header stripped in place; its rows are unchanged |
| AreaMerge.MergeAndAnalyze | caffee_map.py:12-42 | strips the caller's catalog header in place, then returns exactly `Analyze` over the stripped header |
| AreaMerge.JoinFailure | caffee_map.py:20-24 | the merge on `category` raises KeyError when no catalog column carries that name, ValueError when the name column does |
| AreaMerge.RenameStruct | caffee_map.py:27 | the name column is titled `category_name` exactly when it was `struct` (or already `category_name`); any other title is kept |
| AreaMerge.AttachNames | caffee_map.py:20-24 | the name merge gives every structure row at least one row |
| AreaMerge.MergeCells | caffee_map.py:30-34 | the cell merge gives every map row at least one row |
| AreaMerge.Analyze | caffee_map.py:12-42 | fails exactly when the stripped header cannot be merged on `category`; otherwise the name column is titled as `rename` makes it, merged_df is a permutation of the two left merges in ascending (area, x, y) order, and area_1_df is its selection on area == 1, holding exactly its area-1 rows |
| AreaMerge.AttachNamesRows | caffee_map.py:20-24 | every structure row is kept: with the name of each catalog row of its id, or once with a null name when the catalog lacks its id; nothing else appears |
| AreaMerge.AttachNamesUnique | caffee_map.py:20-24 | with unique catalog ids row i of the named table is structure row i with the name of the catalog row of its id, null when the id is missing |
| AreaMerge.NamedRowOf | caffee_map.py:20-24 | each structure row has a named row with its cell, id and area |
| AreaMerge.AttachNamesCells | caffee_map.py:20-24 | the name merge neither invents nor loses a structure |
| AreaMerge.MergeCellsRows | caffee_map.py:30-34 | the cell merge holds exactly each map row combined with each structure on its cell, or alone with null structure columns when there is none |
| AreaMerge.MapRowKept | caffee_map.py:30-37 | every map row appears in merged_df |
| AreaMerge.MergedRowOrigin | caffee_map.py:30-37 | each merged_df row is a map row; it carries a structure on its cell, or has null category, area and name and no structure is on its cell (so structures off the map are dropped) |
| AreaMerge.MergedRowCount | caffee_map.py:30-34 | with unique (x, y) in the structure table and unique catalog ids, merged_df has exactly as many rows as the map |
| AreaMerge.RepeatedIdDoublesRow | caffee_map.py:20-34 | a catalog id listed twice under two names gives one map cell two merged rows |
| AreaMerge.RepeatedIdRows | caffee_map.py:20-34 | the two different merged rows a map cell gets from an id listed twice |
| AreaMerge.RepeatedCellRows | caffee_map.py:20-34 | the two different merged rows a map cell gets from two structure rows on it |
| AreaMerge.RepeatedCellDoublesRow | caffee_map.py:30-34 | two different structure rows on one map cell give that cell two merged rows, whatever the catalog holds |
| AreaMerge.TwoMergedRows | caffee_map.py:30-37 | two different rows of the cell merge are two rows of merged_df |
| AreaMerge.Area1ByCell | caffee_map.py:37-40 | area_1_df is ordered by (x, y) |
| AreaSearch.ToDict | caffe_map_another.py:10 | the dictionary's keys are exactly the catalog's ids |
| AreaSearch.ToDictLastWins | caffe_map_another.py:10 | an id maps to the name of its last catalog row |
| AreaSearch.ToDictValue | caffe_map_another.py:10 | every value is the name of a catalog row with that id |
| AreaSearch.CategoryDict | caffe_map_another.py:10 | 0 always maps to " etc", and every other key is a catalog id |
| AreaSearch.CategoryDictEntry | caffe_map_another.py:10 | 0 maps to " etc" even when the catalog defines 0; other ids map to their last catalog name |
| AreaSearch.NameOf | caffe_map_another.py:14 | `Series.map(dict)` gives an id in the dictionary its value, and null to an id it lacks |
| AreaSearch.Relabel | caffe_map_another.py:14 | replacing the third column keeps the rows, their cells and their areas |
| AreaSearch.RelabelNames | caffe_map_another.py:10-14 | a structure with id 0 is named " etc"; one whose id the catalog lacks gets a null name; any other name is a catalog name of its id |
| AreaSearch.Unmatched | caffe_map_another.py:13-15 | the structure-only part of the outer merge holds exactly the structures with no map row on their cell, with a null ConstructionSite |
| AreaSearch.SearchingAnalysis | caffe_map_another.py:3-23 | the returned table is a permutation of the outer merge in ascending area order (NaN last); the saved table is its selection on area == 1, holding exactly its area-1 rows |
| AreaSearch.OuterJoin | caffe_map_another.py:13-15 | the outer merge gives every map row at least one row |
| AreaSearch.OuterJoinRows | caffe_map_another.py:13-15 | the outer merge holds exactly map rows with each structure on their cell, map rows alone (null category and area), and structures alone (null ConstructionSite) on cells the map lacks |
| AreaSearch.JoinedRowOrigin | caffe_map_another.py:13-15 | every row of the outer merge comes from a map row or a structure row, with null fields for the missing side |
| AreaSearch.MergedRowOrigin | caffe_map_another.py:13-17 | the same holds for every row of the returned table |
| AreaSearch.MapRowKept | caffe_map_another.py:13-17 | every map row appears in the returned table |
| AreaSearch.StructRowKept | caffe_map_another.py:13-17 | every structure row appears in the returned table, with its area and the name its id maps to |
| AreaSearch.OuterJoinUnique | caffe_map_another.py:13-15 | with unique cells per table the outer merge repeats no cell |
| AreaSearch.UnmatchedUnique | caffe_map_another.py:13-15 | the structure-only part repeats no cell when the structure table does not |
| AreaSearch.CellsOnce | caffe_map_another.py:13-17 | with unique cells per table each cell of either table appears exactly once in the returned table (with MapRowKept and StructRowKept) |

## Left out

- Reading and writing CSV files (`read_csv`, `to_csv`, the UTF-8-sig
  encoding) is left out. Tables are parameters, and the saved tables are
  results.
- `load_csv_files`, the `main` functions and `print_summary_by_category` /
  `print_report` are left out. They are entry points and printing only.
- `plot_path` and map_draw.py are left out. They are matplotlib rendering.
- The FileNotFoundError / PermissionError handlers and `PathNotFound` are left
  out. `PathNotFound` comes from an `exceptions` module that is not part of
  this model.
- Column sets are fixed to the documented schemas. Extra columns, pandas'
  `_x`/`_y` suffixes for clashing names, dtypes and float NaN are not
  modelled.
- AreaMerge.JoinFailure: a name column holding only NaN is float-typed, and
  pandas would merge on it. The model reports ValueError whenever the column
  named `category` is the name column.
- AreaMerge.MergedRowCount: needs unique catalog ids as well as unique cells.
  Either alone does not suffice; `RepeatedIdDoublesRow` and
  `RepeatedCellDoublesRow` show why.
- AreaSearch.OuterJoin: pandas sorts the rows of an outer merge by key. The
  model puts the map-anchored rows first. This is visible only in the order of
  equal areas after the following sort, which pandas leaves unspecified.
- The `reset_index` calls are not modelled separately. A sequence is indexed
  by position.
- Bfs.Search: the queue is a sequence with `pop` at the front. The constant
  cost of `deque` is not modelled.

## Findings

| source | as written | input that shows it | evidently intended | confidence | as-written member | corrected member |
|---|---|---|---|---|---|---|
| map_direct_save.py:56-83 | when no target is reachable, the loop runs until the queue is empty. The walk back then starts from the last cell dequeued and returns a path to that non-target cell | a start cell with no neighbours and a target elsewhere: the result is `[start]` | the docstring's "empty list when there is no path" | not executed | Bfs.IsolatedStartExample | Bfs.ShortestPathOrEmpty |
