/** map_direct_save.py, the table side: loading the merged area table,
    turning its cells into a 4-connected grid graph (build_graph), and joining
    a path back to the category column for saving (save_path). */
module Grid {
  import opened Frames

  /** A grid coordinate (x, y). */
  type Point = (int, int)

  /** Adjacency lists keyed by cell, as build_graph returns them. */
  type Graph = map<Point, seq<Point>>

  /** One row of the merged area table. site is the ConstructionSite cell and
      category the category name; pandas may hold NaN in either. */
  datatype Row = Row(x: int, y: int, site: Option<int>, category: Option<string>)

  /** A loaded table: its header and its rows. The cell of a column that is
      not in the header is never read. */
  datatype Table = Table(columns: seq<string>, rows: seq<Row>)

  const SiteColumn: string := "ConstructionSite"
  const CategoryColumn: string := "category"

  function CellOf(r: Row): Point
  {
    (r.x, r.y)
  }

  // ---------------------------------------------------------------------------
  // load_data (the CSV read itself is outside the model)

  function StripCategory(r: Row): Row
  {
    match r.category
    case Some(c) => r.(category := Some(Strip(c)))
    case None => r
  }

  /** load_data: header names are stripped; when a "category" column is then
      present, its text cells are stripped too (NaN stays NaN). */
  function LoadData(raw: Table): (df: Table)
    ensures |df.columns| == |raw.columns|
    ensures forall i :: 0 <= i < |df.columns| ==> Trimmed(df.columns[i]) && df.columns[i] == Strip(raw.columns[i])
    ensures |df.rows| == |raw.rows|
    ensures forall i :: 0 <= i < |df.rows| ==>
              && CellOf(df.rows[i]) == CellOf(raw.rows[i])
              && df.rows[i].site == raw.rows[i].site
              && df.rows[i].category.Some? == raw.rows[i].category.Some?
    ensures forall i :: 0 <= i < |df.rows| && df.rows[i].category.Some? ==>
              if CategoryColumn in df.columns
              then Trimmed(df.rows[i].category.value) && df.rows[i].category.value == Strip(raw.rows[i].category.value)
              else df.rows[i].category == raw.rows[i].category
  {
    var columns := StripAll(raw.columns);
    var rows := if CategoryColumn in columns
                then seq(|raw.rows|, i requires 0 <= i < |raw.rows| => StripCategory(raw.rows[i]))
                else raw.rows;
    Table(columns, rows)
  }

  /** Loading an already loaded table changes nothing. */
  lemma LoadDataIdempotent(raw: Table)
    ensures LoadData(LoadData(raw)) == LoadData(raw)
  {
    var df := LoadData(raw);
    var df2 := LoadData(df);
    forall i | 0 <= i < |df.columns| ensures df2.columns[i] == df.columns[i] {
      StripKeepsTrimmed(df.columns[i]);
    }
    forall i | 0 <= i < |df.rows| ensures df2.rows[i] == df.rows[i] {
      if df.rows[i].category.Some? && CategoryColumn in df.columns {
        StripKeepsTrimmed(df.rows[i].category.value);
      }
    }
  }

  // ---------------------------------------------------------------------------
  // build_graph

  /** int(r.get("ConstructionSite", 0)): the cell when the column exists,
      otherwise 0. None stands for the NaN cell, on which int() raises
      ValueError. */
  function SiteOf(df: Table, r: Row): (s: Option<int>)
    ensures s.None? <==> SiteColumn in df.columns && r.site.None?
    ensures SiteColumn !in df.columns ==> s == Some(0)
  {
    if SiteColumn in df.columns then r.site else Some(0)
  }

  /** A row that yields a graph node: its site value is anything but 1. */
  predicate Passable(df: Table, r: Row): (b: bool)
    ensures !b <==> SiteColumn in df.columns && r.site == Some(1)
  {
    SiteOf(df, r) != Some(1)
  }

  /** The moves build_graph tries, in its order. */
  const Moves: seq<(int, int)> := [(1, 0), (-1, 0), (0, 1), (0, -1)]

  /** The four axis neighbours of p, in the order of Moves. */
  function Candidates(p: Point): (cs: seq<Point>)
    ensures |cs| == |Moves|
    ensures forall k :: 0 <= k < |Moves| ==> cs[k] == (p.0 + Moves[k].0, p.1 + Moves[k].1)
  {
    [(p.0 + 1, p.1), (p.0 - 1, p.1), (p.0, p.1 + 1), (p.0, p.1 - 1)]
  }

  /** Trying move j after the first j moves: its cell joins the list exactly
      when it is a node. */
  lemma OpenAmongNextMove(p: Point, j: nat, nodes: set<Point>)
    requires j < |Moves|
    ensures var nb := (p.0 + Moves[j].0, p.1 + Moves[j].1);
            OpenAmong(Candidates(p)[..j + 1], nodes)
              == OpenAmong(Candidates(p)[..j], nodes) + (if nb in nodes then [nb] else [])
  {
    var cs := Candidates(p);
    assert cs[..j + 1] == cs[..j] + [cs[j]];
    OpenAmongSnoc(cs[..j], cs[j], nodes);
  }

  /** The members of cs that are nodes, in the order of cs. */
  function OpenAmong(cs: seq<Point>, nodes: set<Point>): (r: seq<Point>)
    ensures |r| <= |cs|
  {
    if cs == [] then []
    else OpenAmong(cs[..|cs| - 1], nodes) + (if cs[|cs| - 1] in nodes then [cs[|cs| - 1]] else [])
  }

  /** OpenAmong lists exactly the members of cs that are nodes. */
  lemma {:induction false} OpenAmongMembers(cs: seq<Point>, nodes: set<Point>)
    ensures forall q :: q in OpenAmong(cs, nodes) <==> q in cs && q in nodes
  {
    if cs != [] {
      var pre := cs[..|cs| - 1];
      OpenAmongMembers(pre, nodes);
      assert cs == pre + [cs[|cs| - 1]];
    }
  }

  lemma OpenAmongSnoc(cs: seq<Point>, c: Point, nodes: set<Point>)
    ensures OpenAmong(cs + [c], nodes) == OpenAmong(cs, nodes) + (if c in nodes then [c] else [])
  {
    assert (cs + [c])[..|cs|] == cs;
  }

  /** The shape build_graph gives its result: every node's list holds its
      axis neighbours that are nodes, in the order of Moves. */
  ghost predicate IsGridGraph(adj: Graph)
  {
    forall p :: p in adj ==> adj[p] == OpenAmong(Candidates(p), adj.Keys)
  }

  /** build_graph. A NaN in the ConstructionSite column raises ValueError
      (reported with the index of the first such row); otherwise every cell
      of a row whose site is not 1 becomes a node, and only those. */
  method BuildGraph(df: Table) returns (r: Result<Graph, nat>)
    ensures r.Err? <==> exists i :: 0 <= i < |df.rows| && SiteOf(df, df.rows[i]).None?
    ensures r.Err? ==> r.error < |df.rows| && SiteOf(df, df.rows[r.error]).None?
                       && forall k :: 0 <= k < r.error ==> SiteOf(df, df.rows[k]).Some?
    ensures r.Ok? ==> forall p :: p in r.value <==>
                        exists row :: row in df.rows && CellOf(row) == p && Passable(df, row)
    ensures r.Ok? ==> IsGridGraph(r.value)
  {
    var traversable := CollectTraversable(df);
    if traversable.Err? {
      return Err(traversable.error);
    }
    var adj := LinkNeighbours(traversable.value);
    return Ok(adj);
  }

  /** The first loop of build_graph: the set of passable cells. */
  method CollectTraversable(df: Table) returns (r: Result<set<Point>, nat>)
    ensures r.Err? <==> exists i :: 0 <= i < |df.rows| && SiteOf(df, df.rows[i]).None?
    ensures r.Err? ==> r.error < |df.rows| && SiteOf(df, df.rows[r.error]).None?
                       && forall k :: 0 <= k < r.error ==> SiteOf(df, df.rows[k]).Some?
    ensures r.Ok? ==> forall p :: p in r.value <==>
                        exists row :: row in df.rows && CellOf(row) == p && Passable(df, row)
  {
    var traversable: set<Point> := {};
    var i := 0;
    while i < |df.rows|
      invariant 0 <= i <= |df.rows|
      invariant forall k :: 0 <= k < i ==> SiteOf(df, df.rows[k]).Some?
      invariant forall p :: p in traversable <==>
                  exists k :: 0 <= k < i && CellOf(df.rows[k]) == p && Passable(df, df.rows[k])
    {
      var row := df.rows[i];
      var site := SiteOf(df, row);
      if site.None? {
        return Err(i);
      }
      if site.value != 1 {
        traversable := traversable + {(row.x, row.y)};
      }
      i := i + 1;
    }
    forall p ensures p in traversable <==> exists row :: row in df.rows && CellOf(row) == p && Passable(df, row) {
      if exists row :: row in df.rows && CellOf(row) == p && Passable(df, row) {
        var row :| row in df.rows && CellOf(row) == p && Passable(df, row);
        var k :| 0 <= k < |df.rows| && df.rows[k] == row;
      }
    }
    return Ok(traversable);
  }

  /** The second loop of build_graph: an empty list per node, then each
      node's open neighbours appended in the order of Moves. */
  method LinkNeighbours(traversable: set<Point>) returns (adj: Graph)
    ensures adj.Keys == traversable
    ensures IsGridGraph(adj)
  {
    adj := map p | p in traversable :: [];
    var pending := traversable;
    while pending != {}
      invariant pending <= traversable && adj.Keys == traversable
      invariant forall q :: q in traversable ==>
                  adj[q] == if q in pending then [] else OpenAmong(Candidates(q), traversable)
      decreases pending
    {
      var p :| p in pending;
      // adj[(x, y)] is one list object; the appends go to it through this name
      var nbs := OpenNeighbours(p, adj[p], traversable);
      adj := adj[p := nbs];
      pending := pending - {p};
    }
  }

  /** The inner loop of build_graph: each move in turn, its cell appended to
      nbs when that cell is a node. */
  method OpenNeighbours(p: Point, nbs0: seq<Point>, traversable: set<Point>) returns (nbs: seq<Point>)
    ensures nbs == nbs0 + OpenAmong(Candidates(p), traversable)
  {
    nbs := nbs0;
    var j := 0;
    while j < |Moves|
      invariant 0 <= j <= |Moves|
      invariant nbs == nbs0 + OpenAmong(Candidates(p)[..j], traversable)
    {
      var nb := (p.0 + Moves[j].0, p.1 + Moves[j].1);
      OpenAmongNextMove(p, j, traversable);
      if nb in traversable {
        nbs := nbs + [nb];
      }
      j := j + 1;
    }
    assert Candidates(p)[..|Moves|] == Candidates(p);
  }

  /** The neighbours of a node are exactly the nodes one unit step away. */
  lemma NeighbourIsUnitStep(adj: Graph, u: Point, v: Point)
    requires IsGridGraph(adj) && u in adj
    ensures v in adj[u] <==> v in adj && (if u.0 < v.0 then v.0 - u.0 else u.0 - v.0) + (if u.1 < v.1 then v.1 - u.1 else u.1 - v.1) == 1
  {
    var cs := Candidates(u);
    assert adj[u] == OpenAmong(cs, adj.Keys);
    OpenAmongMembers(cs, adj.Keys);
    var dx, dy := v.0 - u.0, v.1 - u.1;
    if dx == 1 && dy == 0 {
      assert v == cs[0];
    } else if dx == -1 && dy == 0 {
      assert v == cs[1];
    } else if dx == 0 && dy == 1 {
      assert v == cs[2];
    } else if dx == 0 && dy == -1 {
      assert v == cs[3];
    } else {
      assert v != cs[0] && v != cs[1] && v != cs[2] && v != cs[3];
      assert v !in cs;
    }
  }

  /** The adjacency is symmetric. */
  lemma GraphSymmetric(adj: Graph, u: Point, v: Point)
    requires IsGridGraph(adj) && u in adj && v in adj
    ensures v in adj[u] <==> u in adj[v]
  {
    NeighbourIsUnitStep(adj, u, v);
    NeighbourIsUnitStep(adj, v, u);
  }

  /** Position of the first q in cs; |cs| when q is not in cs. */
  function IndexOf(cs: seq<Point>, q: Point): (k: nat)
    ensures k <= |cs| && (k < |cs| <==> q in cs)
    ensures k < |cs| ==> cs[k] == q
    ensures forall j :: 0 <= j < k ==> cs[j] != q
  {
    if cs == [] then 0 else if cs[0] == q then 0 else 1 + IndexOf(cs[1..], q)
  }

  /** OpenAmong keeps the order of cs and lists nothing twice. */
  lemma {:induction false} OpenAmongOrdered(cs: seq<Point>, nodes: set<Point>)
    requires forall i, j :: 0 <= i < j < |cs| ==> cs[i] != cs[j]
    ensures forall i, j :: 0 <= i < j < |OpenAmong(cs, nodes)| ==>
              IndexOf(cs, OpenAmong(cs, nodes)[i]) < IndexOf(cs, OpenAmong(cs, nodes)[j])
  {
    if cs != [] {
      var pre := cs[..|cs| - 1];
      var last := cs[|cs| - 1];
      OpenAmongOrdered(pre, nodes);
      assert cs == pre + [last];
      forall i, j | 0 <= i < j < |OpenAmong(cs, nodes)|
        ensures IndexOf(cs, OpenAmong(cs, nodes)[i]) < IndexOf(cs, OpenAmong(cs, nodes)[j])
      {
        OpenAmongSnocOrder(pre, last, nodes, i, j);
      }
    }
  }

  /** One pair of the induction step of OpenAmongOrdered. */
  lemma OpenAmongSnocOrder(pre: seq<Point>, last: Point, nodes: set<Point>, i: nat, j: nat)
    requires last !in pre
    requires forall i, j :: 0 <= i < j < |OpenAmong(pre, nodes)| ==>
               IndexOf(pre, OpenAmong(pre, nodes)[i]) < IndexOf(pre, OpenAmong(pre, nodes)[j])
    requires i < j < |OpenAmong(pre + [last], nodes)|
    ensures IndexOf(pre + [last], OpenAmong(pre + [last], nodes)[i]) < IndexOf(pre + [last], OpenAmong(pre + [last], nodes)[j])
  {
    var cs := pre + [last];
    var r := OpenAmong(cs, nodes);
    var r' := OpenAmong(pre, nodes);
    OpenAmongSnoc(pre, last, nodes);
    OpenAmongMembers(pre, nodes);
    assert i < |r'| && r[i] == r'[i] && r[i] in pre;
    IndexOfPrefix(pre, last, r[i]);
    if j < |r'| {
      assert r[j] == r'[j] && r[j] in pre;
      IndexOfPrefix(pre, last, r[j]);
    } else {
      assert r[j] == last;
      assert IndexOf(cs, last) == |cs| - 1;
    }
  }

  lemma {:induction false} IndexOfPrefix(pre: seq<Point>, last: Point, q: Point)
    requires q in pre
    ensures IndexOf(pre + [last], q) == IndexOf(pre, q)
  {
    if pre[0] != q {
      assert (pre + [last])[1..] == pre[1..] + [last];
      IndexOfPrefix(pre[1..], last, q);
    }
  }

  /** A node has at most four neighbours, none listed twice, listed in the
      order of Moves. */
  lemma NeighbourListShape(adj: Graph, u: Point)
    requires IsGridGraph(adj) && u in adj
    ensures |adj[u]| <= |Moves|
    ensures forall i, j :: 0 <= i < j < |adj[u]| ==>
              IndexOf(Candidates(u), adj[u][i]) < IndexOf(Candidates(u), adj[u][j])
  {
    var cs := Candidates(u);
    assert adj[u] == OpenAmong(cs, adj.Keys);
    assert cs[0] != cs[1] && cs[0] != cs[2] && cs[0] != cs[3] && cs[1] != cs[2] && cs[1] != cs[3] && cs[2] != cs[3];
    OpenAmongOrdered(cs, adj.Keys);
  }

  // ---------------------------------------------------------------------------
  // save_path (the CSV write itself is outside the model)

  /** One row of the saved path table: x, y, category. */
  datatype PathRow = PathRow(x: int, y: int, category: Option<string>)

  function PathCell(p: Point): Point { p }
  function WithCategory(p: Point, r: Row): PathRow { PathRow(p.0, p.1, r.category) }
  function NoCategory(p: Point): PathRow { PathRow(p.0, p.1, None) }

  /** save_path: df[["x", "y", "category"]] raises KeyError without a
      "category" column; otherwise the path, as an (x, y) table, is merged
      with how="left" onto df's cells. */
  function SavePath(df: Table, path: seq<Point>): (r: Result<seq<PathRow>, string>)
    ensures r.Err? <==> CategoryColumn !in df.columns
    ensures r.Err? ==> r.error == CategoryColumn
    ensures r.Ok? ==> |r.value| >= |path|
  {
    if CategoryColumn !in df.columns then Err(CategoryColumn)
    else Ok(LeftJoin(path, df.rows, PathCell, CellOf, WithCategory, NoCategory))
  }

  /** When each cell occurs in at most one row of df, the saved table has one
      row per path cell, in path order, carrying that cell's category (null
      for a cell df does not have). */
  lemma SavePathOneRowPerCell(df: Table, path: seq<Point>)
    requires CategoryColumn in df.columns
    requires UniqueKeys(df.rows, CellOf)
    ensures var r := SavePath(df, path);
            r.Ok? && |r.value| == |path|
            && forall i :: 0 <= i < |path| ==>
                 && (r.value[i].x, r.value[i].y) == path[i]
                 && (r.value[i].category.Some? ==>
                       exists row :: row in df.rows && CellOf(row) == path[i] && row.category == r.value[i].category)
                 && ((forall row :: row in df.rows ==> CellOf(row) != path[i]) ==> r.value[i].category.None?)
                 && (forall row :: row in df.rows && CellOf(row) == path[i] ==> r.value[i].category == row.category)
  {
    LeftJoinUnique(path, df.rows, PathCell, CellOf, WithCategory, NoCategory);
    forall i, row | 0 <= i < |path| && row in df.rows && CellOf(row) == path[i]
      ensures SavePath(df, path).value[i].category == row.category
    {
      LookupUnique(df.rows, CellOf, row);
    }
  }

  /** Every path cell shows up in the saved table, whatever df holds. */
  lemma SavePathCoversPath(df: Table, path: seq<Point>, i: nat)
    requires CategoryColumn in df.columns
    requires i < |path|
    ensures exists row :: row in SavePath(df, path).value && (row.x, row.y) == path[i]
  {
    var rows := JoinOne(path[i], df.rows, PathCell, CellOf, WithCategory, NoCategory);
    var o := rows[0];
    if forall r :: r in df.rows ==> CellOf(r) != path[i] {
      MatchingNone(df.rows, CellOf, path[i]);
    }
    JoinOneRows(path[i], df.rows, PathCell, CellOf, WithCategory, NoCategory, o);
    LeftJoinRows(path, df.rows, PathCell, CellOf, WithCategory, NoCategory, o);
  }
}
