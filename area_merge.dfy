/** caffee_map.py, merge_and_analyze: the structure table gets its category
    names from the catalog (left merge on the category id), the map table is
    left-merged with the result on (x, y), the merged table is sorted by
    (area, x, y), and its area-1 rows are selected. The catalog frame belongs
    to the caller and has its header stripped in place. */
module AreaMerge {
  import opened Frames
  import opened AreaTables

  /** A row of area_category: category id, then the structure name. */
  datatype CategoryRow = CategoryRow(category: Option<int>, name: Option<string>)

  /** A structure row with the name of its category. */
  datatype NamedRow = NamedRow(x: int, y: int, category: Option<int>, area: Option<int>, name: Option<string>)

  /** A row of merged_df: the map columns followed by the structure columns. */
  datatype MergedRow = MergedRow(x: int, y: int, site: Option<int>, category: Option<int>, area: Option<int>,
                                 name: Option<string>)

  /** What the merge on "category" raises: KeyError when neither catalog
      column is called "category"; ValueError when the column called
      "category" is the text column (an integer key cannot be merged with
      text) or when both are. */
  datatype MergeError = KeyError(column: string) | ValueError

  /** The two results: merged_df with the header name of its category-name
      column, and area_1_df. */
  datatype Analysis = Analysis(nameColumn: string, merged: seq<MergedRow>, area1: seq<MergedRow>)

  const KeyColumn: string := "category"
  const StructColumn: string := "struct"
  const RenamedColumn: string := "category_name"

  /** area_category as the caller holds it: the header of its two columns
      (the id column, then the name column) and its rows. */
  class CategoryFrame {
    var idColumn: string
    var nameColumn: string
    var rows: seq<CategoryRow>

    constructor (idColumn: string, nameColumn: string, rows: seq<CategoryRow>)
      ensures this.idColumn == idColumn && this.nameColumn == nameColumn && this.rows == rows
    {
      this.idColumn := idColumn;
      this.nameColumn := nameColumn;
      this.rows := rows;
    }

    /** area_category.columns = area_category.columns.str.strip() */
    method StripColumns()
      modifies this
      ensures idColumn == Strip(old(idColumn)) && nameColumn == Strip(old(nameColumn))
      ensures Trimmed(idColumn) && Trimmed(nameColumn)
      ensures rows == old(rows)
    {
      idColumn := Strip(idColumn);
      nameColumn := Strip(nameColumn);
    }
  }

  // ---------------------------------------------------------------------------
  // The two merges

  /** The merge on "category" can run: the id column carries that name and
      the name column does not. */
  predicate Joinable(idColumn: string, nameColumn: string)
  {
    idColumn == KeyColumn && nameColumn != KeyColumn
  }

  function JoinFailure(idColumn: string, nameColumn: string): (e: MergeError)
    requires !Joinable(idColumn, nameColumn)
    ensures e.KeyError? <==> idColumn != KeyColumn && nameColumn != KeyColumn
  {
    if idColumn != KeyColumn && nameColumn != KeyColumn then KeyError(KeyColumn) else ValueError
  }

  function StructKey(s: StructRow): Option<int> { s.category }
  function CatalogKey(c: CategoryRow): Option<int> { c.category }
  function WithName(s: StructRow, c: CategoryRow): NamedRow { NamedRow(s.x, s.y, s.category, s.area, c.name) }
  function WithoutName(s: StructRow): NamedRow { NamedRow(s.x, s.y, s.category, s.area, None) }

  /** area_struct.merge(area_category, how="left", on="category"). pandas
      matches a null key with a null key, as Option equality does. */
  function AttachNames(structs: seq<StructRow>, cats: seq<CategoryRow>): (r: seq<NamedRow>)
    ensures |r| >= |structs|
  {
    LeftJoin(structs, cats, StructKey, CatalogKey, WithName, WithoutName)
  }

  /** rename(columns={"struct": "category_name"}): the header of the name
      column afterwards. */
  function RenameStruct(nameColumn: string): (c: string)
    ensures c == RenamedColumn <==> nameColumn == StructColumn || nameColumn == RenamedColumn
    ensures nameColumn != StructColumn ==> c == nameColumn
  {
    if nameColumn == StructColumn then RenamedColumn else nameColumn
  }

  function NamedCell(n: NamedRow): (int, int) { (n.x, n.y) }
  function Combine(m: MapRow, n: NamedRow): MergedRow { MergedRow(m.x, m.y, m.site, n.category, n.area, n.name) }
  function MapOnly(m: MapRow): MergedRow { MergedRow(m.x, m.y, m.site, None, None, None) }

  /** area_map.merge(area_struct, how="left", on=["x", "y"]). */
  function MergeCells(maps: seq<MapRow>, named: seq<NamedRow>): (r: seq<MergedRow>)
    ensures |r| >= |maps|
  {
    LeftJoin(maps, named, MapCell, NamedCell, Combine, MapOnly)
  }

  /** sort_values(by=["area", "x", "y"]), a null area last. */
  function MergedKey(r: MergedRow): SortKey { [r.area, Some(r.x), Some(r.y)] }

  /** merged_df["area"] == 1 (false on a null area). */
  function IsArea1(r: MergedRow): bool { r.area == Some(1) }

  /** merge_and_analyze over the catalog header after stripping. */
  function Analyze(maps: seq<MapRow>, structs: seq<StructRow>, idColumn: string, nameColumn: string,
                   cats: seq<CategoryRow>): (r: Result<Analysis, MergeError>)
    ensures r.Err? <==> !Joinable(idColumn, nameColumn)
    ensures r.Ok? ==>
              && r.value.nameColumn == RenameStruct(nameColumn)
              && multiset(r.value.merged) == multiset(MergeCells(maps, AttachNames(structs, cats)))
              && Ordered(r.value.merged, MergedKey)
              && r.value.area1 == Keep(r.value.merged, IsArea1)
              && (forall o :: o in r.value.area1 <==> o in r.value.merged && o.area == Some(1))
  {
    if !Joinable(idColumn, nameColumn) then Err(JoinFailure(idColumn, nameColumn))
    else
      var merged := SortBy(MergeCells(maps, AttachNames(structs, cats)), MergedKey);
      Ok(Analysis(RenameStruct(nameColumn), merged, Keep(merged, IsArea1)))
  }

  /** merge_and_analyze. The caller's catalog frame keeps its stripped
      header; the structure and map tables are not changed. */
  method MergeAndAnalyze(areaMap: seq<MapRow>, areaStruct: seq<StructRow>, areaCategory: CategoryFrame)
    returns (r: Result<Analysis, MergeError>)
    modifies areaCategory
    ensures areaCategory.idColumn == Strip(old(areaCategory.idColumn))
    ensures areaCategory.nameColumn == Strip(old(areaCategory.nameColumn))
    ensures areaCategory.rows == old(areaCategory.rows)
    ensures r == Analyze(areaMap, areaStruct, areaCategory.idColumn, areaCategory.nameColumn, areaCategory.rows)
  {
    areaCategory.StripColumns();
    if !Joinable(areaCategory.idColumn, areaCategory.nameColumn) {
      return Err(JoinFailure(areaCategory.idColumn, areaCategory.nameColumn));
    }
    var named := AttachNames(areaStruct, areaCategory.rows);
    var nameColumn := RenameStruct(areaCategory.nameColumn);
    var merged := MergeCells(areaMap, named);
    merged := SortBy(merged, MergedKey);
    var area1 := Keep(merged, IsArea1);
    return Ok(Analysis(nameColumn, merged, area1));
  }

  // ---------------------------------------------------------------------------
  // Properties

  /** The name merge keeps every structure row: a row gets the name of each
      catalog row with its id, and a row whose id the catalog lacks is kept
      once with a null name. Nothing else appears. */
  lemma {:induction false} AttachNamesRows(structs: seq<StructRow>, cats: seq<CategoryRow>, o: NamedRow)
    ensures o in AttachNames(structs, cats) <==>
            exists s :: s in structs &&
              ((exists c :: c in cats && c.category == s.category && o == WithName(s, c))
               || ((forall c :: c in cats ==> c.category != s.category) && o == WithoutName(s)))
  {
    LeftJoinMembers(structs, cats, StructKey, CatalogKey, WithName, WithoutName, o);
  }

  /** With unique catalog ids the name merge is row for row: row i is
      structure row i with the name its id has in the catalog, or null. */
  lemma {:induction false} AttachNamesUnique(structs: seq<StructRow>, cats: seq<CategoryRow>)
    requires UniqueKeys(cats, CatalogKey)
    ensures |AttachNames(structs, cats)| == |structs|
    ensures forall i :: 0 <= i < |structs| ==>
              var n := AttachNames(structs, cats)[i];
              && NamedCell(n) == (structs[i].x, structs[i].y)
              && n.category == structs[i].category && n.area == structs[i].area
              && (n.name.Some? ==> exists c :: c in cats && c.category == n.category && c.name == n.name)
              && ((forall c :: c in cats ==> c.category != n.category) ==> n.name.None?)
              && (forall c :: c in cats && c.category == structs[i].category ==> n.name == c.name)
  {
    LeftJoinUnique(structs, cats, StructKey, CatalogKey, WithName, WithoutName);
    forall i, c | 0 <= i < |structs| && c in cats && c.category == structs[i].category
      ensures AttachNames(structs, cats)[i].name == c.name
    {
      LookupUnique(cats, CatalogKey, c);
    }
  }

  /** The cell merge is anchored on the map: each output row is a map row
      combined with a named structure row on the same cell, or a map row that
      has none, with null structure columns. So every map row is kept and a
      structure row off the map is dropped. */
  lemma {:induction false} MergeCellsRows(maps: seq<MapRow>, named: seq<NamedRow>, o: MergedRow)
    ensures o in MergeCells(maps, named) <==>
            exists m :: m in maps &&
              ((exists n :: n in named && NamedCell(n) == MapCell(m) && o == Combine(m, n))
               || ((forall n :: n in named ==> NamedCell(n) != MapCell(m)) && o == MapOnly(m)))
  {
    LeftJoinMembers(maps, named, MapCell, NamedCell, Combine, MapOnly, o);
  }

  /** Every map row is in merged_df, whatever the other tables hold. */
  lemma {:induction false} MapRowKept(maps: seq<MapRow>, structs: seq<StructRow>, idColumn: string, nameColumn: string,
                   cats: seq<CategoryRow>, m: MapRow)
    requires Joinable(idColumn, nameColumn) && m in maps
    ensures exists o :: o in Analyze(maps, structs, idColumn, nameColumn, cats).value.merged
                        && (o.x, o.y, o.site) == (m.x, m.y, m.site)
  {
    var named := AttachNames(structs, cats);
    var o := if exists n :: n in named && NamedCell(n) == MapCell(m)
             then var n :| n in named && NamedCell(n) == MapCell(m); Combine(m, n)
             else MapOnly(m);
    MergeCellsRows(maps, named, o);
    assert o in multiset(MergeCells(maps, named));
  }

  /** The name merge neither invents nor loses a structure: each named row
      is a structure row with a name attached, and each structure row has a
      named row on its cell. */
  lemma {:induction false} AttachNamesCells(structs: seq<StructRow>, cats: seq<CategoryRow>)
    ensures forall n :: n in AttachNames(structs, cats) ==>
              exists s :: s in structs && (s.x, s.y, s.category, s.area) == (n.x, n.y, n.category, n.area)
    ensures forall s :: s in structs ==>
              exists n :: n in AttachNames(structs, cats) && NamedCell(n) == StructCell(s)
  {
    var named := AttachNames(structs, cats);
    forall n | n in named
      ensures exists s :: s in structs && (s.x, s.y, s.category, s.area) == (n.x, n.y, n.category, n.area)
    {
      AttachNamesRows(structs, cats, n);
    }
    forall s | s in structs ensures exists n :: n in named && NamedCell(n) == StructCell(s) {
      var n := if exists c :: c in cats && c.category == s.category
               then var c :| c in cats && c.category == s.category; WithName(s, c)
               else WithoutName(s);
      AttachNamesRows(structs, cats, n);
    }
  }

  /** A row of merged_df is a map row, and either carries a structure on its
      cell or is a map cell without structure, with null category, area and
      name. */
  lemma {:induction false} MergedRowOrigin(maps: seq<MapRow>, structs: seq<StructRow>, idColumn: string,
                                           nameColumn: string, cats: seq<CategoryRow>, o: MergedRow)
    requires Joinable(idColumn, nameColumn)
    requires o in Analyze(maps, structs, idColumn, nameColumn, cats).value.merged
    ensures exists m :: m in maps && (o.x, o.y, o.site) == (m.x, m.y, m.site)
    ensures (exists s :: s in structs && (s.x, s.y, s.category, s.area) == (o.x, o.y, o.category, o.area))
            || (o.category.None? && o.area.None? && o.name.None?
                && forall s :: s in structs ==> StructCell(s) != (o.x, o.y))
  {
    var named := AttachNames(structs, cats);
    assert o in multiset(MergeCells(maps, named));
    MergeCellsRows(maps, named, o);
    AttachNamesCells(structs, cats);
  }

  /** With each cell at most once in area_struct and each id at most once in
      the catalog, merged_df has exactly one row per map row. */
  lemma {:induction false} MergedRowCount(maps: seq<MapRow>, structs: seq<StructRow>, idColumn: string, nameColumn: string,
                       cats: seq<CategoryRow>)
    requires Joinable(idColumn, nameColumn)
    requires UniqueKeys(structs, StructCell)
    requires UniqueKeys(cats, CatalogKey)
    ensures |Analyze(maps, structs, idColumn, nameColumn, cats).value.merged| == |maps|
  {
    var named := AttachNames(structs, cats);
    AttachNamesUnique(structs, cats);
    assert UniqueKeys(named, NamedCell) by {
      forall i, j | 0 <= i < j < |named| ensures NamedCell(named[i]) != NamedCell(named[j]) {
        assert (structs[i].x, structs[i].y) != (structs[j].x, structs[j].y);
      }
    }
    LeftJoinUnique(maps, named, MapCell, NamedCell, Combine, MapOnly);
    var merged := Analyze(maps, structs, idColumn, nameColumn, cats).value.merged;
    assert |multiset(merged)| == |multiset(MergeCells(maps, named))|;
  }

  /** The order of a cell: by x, then by y. */
  function CellKey(r: MergedRow): SortKey { [Some(r.x), Some(r.y)] }

  /** area_1_df is the area-1 part of the sorted table, so it is ordered by
      cell. */
  lemma {:induction false} Area1ByCell(maps: seq<MapRow>, structs: seq<StructRow>, idColumn: string,
                                       nameColumn: string, cats: seq<CategoryRow>)
    requires Joinable(idColumn, nameColumn)
    ensures Ordered(Analyze(maps, structs, idColumn, nameColumn, cats).value.area1, CellKey)
  {
    var a := Analyze(maps, structs, idColumn, nameColumn, cats).value;
    KeepOrdered(a.merged, IsArea1, MergedKey);
    forall i, j | 0 <= i < j < |a.area1| ensures KeyLe(CellKey(a.area1[i]), CellKey(a.area1[j])) {
      var u, v := a.area1[i], a.area1[j];
      assert u in a.area1 && v in a.area1;
      assert MergedKey(u)[1..] == CellKey(u) && MergedKey(v)[1..] == CellKey(v);
    }
  }

  /** The two rows a map cell gets when the catalog lists its structure's id
      twice under two names. */
  lemma {:induction false} RepeatedIdRows(m: MapRow, s: StructRow, c1: CategoryRow, c2: CategoryRow)
    returns (oa: MergedRow, ob: MergedRow)
    requires StructCell(s) == MapCell(m)
    requires c1.category == s.category && c2.category == s.category && c1.name != c2.name
    ensures oa != ob
    ensures oa in MergeCells([m], AttachNames([s], [c1, c2])) && ob in MergeCells([m], AttachNames([s], [c1, c2]))
  {
    var na, nb := WithName(s, c1), WithName(s, c2);
    AttachNamesRows([s], [c1, c2], na);
    AttachNamesRows([s], [c1, c2], nb);
    oa, ob := Combine(m, na), Combine(m, nb);
    MergeCellsRows([m], AttachNames([s], [c1, c2]), oa);
    MergeCellsRows([m], AttachNames([s], [c1, c2]), ob);
  }

  /** Why MergedRowCount also needs unique catalog ids: one map cell, one
      structure on it, and a catalog listing its id twice under two names
      give more rows than the map has. */
  lemma {:induction false} RepeatedIdDoublesRow(m: MapRow, s: StructRow, c1: CategoryRow, c2: CategoryRow)
    requires StructCell(s) == MapCell(m)
    requires c1.category == s.category && c2.category == s.category && c1.name != c2.name
    ensures |Analyze([m], [s], KeyColumn, StructColumn, [c1, c2]).value.merged| > 1
  {
    var oa, ob := RepeatedIdRows(m, s, c1, c2);
    TwoMergedRows([m], [s], [c1, c2], oa, ob);
  }

  /** The named row a structure row gets from the name merge. */
  lemma NamedRowOf(structs: seq<StructRow>, cats: seq<CategoryRow>, s: StructRow) returns (n: NamedRow)
    requires s in structs
    ensures n in AttachNames(structs, cats) && (n.x, n.y, n.category, n.area) == (s.x, s.y, s.category, s.area)
  {
    n := WithoutName(s);
    if exists c :: c in cats && c.category == s.category {
      var c :| c in cats && c.category == s.category;
      n := WithName(s, c);
    }
    AttachNamesRows(structs, cats, n);
  }

  /** The rows a map cell gets when two different structure rows lie on it. */
  lemma {:induction false} RepeatedCellRows(m: MapRow, s1: StructRow, s2: StructRow, cats: seq<CategoryRow>)
    returns (oa: MergedRow, ob: MergedRow)
    requires StructCell(s1) == MapCell(m) && StructCell(s2) == MapCell(m) && s1 != s2
    ensures oa != ob
    ensures oa in MergeCells([m], AttachNames([s1, s2], cats)) && ob in MergeCells([m], AttachNames([s1, s2], cats))
  {
    var named := AttachNames([s1, s2], cats);
    var na := NamedRowOf([s1, s2], cats, s1);
    var nb := NamedRowOf([s1, s2], cats, s2);
    oa, ob := Combine(m, na), Combine(m, nb);
    MergeCellsRows([m], named, oa);
    MergeCellsRows([m], named, ob);
  }

  /** Why MergedRowCount needs each cell at most once in area_struct: a map
      cell with two different structure rows on it repeats the map row,
      whatever the catalog holds. */
  lemma {:induction false} RepeatedCellDoublesRow(m: MapRow, s1: StructRow, s2: StructRow, cats: seq<CategoryRow>)
    requires StructCell(s1) == MapCell(m) && StructCell(s2) == MapCell(m) && s1 != s2
    ensures |Analyze([m], [s1, s2], KeyColumn, StructColumn, cats).value.merged| > 1
  {
    var oa, ob := RepeatedCellRows(m, s1, s2, cats);
    TwoMergedRows([m], [s1, s2], cats, oa, ob);
  }

  /** Two different rows of the cell merge are two rows of merged_df. */
  lemma TwoMergedRows(maps: seq<MapRow>, structs: seq<StructRow>, cats: seq<CategoryRow>, oa: MergedRow, ob: MergedRow)
    requires oa != ob
    requires oa in MergeCells(maps, AttachNames(structs, cats)) && ob in MergeCells(maps, AttachNames(structs, cats))
    ensures |Analyze(maps, structs, KeyColumn, StructColumn, cats).value.merged| > 1
  {
    var merged := Analyze(maps, structs, KeyColumn, StructColumn, cats).value.merged;
    assert oa in multiset(MergeCells(maps, AttachNames(structs, cats)));
    assert ob in multiset(MergeCells(maps, AttachNames(structs, cats)));
    var i :| 0 <= i < |merged| && merged[i] == oa;
    var j :| 0 <= j < |merged| && merged[j] == ob;
    assert i != j;
  }
}
