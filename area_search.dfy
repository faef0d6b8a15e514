/** caffe_map_another.py, searching_analysis: the structure table's category
    ids are replaced by names from a dictionary built from the catalog (with
    id 0 forced to " etc"), the map and structure tables are outer-merged on
    (x, y), the result is sorted by area, and its area-1 rows are what is
    saved. The merged table is what the function returns. */
module AreaSearch {
  import opened Frames
  import opened AreaTables

  /** A row of the catalog: its first column (the id) and its second (the
      name). */
  datatype CatalogRow = CatalogRow(id: Option<int>, name: Option<string>)

  /** A structure row whose third column now holds a category name. */
  datatype NamedRow = NamedRow(x: int, y: int, category: Option<string>, area: Option<int>)

  /** A row of the outer merge: the map column, then the structure columns;
      whichever side has no row on the cell is null. */
  datatype MergedRow = MergedRow(x: int, y: int, site: Option<int>, category: Option<string>, area: Option<int>)

  /** What searching_analysis produces: the merged table it returns and the
      area-1 table it writes to mas_map.csv. */
  datatype Search = Search(merged: seq<MergedRow>, saved: seq<MergedRow>)

  const EtcId: Option<int> := Some(0)
  const EtcName: Option<string> := Some(" etc")

  // ---------------------------------------------------------------------------
  // The category dictionary

  /** category.set_index(first column)[second column].to_dict(): each id maps
      to a name, a later row overwriting an earlier one with the same id. */
  function ToDict(cats: seq<CatalogRow>): (d: map<Option<int>, Option<string>>)
    ensures forall k :: k in d <==> exists c :: c in cats && c.id == k
    decreases |cats|
  {
    if cats == [] then map[]
    else
      var init, last := cats[..|cats| - 1], cats[|cats| - 1];
      assert forall c :: c in cats <==> c in init || c == last by {
        assert cats == init + [last];
      }
      ToDict(init)[last.id := last.name]
  }

  /** {**that dictionary, 0: " etc"}: the entry for 0 comes last and wins. */
  function CategoryDict(cats: seq<CatalogRow>): (d: map<Option<int>, Option<string>>)
    ensures EtcId in d && d[EtcId] == EtcName
    ensures forall k :: k != EtcId ==> (k in d <==> exists c :: c in cats && c.id == k)
  {
    ToDict(cats)[EtcId := EtcName]
  }

  /** The dictionary gives an id the name of the last catalog row with that
      id. */
  lemma {:induction false} ToDictLastWins(cats: seq<CatalogRow>, i: nat)
    requires i < |cats|
    requires forall j :: i < j < |cats| ==> cats[j].id != cats[i].id
    ensures cats[i].id in ToDict(cats) && ToDict(cats)[cats[i].id] == cats[i].name
    decreases |cats|
  {
    var init := cats[..|cats| - 1];
    if i < |cats| - 1 {
      assert cats[i] in init;
      forall j | i < j < |init| ensures init[j].id != init[i].id {
        assert init[j] == cats[j];
      }
      ToDictLastWins(init, i);
    }
  }

  /** A non-zero id gets the name of its last catalog row; 0 gets " etc"
      whatever the catalog says about it. */
  lemma {:induction false} CategoryDictEntry(cats: seq<CatalogRow>, i: nat)
    requires i < |cats|
    requires forall j :: i < j < |cats| ==> cats[j].id != cats[i].id
    ensures CategoryDict(cats)[cats[i].id] == if cats[i].id == EtcId then EtcName else cats[i].name
  {
    ToDictLastWins(cats, i);
  }

  // ---------------------------------------------------------------------------
  // Replacing ids by names

  /** Series.map(dict): an id the dictionary lacks becomes null. */
  function NameOf(d: map<Option<int>, Option<string>>, id: Option<int>): (n: Option<string>)
    ensures id in d ==> n == d[id]
    ensures n.Some? ==> id in d
  {
    if id in d then d[id] else None
  }

  /** structure.assign(...): the third column replaced by its names. */
  function Relabel(structs: seq<StructRow>, d: map<Option<int>, Option<string>>): (r: seq<NamedRow>)
    ensures |r| == |structs|
    ensures forall i :: 0 <= i < |r| ==> (r[i].x, r[i].y, r[i].area) == (structs[i].x, structs[i].y, structs[i].area)
  {
    seq(|structs|, i requires 0 <= i < |structs| =>
      NamedRow(structs[i].x, structs[i].y, NameOf(d, structs[i].category), structs[i].area))
  }

  /** The name a structure row ends up with: " etc" for id 0, null for an id
      the catalog lacks, otherwise a name the catalog gives that id. */
  lemma {:induction false} RelabelNames(structs: seq<StructRow>, cats: seq<CatalogRow>, i: nat)
    requires i < |structs|
    ensures var n := Relabel(structs, CategoryDict(cats))[i].category;
            var id := structs[i].category;
            && (id == EtcId ==> n == EtcName)
            && (id != EtcId && (forall c :: c in cats ==> c.id != id) ==> n.None?)
            && (id != EtcId && n.Some? ==> exists c :: c in cats && c.id == id && c.name == n)
  {
    var d := CategoryDict(cats);
    var id := structs[i].category;
    if id != EtcId && id in d {
      ToDictValue(cats, id);
    }
  }

  /** Every value of the dictionary is the name of a catalog row with that
      id. */
  lemma {:induction false} ToDictValue(cats: seq<CatalogRow>, k: Option<int>)
    requires k in ToDict(cats)
    ensures exists c :: c in cats && c.id == k && c.name == ToDict(cats)[k]
    decreases |cats|
  {
    var init, last := cats[..|cats| - 1], cats[|cats| - 1];
    assert last in cats;
    if k != last.id {
      ToDictValue(init, k);
      var c :| c in init && c.id == k && c.name == ToDict(init)[k];
      assert c in cats;
    }
  }

  // ---------------------------------------------------------------------------
  // The outer merge on (x, y)

  function NamedCell(n: NamedRow): (int, int) { (n.x, n.y) }
  function RowCell(r: MergedRow): (int, int) { (r.x, r.y) }
  function Both(m: MapRow, n: NamedRow): MergedRow { MergedRow(m.x, m.y, m.site, n.category, n.area) }
  function MapOnly(m: MapRow): MergedRow { MergedRow(m.x, m.y, m.site, None, None) }
  function StructOnly(n: NamedRow): MergedRow { MergedRow(n.x, n.y, None, n.category, n.area) }

  /** Some map row lies on n's cell. */
  predicate OnMap(maps: seq<MapRow>, n: NamedRow)
  {
    exists m :: m in maps && MapCell(m) == NamedCell(n)
  }

  /** The structure rows no map row matches, as rows with a null map side. */
  function Unmatched(named: seq<NamedRow>, maps: seq<MapRow>): (r: seq<MergedRow>)
    ensures forall o :: o in r <==> exists n :: n in named && !OnMap(maps, n) && o == StructOnly(n)
    decreases |named|
  {
    if named == [] then []
    else
      var rest := Unmatched(named[1..], maps);
      assert forall n :: n in named <==> n == named[0] || n in named[1..] by {
        assert named == [named[0]] + named[1..];
      }
      (if OnMap(maps, named[0]) then [] else [StructOnly(named[0])]) + rest
  }

  /** merge(how="outer", on=["x", "y"]): the left merge of the map with the
      structures, followed by the structures off the map. pandas orders the
      rows of an outer merge by key; the sort that follows makes only the
      order of equal areas depend on it, and that order is left open. */
  function OuterJoin(maps: seq<MapRow>, named: seq<NamedRow>): (r: seq<MergedRow>)
    ensures |r| >= |maps|
  {
    LeftJoin(maps, named, MapCell, NamedCell, Both, MapOnly) + Unmatched(named, maps)
  }

  /** sort_values("area"), a null area last. */
  function AreaKey(r: MergedRow): SortKey { [r.area] }

  /** merged_data["area"] == 1 (false on a null area). */
  function IsArea1(r: MergedRow): bool { r.area == Some(1) }

  /** searching_analysis on tables already read. reset_index only renumbers
      the rows, which a sequence does by position. */
  function SearchingAnalysis(maps: seq<MapRow>, structs: seq<StructRow>, cats: seq<CatalogRow>): (r: Search)
    ensures multiset(r.merged) == multiset(OuterJoin(maps, Relabel(structs, CategoryDict(cats))))
    ensures Ordered(r.merged, AreaKey)
    ensures r.saved == Keep(r.merged, IsArea1)
    ensures forall o :: o in r.saved <==> o in r.merged && o.area == Some(1)
  {
    var merged := SortBy(OuterJoin(maps, Relabel(structs, CategoryDict(cats))), AreaKey);
    Search(merged, Keep(merged, IsArea1))
  }

  // ---------------------------------------------------------------------------
  // Properties of the outer merge

  /** The rows of the outer merge: a map row with each structure on its cell,
      a map row alone (null category and area) when it has none, or a
      structure alone (null ConstructionSite) when no map row is on its
      cell. */
  lemma {:induction false} OuterJoinRows(maps: seq<MapRow>, named: seq<NamedRow>, o: MergedRow)
    ensures o in OuterJoin(maps, named) <==>
            (exists m :: m in maps &&
               (((forall n :: n in named ==> NamedCell(n) != MapCell(m)) && o == MapOnly(m))
                || (exists n :: n in named && NamedCell(n) == MapCell(m) && o == Both(m, n))))
            || (exists n :: n in named && !OnMap(maps, n) && o == StructOnly(n))
  {
    LeftJoinMembers(maps, named, MapCell, NamedCell, Both, MapOnly, o);
  }

  /** The row the outer merge gives a map row: with the first structure on
      its cell, or alone. */
  lemma {:induction false} MapRowJoined(maps: seq<MapRow>, named: seq<NamedRow>, m: MapRow) returns (o: MergedRow)
    requires m in maps
    ensures o in OuterJoin(maps, named) && (o.x, o.y, o.site) == (m.x, m.y, m.site)
  {
    o := MapOnly(m);
    if exists n :: n in named && NamedCell(n) == MapCell(m) {
      var n :| n in named && NamedCell(n) == MapCell(m);
      o := Both(m, n);
    }
    LeftJoinMembers(maps, named, MapCell, NamedCell, Both, MapOnly, o);
  }

  /** Every map row is in the merged table, with its ConstructionSite. */
  lemma {:induction false} MapRowKept(maps: seq<MapRow>, structs: seq<StructRow>, cats: seq<CatalogRow>, m: MapRow)
    requires m in maps
    ensures exists o :: o in SearchingAnalysis(maps, structs, cats).merged && (o.x, o.y, o.site) == (m.x, m.y, m.site)
  {
    var o := MapRowJoined(maps, Relabel(structs, CategoryDict(cats)), m);
    assert o in multiset(OuterJoin(maps, Relabel(structs, CategoryDict(cats))));
  }

  /** Every structure row is in the merged table, with its area and the name
      the dictionary gives its id. */
  lemma {:induction false} StructRowKept(maps: seq<MapRow>, structs: seq<StructRow>, cats: seq<CatalogRow>, i: nat)
    requires i < |structs|
    ensures exists o :: o in SearchingAnalysis(maps, structs, cats).merged
                        && (o.x, o.y, o.area) == (structs[i].x, structs[i].y, structs[i].area)
                        && o.category == NameOf(CategoryDict(cats), structs[i].category)
  {
    var named := Relabel(structs, CategoryDict(cats));
    var n := named[i];
    assert n in named;
    var o := if OnMap(maps, n)
             then var m :| m in maps && MapCell(m) == NamedCell(n); Both(m, n)
             else StructOnly(n);
    OuterJoinRows(maps, named, o);
    assert o in multiset(OuterJoin(maps, named));
  }

  /** Where a row of the outer merge comes from, field by field. */
  predicate FromTables(maps: seq<MapRow>, named: seq<NamedRow>, o: MergedRow)
  {
    || (exists m :: m in maps && (o.x, o.y, o.site) == (m.x, m.y, m.site)
          && ((exists n :: n in named && (n.x, n.y, n.category, n.area) == (o.x, o.y, o.category, o.area))
              || (o.category.None? && o.area.None? && forall n :: n in named ==> NamedCell(n) != RowCell(o))))
    || (o.site.None?
        && (exists n :: n in named && (n.x, n.y, n.category, n.area) == (o.x, o.y, o.category, o.area))
        && forall m :: m in maps ==> MapCell(m) != RowCell(o))
  }

  lemma {:induction false} JoinedRowOrigin(maps: seq<MapRow>, named: seq<NamedRow>, o: MergedRow)
    requires o in OuterJoin(maps, named)
    ensures FromTables(maps, named, o)
  {
    OuterJoinRows(maps, named, o);
  }

  /** A row of the merged table is a map row with a structure on its cell, a
      map row alone with null category and area, or a structure alone with a
      null ConstructionSite on a cell the map lacks. */
  lemma {:induction false} MergedRowOrigin(maps: seq<MapRow>, structs: seq<StructRow>, cats: seq<CatalogRow>,
                                           o: MergedRow)
    requires o in SearchingAnalysis(maps, structs, cats).merged
    ensures FromTables(maps, Relabel(structs, CategoryDict(cats)), o)
  {
    var named := Relabel(structs, CategoryDict(cats));
    assert o in multiset(OuterJoin(maps, named));
    JoinedRowOrigin(maps, named, o);
  }

  /** Each structure row stays a distinct row: relabelling keeps cells. */
  lemma {:induction false} RelabelUnique(structs: seq<StructRow>, d: map<Option<int>, Option<string>>)
    requires UniqueKeys(structs, StructCell)
    ensures UniqueKeys(Relabel(structs, d), NamedCell)
  {
    var named := Relabel(structs, d);
    forall i, j | 0 <= i < j < |named| ensures NamedCell(named[i]) != NamedCell(named[j]) {
      assert StructCell(structs[i]) != StructCell(structs[j]);
    }
  }

  /** The unmatched part repeats no cell when the structure table does not. */
  lemma {:induction false} UnmatchedUnique(named: seq<NamedRow>, maps: seq<MapRow>)
    requires UniqueKeys(named, NamedCell)
    ensures UniqueKeys(Unmatched(named, maps), RowCell)
    decreases |named|
  {
    if named != [] {
      var tail := named[1..];
      assert UniqueKeys(tail, NamedCell) by {
        forall i, j | 0 <= i < j < |tail| ensures NamedCell(tail[i]) != NamedCell(tail[j]) {
          assert tail[i] == named[i + 1] && tail[j] == named[j + 1];
        }
      }
      UnmatchedUnique(tail, maps);
      var rest := Unmatched(tail, maps);
      if !OnMap(maps, named[0]) {
        var r := [StructOnly(named[0])] + rest;
        forall k | 0 <= k < |rest| ensures RowCell(rest[k]) != NamedCell(named[0]) {
          assert rest[k] in rest;
          var n :| n in tail && !OnMap(maps, n) && rest[k] == StructOnly(n);
          var t :| 0 <= t < |tail| && tail[t] == n;
          assert named[t + 1] == n;
        }
        forall i, j | 0 <= i < j < |r| ensures RowCell(r[i]) != RowCell(r[j]) {
          if i > 0 {
            assert r[i] == rest[i - 1] && r[j] == rest[j - 1];
          } else {
            assert r[j] == rest[j - 1];
          }
        }
      }
    }
  }

  /** The outer merge repeats no cell when neither table does. */
  lemma {:induction false} OuterJoinUnique(maps: seq<MapRow>, named: seq<NamedRow>)
    requires UniqueKeys(maps, MapCell) && UniqueKeys(named, NamedCell)
    ensures UniqueKeys(OuterJoin(maps, named), RowCell)
  {
    var left := LeftJoin(maps, named, MapCell, NamedCell, Both, MapOnly);
    var right := Unmatched(named, maps);
    LeftJoinUnique(maps, named, MapCell, NamedCell, Both, MapOnly);
    UnmatchedUnique(named, maps);
    forall i | 0 <= i < |left| ensures RowCell(left[i]) == MapCell(maps[i]) {
      assert left[i] == MergeRow(maps[i], named, MapCell, NamedCell, Both, MapOnly);
    }
    forall k | 0 <= k < |right| ensures forall m :: m in maps ==> MapCell(m) != RowCell(right[k]) {
      assert right[k] in right;
    }
    var joined := left + right;
    forall i, j | 0 <= i < j < |joined| ensures RowCell(joined[i]) != RowCell(joined[j]) {
      if j < |left| {
        assert joined[i] == left[i] && joined[j] == left[j];
      } else if i >= |left| {
        assert joined[i] == right[i - |left|] && joined[j] == right[j - |left|];
      } else {
        assert joined[i] == left[i] && joined[j] == right[j - |left|];
        assert maps[i] in maps;
      }
    }
  }

  /** With each cell at most once per table, the merged table has each cell
      at most once; with MapRowKept and StructRowKept, each cell of either
      table appears exactly once. */
  lemma {:induction false} CellsOnce(maps: seq<MapRow>, structs: seq<StructRow>, cats: seq<CatalogRow>)
    requires UniqueKeys(maps, MapCell) && UniqueKeys(structs, StructCell)
    ensures UniqueKeys(SearchingAnalysis(maps, structs, cats).merged, RowCell)
  {
    var named := Relabel(structs, CategoryDict(cats));
    RelabelUnique(structs, CategoryDict(cats));
    OuterJoinUnique(maps, named);
    UniqueKeysPermutation(OuterJoin(maps, named), SearchingAnalysis(maps, structs, cats).merged, RowCell);
  }
}
