/** The two input tables caffee_map.py and caffe_map_another.py share: the
    map of cells and the structures placed on them. */
module AreaTables {
  import opened Frames

  /** A row of the map table: x, y, ConstructionSite. */
  datatype MapRow = MapRow(x: int, y: int, site: Option<int>)

  /** A row of the structure table: x, y, the category id (third column),
      area. */
  datatype StructRow = StructRow(x: int, y: int, category: Option<int>, area: Option<int>)

  /** The merge key of both tables: the cell (x, y). */
  function MapCell(m: MapRow): (int, int) { (m.x, m.y) }
  function StructCell(s: StructRow): (int, int) { (s.x, s.y) }
}
