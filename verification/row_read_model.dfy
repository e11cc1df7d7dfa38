/** `ExposedRowReadModelRepository`: the query side's view of a table's
    rows, found by joining each row to its version and the version to its
    table. */
module RowReadModel {
  import opened Ids
  import opened Storage
  import RowModel
  import RowRepository

  /** A cell as the query side shows it: its column id in text form. */
  datatype CellView = CellView(columnDefinitionId: string, value: string)

  /** A row as the query side shows it: its id in text form. */
  datatype RowView = RowView(id: string, cells: set<CellView>)

  /** The inner join rows ⋈ versions ⋈ tables, filtered on the table id:
      a row whose version or table record is missing is not selected. */
  function TableRowIds(s: Store, tableId: Uuid): (ids: set<Uuid>)
    ensures forall id :: id in ids <==>
      id in s.rows && s.rows[id].versionId in s.versions &&
      s.versions[s.rows[id].versionId].tableId == tableId && tableId in s.tables
  {
    set id | id in s.rows && s.rows[id].versionId in s.versions &&
             s.versions[s.rows[id].versionId].tableId == tableId && tableId in s.tables
  }

  /** The stored cells of row `rowId`, as views. */
  function CellViews(s: Store, rowId: Uuid): set<CellView> {
    set k | k in s.cells && k.0 == rowId :: CellView(UuidText(k.1), s.cells[k])
  }

  /** `findAllByTableId`: every selected row with its cells, one view per
      selected row (distinct rows never collapse into one view). */
  function FindAllByTableId(s: Store, tableId: Uuid): (r: set<RowView>)
    ensures |r| == |TableRowIds(s, tableId)|
    ensures forall id :: id in TableRowIds(s, tableId) ==> RowView(UuidText(id), CellViews(s, id)) in r
  {
    ViewsCount(s, TableRowIds(s, tableId));
    set id | id in TableRowIds(s, tableId) :: RowView(UuidText(id), CellViews(s, id))
  }

  /** Rendering row ids as text is injective, so a set of rows has as many
      views as rows. */
  lemma {:induction false} ViewsCount(s: Store, ids: set<Uuid>)
    ensures |set id | id in ids :: RowView(UuidText(id), CellViews(s, id))| == |ids|
    decreases ids
  {
    if ids != {} {
      var x :| x in ids;
      var rest := ids - {x};
      ViewsCount(s, rest);
      var all := set id | id in ids :: RowView(UuidText(id), CellViews(s, id));
      var some := set id | id in rest :: RowView(UuidText(id), CellViews(s, id));
      var vx := RowView(UuidText(x), CellViews(s, x));
      assert all == some + {vx};
      ViewNotAmong(s, rest, x);
    }
  }

  /** A row outside a set of rows has a view none of them has. */
  lemma ViewNotAmong(s: Store, ids: set<Uuid>, x: Uuid)
    requires x !in ids
    ensures RowView(UuidText(x), CellViews(s, x)) !in set id | id in ids :: RowView(UuidText(id), CellViews(s, id))
  {
    if RowView(UuidText(x), CellViews(s, x)) in set id | id in ids :: RowView(UuidText(id), CellViews(s, id)) {
      var y :| y in ids && RowView(UuidText(y), CellViews(s, y)) == RowView(UuidText(x), CellViews(s, x));
      UuidTextInjective(y, x);
    }
  }

  /** A row's view lists exactly its stored cells, each column id rendered
      as text. */
  lemma CellViewsExact(s: Store, rowId: Uuid, columnId: Uuid, value: string)
    ensures CellView(UuidText(columnId), value) in CellViews(s, rowId) <==>
      (rowId, columnId) in s.cells && s.cells[(rowId, columnId)] == value
  {
    if CellView(UuidText(columnId), value) in CellViews(s, rowId) {
      var k :| k in s.cells && k.0 == rowId && CellView(UuidText(k.1), s.cells[k]) == CellView(UuidText(columnId), value);
      UuidTextInjective(k.1, columnId);
    }
    if (rowId, columnId) in s.cells && s.cells[(rowId, columnId)] == value {
      var k := (rowId, columnId);
      assert CellView(UuidText(k.1), s.cells[k]) in CellViews(s, rowId);
    }
  }

  /** Every cell view renders a stored cell of the row. */
  lemma CellViewsAreStored(s: Store, rowId: Uuid, c: CellView)
    requires c in CellViews(s, rowId)
    ensures exists columnId :: (rowId, columnId) in s.cells && c == CellView(UuidText(columnId), s.cells[(rowId, columnId)])
  {
    var k :| k in s.cells && k.0 == rowId && c == CellView(UuidText(k.1), s.cells[k]);
    assert (rowId, k.1) == k;
  }

  /** A row is listed exactly when its version belongs to the table (and
      the table exists), and then with exactly its cells. */
  lemma FindAllExact(s: Store, tableId: Uuid, id: Uuid)
    ensures (exists v :: v in FindAllByTableId(s, tableId) && v.id == UuidText(id)) <==> id in TableRowIds(s, tableId)
    ensures forall v :: v in FindAllByTableId(s, tableId) && v.id == UuidText(id) ==> v.cells == CellViews(s, id)
  {
    var r := FindAllByTableId(s, tableId);
    if id in TableRowIds(s, tableId) {
      assert RowView(UuidText(id), CellViews(s, id)) in r;
    }
    forall v | v in r && v.id == UuidText(id)
      ensures id in TableRowIds(s, tableId) && v.cells == CellViews(s, id)
    {
      var other :| other in TableRowIds(s, tableId) && v == RowView(UuidText(other), CellViews(s, other));
      UuidTextInjective(other, id);
    }
  }

  /** A selected row without cells is still listed, with no cells. */
  lemma EmptyRowIsListed(s: Store, tableId: Uuid, id: Uuid)
    requires id in TableRowIds(s, tableId)
    requires forall k: CellKey :: k in s.cells ==> k.0 != id
    ensures RowView(UuidText(id), {}) in FindAllByTableId(s, tableId)
  {
    assert CellViews(s, id) == {};
  }

  /** The view of a domain row's cells. */
  function ViewOfCells(cells: set<RowModel.Cell>): set<CellView> {
    set c | c in cells :: CellView(UuidText(c.columnDefinitionId), c.value)
  }

  /** Once saved against a version of an existing table, a row is listed
      for that table with exactly its cells. */
  lemma SavedRowIsListed(s: Store, row: RowModel.Row, tableId: Uuid)
    requires RowModel.UniqueColumns(row)
    requires row.versionId in s.versions && s.versions[row.versionId].tableId == tableId && tableId in s.tables
    ensures RowView(UuidText(row.id), ViewOfCells(row.cells)) in FindAllByTableId(RowRepository.Save(s, row), tableId)
  {
    var p := RowRepository.Save(s, row);
    assert row.id in TableRowIds(p, tableId);
    RowRepository.FindAfterSave(s, row);
    assert RowRepository.CellsOf(p, row.id) == row.cells;
    forall c | c in CellViews(p, row.id) ensures c in ViewOfCells(row.cells) {
      CellViewsAreStored(p, row.id, c);
      var columnId :| (row.id, columnId) in p.cells && c == CellView(UuidText(columnId), p.cells[(row.id, columnId)]);
      assert RowModel.Cell(columnId, p.cells[(row.id, columnId)]) in row.cells;
    }
    forall c | c in ViewOfCells(row.cells) ensures c in CellViews(p, row.id) {
      var d :| d in row.cells && c == CellView(UuidText(d.columnDefinitionId), d.value);
      assert d in RowRepository.CellsOf(p, row.id);
      CellViewsExact(p, row.id, d.columnDefinitionId, d.value);
    }
    assert CellViews(p, row.id) == ViewOfCells(row.cells);
    assert RowView(UuidText(row.id), CellViews(p, row.id)) in FindAllByTableId(p, tableId);
  }
}
