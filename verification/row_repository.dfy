/** `ExposedRowRepository`: writes a row and its cells by reconciliation
    and reads them back. */
module RowRepository {
  import opened Results
  import opened Ids
  import opened Collections
  import opened Storage
  import opened Reconciliation
  import opened RowModel

  /** The cell upserts of a row, in the iteration order `order` of its cell
      set. */
  function CellEntries(rowId: Uuid, order: seq<Cell>): (e: seq<(CellKey, string)>)
    ensures |e| == |order|
    ensures forall i :: 0 <= i < |e| ==> e[i] == ((rowId, order[i].columnDefinitionId), order[i].value)
  {
    seq(|order|, i requires 0 <= i < |order| => ((rowId, order[i].columnDefinitionId), order[i].value))
  }

  /** Cells of row `rowId`: the scope of the stale-cell delete. */
  function OfRow(rowId: Uuid): (f: (CellKey, string) -> bool)
    ensures forall k, v :: f(k, v) <==> k.0 == rowId
  {
    (k: CellKey, v: string) => k.0 == rowId
  }

  lemma CellEntriesInScope(rowId: Uuid, order: seq<Cell>)
    ensures AllInScope(OfRow(rowId), CellEntries(rowId, order))
  {
  }

  /** `save`: upsert the row record, upsert every cell in the set's
      iteration order, then delete the row's cells whose column is no longer
      among them.  The whole call is one atomic step. */
  ghost function Save(s: Store, row: Row): (r: Store)
    ensures r.tables == s.tables && r.versions == s.versions && r.columns == s.columns
    ensures r.rows == s.rows[row.id := RowRecord(row.versionId)]
  {
    var entries := CellEntries(row.id, Enumerate(row.cells));
    s.(rows := s.rows[row.id := RowRecord(row.versionId)],
       cells := Reconcile(s.cells, OfRow(row.id), entries))
  }

  /** Reconciling a row's cells listed in any order leaves one stored cell
      per column they fill, holding the value of one of them. */
  lemma ReconcileCells(m: map<CellKey, string>, rowId: Uuid, order: seq<Cell>, columnId: Uuid)
    ensures var r := Reconcile(m, OfRow(rowId), CellEntries(rowId, order));
      (rowId, columnId) in r <==> exists c :: c in order && c.columnDefinitionId == columnId
    ensures var r := Reconcile(m, OfRow(rowId), CellEntries(rowId, order));
      (rowId, columnId) in r ==>
        exists c :: c in order && c.columnDefinitionId == columnId && r[(rowId, columnId)] == c.value
  {
    var e := CellEntries(rowId, order);
    var k := (rowId, columnId);
    ReconcileAt(m, OfRow(rowId), e, k);
    if exists c :: c in order && c.columnDefinitionId == columnId {
      var c :| c in order && c.columnDefinitionId == columnId;
      var i :| 0 <= i < |order| && order[i] == c;
      assert e[i].0 == k;
    }
    if k in KeysOf(e) {
      var i := LastIndex(e, k);
      assert order[i] in order;
    }
  }

  /** After `save`, the row's stored cells are exactly one per column its
      cells fill, each holding the value of a cell of that column (the one
      written last when several cells share a column). */
  lemma SaveCellsExact(s: Store, row: Row, columnId: Uuid)
    ensures (row.id, columnId) in Save(s, row).cells <==> exists c :: c in row.cells && c.columnDefinitionId == columnId
    ensures (row.id, columnId) in Save(s, row).cells ==>
      exists c :: c in row.cells && c.columnDefinitionId == columnId && Save(s, row).cells[(row.id, columnId)] == c.value
  {
    var order := Enumerate(row.cells);
    ReconcileCells(s.cells, row.id, order, columnId);
    assert forall c :: c in order <==> c in row.cells by {
      assert Elems(order) == row.cells;
    }
  }

  /** With one cell per column, every cell is stored with its own value. */
  lemma SaveStoresCells(s: Store, row: Row, c: Cell)
    requires UniqueColumns(row) && c in row.cells
    ensures (row.id, c.columnDefinitionId) in Save(s, row).cells
    ensures Save(s, row).cells[(row.id, c.columnDefinitionId)] == c.value
  {
    SaveCellsExact(s, row, c.columnDefinitionId);
  }

  /** `save` never touches the cells of another row. */
  lemma SaveIsScoped(s: Store, row: Row)
    ensures forall k: CellKey :: k.0 != row.id ==> (k in Save(s, row).cells <==> k in s.cells)
    ensures forall k: CellKey :: k.0 != row.id && k in s.cells ==> Save(s, row).cells[k] == s.cells[k]
  {
    var e := CellEntries(row.id, Enumerate(row.cells));
    forall k: CellKey | k.0 != row.id
      ensures k in Save(s, row).cells <==> k in s.cells
      ensures k in s.cells ==> Save(s, row).cells[k] == s.cells[k]
    {
      ReconcileAt(s.cells, OfRow(row.id), e, k);
      assert k !in KeysOf(e);
    }
  }

  /** Saving the same row twice leaves the store as saving it once. */
  lemma SaveIdempotent(s: Store, row: Row)
    ensures Save(Save(s, row), row) == Save(s, row)
  {
    var e := CellEntries(row.id, Enumerate(row.cells));
    ReconcileIdempotent(s.cells, OfRow(row.id), e);
  }

  /** The stored cells of row `id`, as domain cells. */
  function CellsOf(s: Store, id: Uuid): (cells: set<Cell>)
    ensures forall c :: c in cells <==> (id, c.columnDefinitionId) in s.cells && s.cells[(id, c.columnDefinitionId)] == c.value
  {
    set k | k in s.cells && k.0 == id :: Cell(k.1, s.cells[k])
  }

  /** `findById`: the row record with its cells, or nothing. */
  function FindById(s: Store, id: Uuid): (r: Option<Row>)
    ensures r.Some? <==> id in s.rows
    ensures r.Some? ==> r.value.id == id && r.value.versionId == s.rows[id].versionId
    ensures r.Some? ==> forall c :: c in r.value.cells <==>
      (id, c.columnDefinitionId) in s.cells && s.cells[(id, c.columnDefinitionId)] == c.value
  {
    if id in s.rows then Some(Row(id, s.rows[id].versionId, CellsOf(s, id))) else None
  }

  /** `findByIdOrThrow`: an absent row is `NoEntityFound`. */
  function FindByIdOrThrow(s: Store, id: Uuid): (r: Result<Row>)
    ensures r.Err? <==> FindById(s, id).None?
    ensures r.Err? ==> r.failure == NoEntityFound
    ensures r.Ok? ==> FindById(s, id) == Some(r.value)
  {
    match FindById(s, id)
    case None => Err(NoEntityFound)
    case Some(row) => Ok(row)
  }

  /** Reading back a saved row gives the same row: id, version and exactly
      its cells. */
  lemma FindAfterSave(s: Store, row: Row)
    requires UniqueColumns(row)
    ensures FindById(Save(s, row), row.id) == Some(row)
    ensures FindByIdOrThrow(Save(s, row), row.id) == Ok(row)
  {
    var p := Save(s, row);
    forall c ensures c in CellsOf(p, row.id) <==> c in row.cells {
      SaveCellsExact(s, row, c.columnDefinitionId);
      if c in CellsOf(p, row.id) {
        var d :| d in row.cells && d.columnDefinitionId == c.columnDefinitionId && p.cells[(row.id, c.columnDefinitionId)] == d.value;
        assert c == d;
      }
    }
    assert CellsOf(p, row.id) == row.cells;
  }

  /** A row that was never saved is not found. */
  lemma AbsentRowIsNotFound(s: Store, id: Uuid)
    requires id !in s.rows
    ensures FindById(s, id) == None
    ensures FindByIdOrThrow(s, id) == Err(NoEntityFound)
  {
  }
}
