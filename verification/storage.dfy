/** The relational store the repositories write, as maps keyed by each
    record's natural key: `tables` and `table_versions` by id,
    `table_columns` by (version id, name), `rows` by id and `cells` by
    (row id, column definition id). */
module Storage {
  import opened Results
  import opened Ids

  datatype TableRecord = TableRecord(userId: Uuid, name: string)

  datatype VersionRecord = VersionRecord(tableId: Uuid, orderNumber: int)

  /** A `table_columns` record.  The column's id is kept so that a
      reloaded column keeps its identity. */
  datatype ColumnRecord = ColumnRecord(id: Uuid, description: string, typeName: string, stringFormat: Option<string>, optional: bool)

  datatype RowRecord = RowRecord(versionId: Uuid)

  /** (version id, column name): unique per `table_columns_version_id_name_uk`. */
  type ColumnKey = (Uuid, string)

  /** (row id, column definition id): unique per the cells' unique index. */
  type CellKey = (Uuid, Uuid)

  datatype Store = Store(
    tables: map<Uuid, TableRecord>,
    versions: map<Uuid, VersionRecord>,
    columns: map<ColumnKey, ColumnRecord>,
    rows: map<Uuid, RowRecord>,
    cells: map<CellKey, string>)

  const EmptyStore := Store(map[], map[], map[], map[], map[])

  /** The rows recorded against any of the versions in `gone`. */
  function RowsOf(s: Store, gone: set<Uuid>): set<Uuid> {
    set r | r in s.rows && s.rows[r].versionId in gone
  }

  /** `ON DELETE CASCADE` after the versions in `gone` are deleted: their
      column records and rows go, and so do the cells of those rows.  The
      version records themselves are removed by the caller. */
  function Cascade(s: Store, gone: set<Uuid>): (r: Store)
    ensures r.tables == s.tables && r.versions == s.versions
    ensures forall k :: k in r.columns <==> k in s.columns && k.0 !in gone
    ensures forall k :: k in r.columns ==> r.columns[k] == s.columns[k]
    ensures forall id :: id in r.rows <==> id in s.rows && s.rows[id].versionId !in gone
    ensures forall id :: id in r.rows ==> r.rows[id] == s.rows[id]
    ensures forall k :: k in r.cells <==> k in s.cells && k.0 !in RowsOf(s, gone)
    ensures forall k :: k in r.cells ==> r.cells[k] == s.cells[k]
  {
    var dead := RowsOf(s, gone);
    s.(columns := map k | k in s.columns && k.0 !in gone :: s.columns[k],
       rows := map id | id in s.rows && id !in dead :: s.rows[id],
       cells := map k | k in s.cells && k.0 !in dead :: s.cells[k])
  }

  lemma CascadeNothing(s: Store)
    ensures Cascade(s, {}) == s
  {
    var r := Cascade(s, {});
    assert r.columns == s.columns;
    assert r.rows == s.rows;
    assert r.cells == s.cells;
  }

  /** The cascade reads only the row and cell records, so two stores
      agreeing on those lose the same rows and cells. */
  lemma CascadeKeepsRows(a: Store, b: Store, gone: set<Uuid>)
    requires a.rows == b.rows && a.cells == b.cells
    ensures Cascade(a, gone).rows == Cascade(b, gone).rows
    ensures Cascade(a, gone).cells == Cascade(b, gone).cells
  {
    assert RowsOf(a, gone) == RowsOf(b, gone);
  }
}
