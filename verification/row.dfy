/** The row aggregate: one extracted record of a table version. */
module RowModel {
  import opened Ids

  /** `Cell`: a value under a column definition's id. */
  datatype Cell = Cell(columnDefinitionId: Uuid, value: string)

  /** `Row`, owned by the version whose columns it fills. */
  datatype Row = Row(id: Uuid, versionId: Uuid, cells: set<Cell>)

  /** No two cells of the row fill the same column. */
  predicate UniqueColumns(row: Row) {
    forall a, b :: a in row.cells && b in row.cells && a.columnDefinitionId == b.columnDefinitionId ==> a == b
  }
}
