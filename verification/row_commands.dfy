/** `RowCommandHandler.handle`: extract a row from some content against a
    chosen version of a table and save it. */
module RowCommands {
  import opened Results
  import opened Ids
  import opened ColumnModel
  import opened TableModel
  import opened Storage
  import opened TableFinder
  import opened RowModel
  import RowRepository

  datatype ExtractRowCommand = ExtractRowCommand(tableId: Uuid, versionNumber: int, content: string)

  /** `RowExtractor.extract`, left uninterpreted: whatever cells it makes of
      the columns and the content. */
  type Extractor = (seq<Column>, string) -> set<Cell>

  /** `versions.find { it.orderNumber == n }`: the first version, in
      iteration order, with that order number. */
  function FindVersion(vs: seq<Version>, n: int): (r: Option<Version>)
    ensures r.None? <==> forall i :: 0 <= i < |vs| ==> vs[i].orderNumber != n
    ensures r.Some? ==> exists i :: (0 <= i < |vs| && vs[i] == r.value &&
                                     r.value.orderNumber == n && forall j :: 0 <= j < i ==> vs[j].orderNumber != n)
  {
    if vs == [] then None
    else if vs[0].orderNumber == n then Some(vs[0])
    else
      var r := FindVersion(vs[1..], n);
      assert forall i :: 1 <= i < |vs| ==> vs[i] == vs[1..][i - 1];
      if r.Some? then
        var i :| 0 <= i < |vs[1..]| && vs[1..][i] == r.value && forall j :: 0 <= j < i ==> vs[1..][j].orderNumber != n;
        assert vs[i + 1] == r.value;
        r
      else r
  }

  /** The row `handle` builds for an aggregate: the extractor fills the
      columns of the version with the requested number; without such a
      version, `MissingVersion`. */
  function RowFor(t: Table, cmd: ExtractRowCommand, extract: Extractor, rowId: Uuid): (r: Result<Row>)
    ensures r.Err? <==> forall i :: 0 <= i < |t.versions| ==> t.versions[i].orderNumber != cmd.versionNumber
    ensures r.Err? ==> r.failure == MissingVersion(cmd.versionNumber)
    ensures r.Ok? ==> exists i :: (0 <= i < |t.versions| &&
                                   t.versions[i].orderNumber == cmd.versionNumber &&
                                   r.value == Row(rowId, t.versions[i].id, extract(t.versions[i].columns, cmd.content)))
  {
    match FindVersion(t.versions, cmd.versionNumber)
    case None => Err(MissingVersion(cmd.versionNumber))
    case Some(version) => Ok(Row(rowId, version.id, extract(version.columns, cmd.content)))
  }

  /** `handle`, for the authenticated `userId`: the owner's table must
      exist and have a version with the requested number; the extractor
      fills that version's columns from the content, and the resulting row,
      under the fresh id `rowId`, is saved.  The result is the store after
      the save together with the saved row; a failure saves nothing. */
  ghost function Handle(s: Store, userId: Uuid, cmd: ExtractRowCommand, extract: Extractor, rowId: Uuid): (r: Result<(Store, Row)>)
    ensures FindByIdThrow(s, userId, cmd.tableId).Err? ==> r == Err(FindByIdThrow(s, userId, cmd.tableId).failure)
    ensures FindById(s, userId, cmd.tableId) == Ok(None) ==> r == Err(NoEntityFound)
    ensures FindByIdThrow(s, userId, cmd.tableId).Ok? ==>
      var t := FindByIdThrow(s, userId, cmd.tableId).value;
      (r.Err? <==> forall i :: 0 <= i < |t.versions| ==> t.versions[i].orderNumber != cmd.versionNumber) &&
      (r.Err? ==> r.failure == MissingVersion(cmd.versionNumber)) &&
      (r.Ok? ==> exists i :: (0 <= i < |t.versions| &&
                              t.versions[i].orderNumber == cmd.versionNumber &&
                              r.value.1 == Row(rowId, t.versions[i].id, extract(t.versions[i].columns, cmd.content)) &&
                              r.value.0 == RowRepository.Save(s, r.value.1)))
  {
    var table :- FindByIdThrow(s, userId, cmd.tableId);
    var row :- RowFor(table, cmd, extract, rowId);
    Ok((RowRepository.Save(s, row), row))
  }

  /** On success exactly one row is stored: under the fresh id, against the
      selected version, with the extractor's cells (when they fill each
      column at most once); no other row record changes. */
  lemma HandleSavesOneRow(s: Store, userId: Uuid, cmd: ExtractRowCommand, extract: Extractor, rowId: Uuid)
    ensures var r := Handle(s, userId, cmd, extract, rowId);
      r.Ok? && UniqueColumns(r.value.1) ==>
        RowRepository.FindById(r.value.0, rowId) == Some(r.value.1) &&
        (forall id :: id != rowId ==> (id in r.value.0.rows <==> id in s.rows)) &&
        (forall id :: id != rowId && id in s.rows ==> r.value.0.rows[id] == s.rows[id])
  {
    var r := Handle(s, userId, cmd, extract, rowId);
    if r.Ok? && UniqueColumns(r.value.1) {
      RowRepository.FindAfterSave(s, r.value.1);
    }
  }
}
