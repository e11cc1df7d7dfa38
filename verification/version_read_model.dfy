/** `VersionReadModelExposedRepository`: the query side's view of a
    table's versions, read straight from the store without decoding the
    column types. */
module VersionReadModel {
  import opened Results
  import opened Ids
  import opened Collections
  import opened Storage
  import TableModel
  import TableRepository
  import TableFinder

  /** A column's type as stored: the type name and the format name,
      uninterpreted. */
  datatype ColumnTypeView = ColumnTypeView(typeName: string, format: Option<string>)

  datatype ColumnView = ColumnView(id: Uuid, name: string, description: string, columnType: ColumnTypeView, optional: bool)

  /** A version as the query side shows it: its id in text form. */
  datatype VersionView = VersionView(id: string, columns: seq<ColumnView>, orderNumber: int)

  /** One `table_columns` record as a view. */
  function ColumnViewOf(e: (ColumnKey, ColumnRecord)): ColumnView {
    ColumnView(e.1.id, e.0.1, e.1.description, ColumnTypeView(e.1.typeName, e.1.stringFormat), e.1.optional)
  }

  /** `fetchColumns`: every column record of version `vid`, in scan order,
      with its type name and format copied as stored. */
  ghost function FetchColumns(s: Store, vid: Uuid): (r: seq<ColumnView>)
    ensures |r| == |TableFinder.ColumnKeysOf(s, vid)|
    ensures forall i :: 0 <= i < |r| ==>
      var k := (vid, r[i].name);
      k in s.columns && r[i].id == s.columns[k].id && r[i].description == s.columns[k].description &&
      r[i].columnType == ColumnTypeView(s.columns[k].typeName, s.columns[k].stringFormat) &&
      r[i].optional == s.columns[k].optional
  {
    var keys := Enumerate(TableFinder.ColumnKeysOf(s, vid));
    assert forall i :: 0 <= i < |keys| ==> keys[i] in Elems(keys);
    var rows := TableFinder.ColumnRows(s, keys);
    seq(|rows|, i requires 0 <= i < |rows| => ColumnViewOf(rows[i]))
  }

  /** Every stored column of the version is listed, exactly once. */
  lemma FetchColumnsExact(s: Store, vid: Uuid, name: string)
    ensures var r := FetchColumns(s, vid);
      (vid, name) in s.columns <==> exists i :: 0 <= i < |r| && r[i].name == name
    ensures var r := FetchColumns(s, vid);
      forall i, j :: 0 <= i < j < |r| ==> r[i].name != r[j].name
  {
    var keys := Enumerate(TableFinder.ColumnKeysOf(s, vid));
    assert forall i :: 0 <= i < |keys| ==> keys[i] in Elems(keys);
    var r := FetchColumns(s, vid);
    assert forall i :: 0 <= i < |r| ==> r[i].name == keys[i].1 && keys[i].0 == vid;
    if (vid, name) in s.columns {
      assert (vid, name) in Elems(keys);
    }
  }

  /** The view of stored version `id`. */
  ghost function VersionViewOf(s: Store, id: Uuid): (v: VersionView)
    requires id in s.versions
    ensures v.id == UuidText(id) && v.orderNumber == s.versions[id].orderNumber
  {
    VersionView(UuidText(id), FetchColumns(s, id), s.versions[id].orderNumber)
  }

  /** The inner join of versions with their table, filtered on the table id
      and on the owner: nothing unless `userId` owns table `tableId`. */
  function OwnedVersionIds(s: Store, userId: Uuid, tableId: Uuid): (ids: set<Uuid>)
    ensures forall id :: id in ids <==>
      tableId in s.tables && s.tables[tableId].userId == userId &&
      id in s.versions && s.versions[id].tableId == tableId
  {
    if tableId in s.tables && s.tables[tableId].userId == userId then TableFinder.VersionIdsOf(s, tableId) else {}
  }

  /** `findAllVersionsByTableId`: the owned versions of the table. */
  ghost function FindAllVersions(s: Store, userId: Uuid, tableId: Uuid): (r: set<VersionView>)
    ensures forall v :: v in r ==> exists id :: id in OwnedVersionIds(s, userId, tableId) && v == VersionViewOf(s, id)
  {
    set id | id in OwnedVersionIds(s, userId, tableId) :: VersionViewOf(s, id)
  }

  /** A version is listed exactly when it belongs to the table and the table
      belongs to the caller, with its stored order number and columns. */
  lemma FindAllVersionsExact(s: Store, userId: Uuid, tableId: Uuid, id: Uuid)
    ensures (exists v :: v in FindAllVersions(s, userId, tableId) && v.id == UuidText(id)) <==>
      tableId in s.tables && s.tables[tableId].userId == userId &&
      id in s.versions && s.versions[id].tableId == tableId
    ensures forall v :: v in FindAllVersions(s, userId, tableId) && v.id == UuidText(id) ==>
      id in s.versions && v.orderNumber == s.versions[id].orderNumber && v.columns == FetchColumns(s, id)
  {
    var r := FindAllVersions(s, userId, tableId);
    if id in OwnedVersionIds(s, userId, tableId) {
      assert VersionViewOf(s, id) in r;
    }
    forall v | v in r && v.id == UuidText(id)
      ensures id in OwnedVersionIds(s, userId, tableId) && v == VersionViewOf(s, id)
    {
      var other :| other in OwnedVersionIds(s, userId, tableId) && v == VersionViewOf(s, other);
      UuidTextInjective(other, id);
    }
  }

  /** Another user's table, or a missing one, lists no versions. */
  lemma ForeignVersionsAreHidden(s: Store, userId: Uuid, tableId: Uuid)
    requires !(tableId in s.tables && s.tables[tableId].userId == userId)
    ensures FindAllVersions(s, userId, tableId) == {}
  {
  }

  /** The owned version records, in scan order. */
  ghost function OwnedRows(s: Store, userId: Uuid, tableId: Uuid): (rows: seq<TableFinder.VersionRow>)
    ensures |rows| == |OwnedVersionIds(s, userId, tableId)|
    ensures Elems(rows) == set id | id in OwnedVersionIds(s, userId, tableId) :: (id, s.versions[id])
  {
    var ids := Enumerate(OwnedVersionIds(s, userId, tableId));
    assert forall i :: 0 <= i < |ids| ==> ids[i] in Elems(ids);
    var rows := TableFinder.VersionRows(s, ids);
    TableFinder.VersionRowsElems(s, ids);
    rows
  }

  /** `findCurrentVersionByTableId`: the owned version record that comes
      first when sorted by order number, descending; nothing when there is
      none.  Among versions sharing the top order number the store's scan
      order decides. */
  ghost function FindCurrent(s: Store, userId: Uuid, tableId: Uuid): (r: Option<VersionView>)
    ensures r.None? <==> OwnedVersionIds(s, userId, tableId) == {}
    ensures r.Some? ==> exists id :: id in OwnedVersionIds(s, userId, tableId) && r.value == VersionViewOf(s, id)
    ensures r.Some? ==> forall id :: id in OwnedVersionIds(s, userId, tableId) ==> s.versions[id].orderNumber <= r.value.orderNumber
  {
    var rows := OwnedRows(s, userId, tableId);
    if rows == [] then None
    else
      var top := rows[MaxByIndex(rows, (row: TableFinder.VersionRow) => row.1.orderNumber)];
      assert top in Elems(rows);
      forall id | id in OwnedVersionIds(s, userId, tableId)
        ensures s.versions[id].orderNumber <= top.1.orderNumber
      {
        assert (id, s.versions[id]) in Elems(rows);
      }
      Some(VersionViewOf(s, top.0))
  }

  /** `findCurrentVersionByTableIdOrThrow`: no current version is
      `NoEntityFound`. */
  ghost function FindCurrentOrThrow(s: Store, userId: Uuid, tableId: Uuid): (r: Result<VersionView>)
    ensures r.Err? <==> FindCurrent(s, userId, tableId).None?
    ensures r.Err? ==> r.failure == NoEntityFound
    ensures r.Ok? ==> FindCurrent(s, userId, tableId) == Some(r.value)
  {
    match FindCurrent(s, userId, tableId)
    case None => Err(NoEntityFound)
    case Some(v) => Ok(v)
  }

  /** There is no current version exactly when nothing is listed. */
  lemma NoCurrentIffNoneListed(s: Store, userId: Uuid, tableId: Uuid)
    ensures FindCurrent(s, userId, tableId).None? <==> FindAllVersions(s, userId, tableId) == {}
  {
    var owned := OwnedVersionIds(s, userId, tableId);
    if owned != {} {
      var id :| id in owned;
      assert VersionViewOf(s, id) in FindAllVersions(s, userId, tableId);
    }
  }

  /** The current version is one of the listed versions. */
  lemma CurrentIsListed(s: Store, userId: Uuid, tableId: Uuid)
    requires FindCurrent(s, userId, tableId).Some?
    ensures FindCurrent(s, userId, tableId).value in FindAllVersions(s, userId, tableId)
  {
    var c := FindCurrent(s, userId, tableId).value;
    var id :| id in OwnedVersionIds(s, userId, tableId) && c == VersionViewOf(s, id);
    OwnedIsListed(s, userId, tableId, id);
  }

  /** Every owned version is listed. */
  lemma OwnedIsListed(s: Store, userId: Uuid, tableId: Uuid, id: Uuid)
    requires id in OwnedVersionIds(s, userId, tableId)
    ensures VersionViewOf(s, id) in FindAllVersions(s, userId, tableId)
  {
  }

  /** No listed version has a larger order number than the current one. */
  lemma CurrentIsGreatest(s: Store, userId: Uuid, tableId: Uuid, v: VersionView)
    requires FindCurrent(s, userId, tableId).Some? && v in FindAllVersions(s, userId, tableId)
    ensures v.orderNumber <= FindCurrent(s, userId, tableId).value.orderNumber
  {
    var other :| other in OwnedVersionIds(s, userId, tableId) && v == VersionViewOf(s, other);
  }

  /** After `persist`, the owner sees exactly the aggregate's versions. */
  lemma VersionsAfterPersist(s: Store, t: TableModel.Table, id: Uuid)
    ensures (exists v :: v in FindAllVersions(TableRepository.Persist(s, t), t.userId, t.id) && v.id == UuidText(id)) <==>
      id in TableRepository.VersionIds(t.versions)
  {
    var p := TableRepository.Persist(s, t);
    TableRepository.PersistWritesTable(s, t);
    TableRepository.PersistVersionsExact(s, t, id);
    FindAllVersionsExact(p, t.userId, t.id, id);
  }
}
