/** `ExposedTableRepository.findById` / `findByIdThrow`: rebuild a table
    aggregate from the store, owner-checked. */
module TableFinder {
  import opened Results
  import opened Ids
  import opened Collections
  import opened ColumnModel
  import opened TableModel
  import opened Storage
  import opened TableRepository

  /** A `table_columns` record read back as a domain column; its type goes
      through `fromDbType`, which may fail. */
  function ColumnOf(k: ColumnKey, rec: ColumnRecord): (r: Result<Column>)
    ensures r.Ok? <==> FromDbType(rec.typeName, rec.stringFormat).Ok?
    ensures r.Ok? ==> r.value.id == rec.id && r.value.definition.name == k.1
    ensures r.Err? ==> DecodeFailure(r.failure)
  {
    var columnType :- FromDbType(rec.typeName, rec.stringFormat);
    Ok(Column(rec.id, Definition(k.1, rec.description, columnType, rec.optional)))
  }

  /** Reading back the record `persist` wrote for a column gives that column. */
  lemma ColumnOfRecord(vid: Uuid, c: Column)
    ensures ColumnOf((vid, c.definition.name), RecordOf(c)) == Ok(c)
  {
    TypeCodecRoundTrip(c.definition.columnType);
  }

  /** A record read back together with its key. */
  function ReadColumn(e: (ColumnKey, ColumnRecord)): Result<Column> {
    ColumnOf(e.0, e.1)
  }

  /** The stored column keys of version `vid`. */
  function ColumnKeysOf(s: Store, vid: Uuid): set<ColumnKey> {
    set k | k in s.columns && k.0 == vid
  }

  /** The selected column records, in the given scan order. */
  function ColumnRows(s: Store, keys: seq<ColumnKey>): (rows: seq<(ColumnKey, ColumnRecord)>)
    requires forall i :: 0 <= i < |keys| ==> keys[i] in s.columns
    ensures |rows| == |keys|
    ensures forall i :: 0 <= i < |keys| ==> rows[i] == (keys[i], s.columns[keys[i]])
  {
    seq(|keys|, i requires 0 <= i < |keys| => (keys[i], s.columns[keys[i]]))
  }

  /** `fetchColumns`: every column record of version `vid`, in scan order,
      read back; the first one whose type does not decode aborts. */
  ghost function FetchColumns(s: Store, vid: Uuid): (r: Result<seq<Column>>)
    ensures r.Err? ==> DecodeFailure(r.failure)
  {
    var keys := Enumerate(ColumnKeysOf(s, vid));
    assert forall i :: 0 <= i < |keys| ==> keys[i] in Elems(keys);
    MapResults(ColumnRows(s, keys), ReadColumn)
  }

  /** The stored version ids of table `tid`. */
  function VersionIdsOf(s: Store, tid: Uuid): set<Uuid> {
    set id | id in s.versions && s.versions[id].tableId == tid
  }

  /** A selected `table_versions` record with its id. */
  type VersionRow = (Uuid, VersionRecord)

  /** One selected version record read back, with its fetched columns. */
  ghost function ReadVersion(s: Store, row: VersionRow): (r: Result<Version>)
    ensures r.Ok? ==> r.value.id == row.0 && r.value.orderNumber == row.1.orderNumber
    ensures r.Err? ==> DecodeFailure(r.failure)
  {
    var columns :- FetchColumns(s, row.0);
    Ok(Version(row.0, columns, row.1.orderNumber))
  }

  /** The selected version records, in the given scan order. */
  function VersionRows(s: Store, ids: seq<Uuid>): (rows: seq<VersionRow>)
    requires forall i :: 0 <= i < |ids| ==> ids[i] in s.versions
    ensures |rows| == |ids|
    ensures forall i :: 0 <= i < |ids| ==> rows[i] == (ids[i], s.versions[ids[i]])
  {
    seq(|ids|, i requires 0 <= i < |ids| => (ids[i], s.versions[ids[i]]))
  }

  /** The selected version records are those of the listed ids. */
  lemma VersionRowsElems(s: Store, ids: seq<Uuid>)
    requires forall i :: 0 <= i < |ids| ==> ids[i] in s.versions
    ensures Elems(VersionRows(s, ids)) == set id | id in Elems(ids) :: (id, s.versions[id])
  {
    var rows := VersionRows(s, ids);
    forall id | id in Elems(ids) ensures (id, s.versions[id]) in Elems(rows) {
      var i :| 0 <= i < |ids| && ids[i] == id;
      assert rows[i] == (id, s.versions[id]);
    }
    forall row | row in Elems(rows) ensures row.0 in Elems(ids) && row == (row.0, s.versions[row.0]) {
      var i :| 0 <= i < |rows| && rows[i] == row;
      assert ids[i] in Elems(ids);
    }
  }

  /** Reading the version records of `ids`, in that order. */
  ghost function ReadVersions(s: Store, ids: seq<Uuid>): (r: Result<seq<Version>>)
    requires forall i :: 0 <= i < |ids| ==> ids[i] in s.versions
    ensures r.Err? ==> DecodeFailure(r.failure)
  {
    MapResults(VersionRows(s, ids), (row: VersionRow) => ReadVersion(s, row))
  }

  /** A successful read of a list of versions read each of them. */
  lemma ReadVersionsAllOk(s: Store, ids: seq<Uuid>, id: Uuid)
    requires forall i :: 0 <= i < |ids| ==> ids[i] in s.versions
    requires ReadVersions(s, ids).Ok? && id in Elems(ids)
    ensures id in s.versions && ReadVersion(s, (id, s.versions[id])).Ok?
  {
    var rows := VersionRows(s, ids);
    var f := (row: VersionRow) => ReadVersion(s, row);
    assert MapResults(rows, f).Ok?;
    var i :| 0 <= i < |ids| && ids[i] == id;
    assert f(rows[i]).Ok?;
  }

  /** The read of a list of versions succeeds when each of them reads back. */
  lemma ReadVersionsOkWhenAllOk(s: Store, ids: seq<Uuid>)
    requires forall i :: 0 <= i < |ids| ==> ids[i] in s.versions
    requires forall id :: id in Elems(ids) ==> ReadVersion(s, (id, s.versions[id])).Ok?
    ensures ReadVersions(s, ids).Ok?
  {
    var rows := VersionRows(s, ids);
    var f := (row: VersionRow) => ReadVersion(s, row);
    forall i | 0 <= i < |rows| ensures f(rows[i]).Ok? {
      assert ids[i] in Elems(ids);
    }
    assert MapResults(rows, f).Ok?;
  }

  /** The read of a list of versions succeeds iff each one reads back. */
  lemma ReadVersionsOk(s: Store, ids: seq<Uuid>)
    requires forall i :: 0 <= i < |ids| ==> ids[i] in s.versions
    ensures ReadVersions(s, ids).Ok? <==> forall id :: id in Elems(ids) ==> ReadVersion(s, (id, s.versions[id])).Ok?
  {
    if ReadVersions(s, ids).Ok? {
      forall id | id in Elems(ids) ensures ReadVersion(s, (id, s.versions[id])).Ok? {
        ReadVersionsAllOk(s, ids, id);
      }
    } else if forall id :: id in Elems(ids) ==> ReadVersion(s, (id, s.versions[id])).Ok? {
      ReadVersionsOkWhenAllOk(s, ids);
    }
  }

  /** A successful read of a list of versions yields each of them in place. */
  lemma ReadVersionsValues(s: Store, ids: seq<Uuid>)
    requires forall i :: 0 <= i < |ids| ==> ids[i] in s.versions
    requires ReadVersions(s, ids).Ok?
    ensures var r := ReadVersions(s, ids);
      |r.value| == |ids| &&
      forall j :: 0 <= j < |ids| ==> r.value[j].id == ids[j] && ReadVersion(s, (ids[j], s.versions[ids[j]])) == Ok(r.value[j])
  {
    var rows := VersionRows(s, ids);
    var f := (row: VersionRow) => ReadVersion(s, row);
    var r := MapResults(rows, f);
    assert r == ReadVersions(s, ids);
    forall j | 0 <= j < |ids|
      ensures ReadVersion(s, (ids[j], s.versions[ids[j]])) == Ok(r.value[j])
    {
      assert f(rows[j]) == Ok(r.value[j]);
    }
  }

  /** The versions of table `tableId`, read back in scan order. */
  ghost function LoadVersions(s: Store, tableId: Uuid): (r: Result<seq<Version>>)
    ensures r.Err? ==> DecodeFailure(r.failure)
  {
    var ids := Enumerate(VersionIdsOf(s, tableId));
    assert forall i :: 0 <= i < |ids| ==> ids[i] in Elems(ids);
    ReadVersions(s, ids)
  }

  /** The read of a table's versions succeeds iff every stored version of
      the table reads back. */
  lemma LoadVersionsOk(s: Store, tableId: Uuid)
    ensures LoadVersions(s, tableId).Ok? <==>
      forall id :: id in VersionIdsOf(s, tableId) ==> ReadVersion(s, (id, s.versions[id])).Ok?
  {
    var ids := Enumerate(VersionIdsOf(s, tableId));
    assert forall i :: 0 <= i < |ids| ==> ids[i] in Elems(ids);
    ReadVersionsOk(s, ids);
  }

  /** A successful read of a table's versions holds each stored version of
      the table exactly once, each as it reads back on its own. */
  lemma LoadVersionsValues(s: Store, tableId: Uuid)
    requires LoadVersions(s, tableId).Ok?
    ensures var r := LoadVersions(s, tableId);
      VersionIds(r.value) == VersionIdsOf(s, tableId) && |r.value| == |VersionIdsOf(s, tableId)|
    ensures var r := LoadVersions(s, tableId);
      forall j :: 0 <= j < |r.value| ==>
        r.value[j].id in VersionIdsOf(s, tableId) && ReadVersion(s, (r.value[j].id, s.versions[r.value[j].id])) == Ok(r.value[j])
  {
    var ids := Enumerate(VersionIdsOf(s, tableId));
    assert forall i :: 0 <= i < |ids| ==> ids[i] in Elems(ids);
    var r := ReadVersions(s, ids);
    assert r == LoadVersions(s, tableId);
    ReadVersionsValues(s, ids);
    LoadedIds(r.value, ids, VersionIdsOf(s, tableId));
  }

  /** A list of versions whose ids are, in place, a listing of `ids`
      carries exactly those ids. */
  lemma LoadedIds(vs: seq<Version>, ids: seq<Uuid>, all: set<Uuid>)
    requires |vs| == |ids| && forall j :: 0 <= j < |ids| ==> vs[j].id == ids[j]
    requires Elems(ids) == all && |ids| == |all|
    ensures VersionIds(vs) == all && |vs| == |all|
    ensures forall j :: 0 <= j < |vs| ==> vs[j].id in all
  {
    forall j | 0 <= j < |vs| ensures vs[j].id in all {
      assert ids[j] in Elems(ids);
    }
    forall id | id in all ensures id in VersionIds(vs) {
      var i :| 0 <= i < |ids| && ids[i] == id;
      assert vs[i].id == id;
    }
  }

  /** `findById`: nothing unless a table record matches both the id and the
      owner; otherwise the table with every stored version of it. */
  ghost function FindById(s: Store, userId: Uuid, tableId: Uuid): (r: Result<Option<Table>>)
    ensures !(tableId in s.tables && s.tables[tableId].userId == userId) ==> r == Ok(None)
    ensures r.Ok? && r.value.Some? ==>
      tableId in s.tables && s.tables[tableId].userId == userId &&
      var t := r.value.value;
      t.id == tableId && t.userId == userId && t.name == s.tables[tableId].name &&
      VersionIds(t.versions) == VersionIdsOf(s, tableId)
    ensures tableId in s.tables && s.tables[tableId].userId == userId && LoadVersions(s, tableId).Ok? ==>
      r.Ok? && r.value.Some?
    ensures r.Err? ==> DecodeFailure(r.failure)
  {
    if tableId in s.tables && s.tables[tableId].userId == userId then
      var versions :- LoadVersions(s, tableId);
      LoadVersionsValues(s, tableId);
      Ok(Some(Table(tableId, userId, s.tables[tableId].name, versions)))
    else Ok(None)
  }

  /** `findByIdThrow`: an absent or foreign table is `NoEntityFound`. */
  ghost function FindByIdThrow(s: Store, userId: Uuid, tableId: Uuid): (r: Result<Table>)
    ensures var f := FindById(s, userId, tableId);
      && (r == Err(NoEntityFound) <==> f == Ok(None))
      && (r.Ok? <==> f.Ok? && f.value.Some?)
      && (r.Ok? ==> f == Ok(Some(r.value)))
      && (f.Err? ==> r == Err(f.failure))
  {
    match FindById(s, userId, tableId)
    case Err(f) => Err(f)
    case Ok(None) => Err(NoEntityFound)
    case Ok(Some(t)) => Ok(t)
  }

  // ---------------------------------------------------------------------
  // Round trip

  /** The aggregate's column names are unique per version, and the versions
      have distinct ids. */
  predicate WellFormed(t: Table) {
    UniqueVersionIds(t.versions) &&
    forall i :: 0 <= i < |t.versions| ==> UniqueNames(t.versions[i])
  }

  /** What a store holds of one version: its record with its order number,
      and exactly its columns, each under its name with its record. */
  ghost predicate VersionHeld(p: Store, v: Version) {
    v.id in p.versions && p.versions[v.id].orderNumber == v.orderNumber &&
    ColumnKeysOf(p, v.id) == (set c | c in v.columns :: (v.id, c.definition.name)) &&
    forall c :: c in v.columns ==> (v.id, c.definition.name) in p.columns && p.columns[(v.id, c.definition.name)] == RecordOf(c)
  }

  /** What a store holds of an aggregate: its table record, exactly its
      versions, and each of them. */
  ghost predicate Holds(p: Store, t: Table) {
    t.id in p.tables && p.tables[t.id] == TableRecord(t.userId, t.name) &&
    VersionIdsOf(p, t.id) == VersionIds(t.versions) &&
    forall i :: 0 <= i < |t.versions| ==> VersionHeld(p, t.versions[i])
  }

  /** A version's stored column keys are its column names when the store
      holds exactly those names under its id. */
  lemma KeysOfNames(p: Store, v: Version)
    requires forall name :: (v.id, name) in p.columns <==> exists c :: c in v.columns && c.definition.name == name
    ensures ColumnKeysOf(p, v.id) == set c | c in v.columns :: (v.id, c.definition.name)
  {
    var names := set c | c in v.columns :: (v.id, c.definition.name);
    forall k | k in ColumnKeysOf(p, v.id) ensures k in names {
      assert (v.id, k.1) == k;
      var c :| c in v.columns && c.definition.name == k.1;
    }
    forall k | k in names ensures k in ColumnKeysOf(p, v.id) {
      var c :| c in v.columns && k == (v.id, c.definition.name);
      assert (v.id, c.definition.name) in p.columns;
    }
  }

  /** After `persist`, the stored column keys of an aggregate version are its
      column names. */
  lemma ColumnKeysAfterPersist(s: Store, t: Table, i: nat)
    requires WellFormed(t) && i < |t.versions|
    ensures var v := t.versions[i];
      ColumnKeysOf(Persist(s, t), v.id) == set c | c in v.columns :: (v.id, c.definition.name)
  {
    var v := t.versions[i];
    var p := Persist(s, t);
    forall name
      ensures (v.id, name) in p.columns <==> exists c :: c in v.columns && c.definition.name == name
    {
      PersistColumnsExact(s, t, i, name);
    }
    KeysOfNames(p, v);
  }

  /** After `persist`, each column of an aggregate version is stored under
      its name with its record. */
  lemma ColumnRecordsAfterPersist(s: Store, t: Table, i: nat)
    requires WellFormed(t) && i < |t.versions|
    ensures var v := t.versions[i];
      forall c :: c in v.columns ==>
        (v.id, c.definition.name) in Persist(s, t).columns && Persist(s, t).columns[(v.id, c.definition.name)] == RecordOf(c)
  {
    var v := t.versions[i];
    forall c | c in v.columns
      ensures (v.id, c.definition.name) in Persist(s, t).columns && Persist(s, t).columns[(v.id, c.definition.name)] == RecordOf(c)
    {
      PersistColumnsExact(s, t, i, c.definition.name);
    }
  }

  /** A persisted well-formed aggregate is held by the store. */
  lemma PersistHolds(s: Store, t: Table)
    requires WellFormed(t)
    ensures Holds(Persist(s, t), t)
  {
    var p := Persist(s, t);
    PersistWritesTable(s, t);
    forall id ensures id in VersionIdsOf(p, t.id) <==> id in VersionIds(t.versions) {
      PersistVersionsExact(s, t, id);
    }
    forall i | 0 <= i < |t.versions| ensures VersionHeld(p, t.versions[i]) {
      PersistWritesVersions(s, t, i);
      ColumnKeysAfterPersist(s, t, i);
      ColumnRecordsAfterPersist(s, t, i);
    }
  }

  /** Every stored column key of a held version reads back as one of its
      columns. */
  lemma ReadHeldKey(p: Store, v: Version, k: ColumnKey)
    requires VersionHeld(p, v) && k in ColumnKeysOf(p, v.id)
    ensures k in p.columns
    ensures exists c :: c in v.columns && ReadColumn((k, p.columns[k])) == Ok(c)
  {
    var c :| c in v.columns && k == (v.id, c.definition.name);
    ColumnOfRecord(v.id, c);
  }

  /** Every column of a held version is read back from its key. */
  lemma ReadHeldColumn(p: Store, v: Version, c: Column)
    requires VersionHeld(p, v) && c in v.columns
    ensures (v.id, c.definition.name) in ColumnKeysOf(p, v.id)
    ensures ReadColumn(((v.id, c.definition.name), p.columns[(v.id, c.definition.name)])) == Ok(c)
  {
    ColumnOfRecord(v.id, c);
  }

  /** Reading the held version's records in any order that lists each key
      once gives back its columns. */
  lemma ReadHeldRows(p: Store, v: Version, keys: seq<ColumnKey>)
    requires VersionHeld(p, v) && Elems(keys) == ColumnKeysOf(p, v.id)
    requires forall i :: 0 <= i < |keys| ==> keys[i] in p.columns
    ensures var r := MapResults(ColumnRows(p, keys), ReadColumn);
      r.Ok? && Elems(r.value) == Elems(v.columns)
  {
    var rows := ColumnRows(p, keys);
    forall j | 0 <= j < |keys|
      ensures exists c :: c in v.columns && ReadColumn(rows[j]) == Ok(c)
    {
      assert keys[j] in Elems(keys);
      ReadHeldKey(p, v, keys[j]);
    }
    var r := MapResults(rows, ReadColumn);
    forall c | c in v.columns ensures c in Elems(r.value) {
      ReadHeldColumn(p, v, c);
      var j :| 0 <= j < |keys| && keys[j] == (v.id, c.definition.name);
      assert r.value[j] == c;
    }
    forall x | x in Elems(r.value) ensures x in v.columns {
      var j :| 0 <= j < |r.value| && r.value[j] == x;
      var c :| c in v.columns && ReadColumn(rows[j]) == Ok(c);
    }
  }

  /** The columns read back for a held version are its columns, in some
      order. */
  lemma FetchColumnsHeld(p: Store, v: Version)
    requires VersionHeld(p, v)
    ensures var r := FetchColumns(p, v.id);
      r.Ok? && Elems(r.value) == Elems(v.columns)
  {
    var keys := Enumerate(ColumnKeysOf(p, v.id));
    assert forall j :: 0 <= j < |keys| ==> keys[j] in Elems(keys);
    ReadHeldRows(p, v, keys);
  }

  /** A version read back agrees with an aggregate version: same id, same
      order number, same columns. */
  predicate SameVersion(u: Version, v: Version) {
    u.id == v.id && u.orderNumber == v.orderNumber && Elems(u.columns) == Elems(v.columns)
  }

  /** Each version of a held aggregate reads back as itself. */
  lemma ReadHeldVersion(p: Store, t: Table, id: Uuid)
    requires Holds(p, t) && id in VersionIdsOf(p, t.id)
    ensures var r := ReadVersion(p, (id, p.versions[id]));
      r.Ok? && exists i :: 0 <= i < |t.versions| && SameVersion(r.value, t.versions[i])
  {
    var i :| 0 <= i < |t.versions| && t.versions[i].id == id;
    assert VersionHeld(p, t.versions[i]);
    FetchColumnsHeld(p, t.versions[i]);
    assert SameVersion(ReadVersion(p, (id, p.versions[id])).value, t.versions[i]);
  }

  /** The versions of a held aggregate read back as its versions. */
  lemma LoadHeld(p: Store, t: Table)
    requires Holds(p, t)
    ensures var r := LoadVersions(p, t.id);
      r.Ok? && VersionIds(r.value) == VersionIds(t.versions) && |r.value| == |VersionIds(t.versions)| &&
      forall j :: 0 <= j < |r.value| ==> exists i :: 0 <= i < |t.versions| && SameVersion(r.value[j], t.versions[i])
  {
    forall id | id in VersionIdsOf(p, t.id) ensures ReadVersion(p, (id, p.versions[id])).Ok? {
      ReadHeldVersion(p, t, id);
    }
    LoadVersionsOk(p, t.id);
    LoadVersionsValues(p, t.id);
    var r := LoadVersions(p, t.id);
    forall j | 0 <= j < |r.value|
      ensures exists i :: 0 <= i < |t.versions| && SameVersion(r.value[j], t.versions[i])
    {
      ReadHeldVersion(p, t, r.value[j].id);
    }
  }

  /** Reading back a held aggregate gives the same table: id, owner, name,
      and the same versions, each with its order number and its columns (ids
      included), in the store's scan order. */
  lemma FindHeld(p: Store, t: Table)
    requires Holds(p, t) && UniqueVersionIds(t.versions)
    ensures var r := FindById(p, t.userId, t.id);
      r.Ok? && r.value.Some? &&
      var u := r.value.value;
      u.id == t.id && u.userId == t.userId && u.name == t.name &&
      VersionIds(u.versions) == VersionIds(t.versions) && |u.versions| == |t.versions| &&
      forall j :: 0 <= j < |u.versions| ==> exists i :: 0 <= i < |t.versions| && SameVersion(u.versions[j], t.versions[i])
  {
    LoadHeld(p, t);
    UniqueIdsCount(t.versions);
  }

  /** Reading back a persisted aggregate gives the same table. */
  lemma FindAfterPersist(s: Store, t: Table)
    requires WellFormed(t)
    ensures var r := FindById(Persist(s, t), t.userId, t.id);
      r.Ok? && r.value.Some? &&
      var u := r.value.value;
      u.id == t.id && u.userId == t.userId && u.name == t.name &&
      VersionIds(u.versions) == VersionIds(t.versions) && |u.versions| == |t.versions| &&
      forall j :: 0 <= j < |u.versions| ==> exists i :: 0 <= i < |t.versions| && SameVersion(u.versions[j], t.versions[i])
  {
    PersistHolds(s, t);
    FindHeld(Persist(s, t), t);
  }

  /** Distinct ids: as many ids as versions. */
  lemma {:induction false} UniqueIdsCount(vs: seq<Version>)
    requires UniqueVersionIds(vs)
    ensures |VersionIds(vs)| == |vs|
  {
    if vs != [] {
      var n := |vs| - 1;
      UniqueIdsCount(vs[..n]);
      VersionIdsSnoc(vs[..n], vs[n]);
      assert vs == vs[..n] + [vs[n]];
      assert vs[n].id !in VersionIds(vs[..n]);
    }
  }

  /** An owner other than the table's sees nothing, and the throwing finder
      reports `NoEntityFound`. */
  lemma ForeignTableIsNotFound(s: Store, t: Table, userId: Uuid)
    requires userId != t.userId
    ensures FindById(Persist(s, t), userId, t.id) == Ok(None)
    ensures FindByIdThrow(Persist(s, t), userId, t.id) == Err(NoEntityFound)
  {
    PersistWritesTable(s, t);
  }
}
