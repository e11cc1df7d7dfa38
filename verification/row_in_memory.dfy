/** `RowInMemoryRepository`: the reference repository of rows, a map from
    row id to the whole row. */
module RowInMemory {
  import opened Results
  import opened Ids
  import opened Collections
  import opened RowModel

  type RowMap = map<Uuid, Row>

  /** Every row is stored under its own id. */
  predicate Keyed(m: RowMap) {
    forall id :: id in m ==> m[id].id == id
  }

  /** `save`: the whole row replaces whatever was stored under its id (its
      earlier cells included) and is handed back unchanged. */
  function Save(m: RowMap, row: Row): (r: (RowMap, Row))
    ensures r.1 == row
    ensures row.id in r.0 && r.0[row.id] == row
    ensures forall id :: id != row.id ==> (id in r.0 <==> id in m)
    ensures forall id :: id != row.id && id in m ==> r.0[id] == m[id]
    ensures Keyed(m) ==> Keyed(r.0)
  {
    (m[row.id := row], row)
  }

  /** The first of `rows` with id `id`. */
  function FirstWithId(rows: seq<Row>, id: Uuid): (r: Option<Row>)
    ensures r.Some? <==> exists i :: 0 <= i < |rows| && rows[i].id == id
    ensures r.Some? ==> r.value.id == id && r.value in rows
  {
    if rows == [] then None
    else if rows[0].id == id then Some(rows[0])
    else
      var rest := FirstWithId(rows[1..], id);
      assert forall i :: 1 <= i < |rows| ==> rows[i] == rows[1..][i - 1];
      rest
  }

  /** `findById`: a scan of the stored rows, in the map's iteration order,
      for the first whose id matches. */
  ghost function FindById(m: RowMap, id: Uuid): (r: Option<Row>)
    ensures r.Some? <==> exists row :: row in m.Values && row.id == id
    ensures r.Some? ==> r.value in m.Values && r.value.id == id
  {
    var rows := Enumerate(m.Values);
    assert forall x :: x in rows <==> x in m.Values by {
      assert Elems(rows) == m.Values;
    }
    FirstWithId(rows, id)
  }

  /** The scan agrees with a lookup under the key, as long as each row is
      stored under its own id. */
  lemma FindByIdIsLookup(m: RowMap, id: Uuid)
    requires Keyed(m)
    ensures FindById(m, id) == if id in m then Some(m[id]) else None
  {
    var rows := Enumerate(m.Values);
    var r := FirstWithId(rows, id);
    assert forall x :: x in rows <==> x in m.Values by {
      assert Elems(rows) == m.Values;
    }
    if id in m {
      assert m[id] in rows;
      var i :| 0 <= i < |rows| && rows[i] == m[id];
      assert r.Some?;
    }
  }

  /** `findByIdOrThrow`: nothing found is `RowNotFound`. */
  ghost function FindByIdOrThrow(m: RowMap, id: Uuid): (r: Result<Row>)
    ensures r.Err? <==> FindById(m, id).None?
    ensures r.Err? ==> r.failure == RowNotFound
    ensures r.Ok? ==> FindById(m, id) == Some(r.value)
  {
    match FindById(m, id)
    case None => Err(RowNotFound)
    case Some(row) => Ok(row)
  }

  /** `findAll`: the stored rows in the map's iteration order, one per
      stored id. */
  ghost function FindAll(m: RowMap): (r: seq<Row>)
    ensures |r| == |m|
  {
    var ids := Enumerate(m.Keys);
    assert |m.Keys| == |m|;
    assert forall i :: 0 <= i < |ids| ==> ids[i] in Elems(ids);
    ValuesAt(m, ids)
  }

  /** `findAll` lists every stored row and nothing else. */
  lemma FindAllExact(m: RowMap)
    ensures Elems(FindAll(m)) == m.Values
  {
    ValuesAtAllKeys(m, Enumerate(m.Keys));
  }

  /** `findAll` lists one entry per saved id: saving a new id adds one,
      saving a known id again adds none. */
  lemma FindAllCountsIds(m: RowMap, row: Row)
    ensures |FindAll(Save(m, row).0)| == if row.id in m then |FindAll(m)| else |FindAll(m)| + 1
  {
    UpdateSize(m, row.id, row);
  }

  /** A saved row is found whole: the cells of any earlier save under the
      same id are gone. */
  lemma FindAfterSave(m: RowMap, row: Row)
    requires Keyed(m)
    ensures FindById(Save(m, row).0, row.id) == Some(row)
    ensures FindByIdOrThrow(Save(m, row).0, row.id) == Ok(row)
  {
    FindByIdIsLookup(Save(m, row).0, row.id);
  }

  /** An id never saved is `RowNotFound`. */
  lemma AbsentRowIsNotFound(m: RowMap, id: Uuid)
    requires Keyed(m) && id !in m
    ensures FindByIdOrThrow(m, id) == Err(RowNotFound)
  {
    FindByIdIsLookup(m, id);
  }

  /** Saving the same row twice stores what saving it once does. */
  lemma SaveIdempotent(m: RowMap, row: Row)
    ensures Save(Save(m, row).0, row) == Save(m, row)
  {
    assert m[row.id := row][row.id := row] == m[row.id := row];
  }
}
