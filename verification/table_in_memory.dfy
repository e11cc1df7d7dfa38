/** `TableInMemoryRepository`: the reference repository of tables, a map
    from table id to the aggregate itself. */
module TableInMemory {
  import opened Results
  import opened Ids
  import opened Collections
  import opened TableModel

  type TableMap = map<Uuid, Table>

  /** `persist`: the table replaces whatever was stored under its id and is
      handed back unchanged. */
  function Persist(m: TableMap, t: Table): (r: (TableMap, Table))
    ensures r.1 == t
    ensures t.id in r.0 && r.0[t.id] == t
    ensures forall id :: id != t.id ==> (id in r.0 <==> id in m)
    ensures forall id :: id != t.id && id in m ==> r.0[id] == m[id]
  {
    (m[t.id := t], t)
  }

  /** `findById`: the stored table, but only for its owner. */
  function FindById(m: TableMap, userId: Uuid, tableId: Uuid): (r: Option<Table>)
    ensures r.Some? <==> tableId in m && m[tableId].userId == userId
    ensures r.Some? ==> r.value == m[tableId]
  {
    if tableId in m && m[tableId].userId == userId then Some(m[tableId]) else None
  }

  /** `findByIdThrow`: nothing found is `NoSuchElement`. */
  function FindByIdThrow(m: TableMap, userId: Uuid, tableId: Uuid): (r: Result<Table>)
    ensures r.Err? <==> FindById(m, userId, tableId).None?
    ensures r.Err? ==> r.failure == NoSuchElement
    ensures r.Ok? ==> FindById(m, userId, tableId) == Some(r.value)
  {
    match FindById(m, userId, tableId)
    case None => Err(NoSuchElement)
    case Some(t) => Ok(t)
  }

  /** `findAll`: the stored tables in the map's iteration order, one per
      stored id. */
  ghost function FindAll(m: TableMap): (r: seq<Table>)
    ensures |r| == |m|
  {
    var ids := Enumerate(m.Keys);
    assert |m.Keys| == |m|;
    assert forall i :: 0 <= i < |ids| ==> ids[i] in Elems(ids);
    ValuesAt(m, ids)
  }

  /** `findAll` lists every stored table and nothing else. */
  lemma FindAllExact(m: TableMap)
    ensures Elems(FindAll(m)) == m.Values
  {
    ValuesAtAllKeys(m, Enumerate(m.Keys));
  }

  /** The owner finds a table just persisted; anyone else does not. */
  lemma FindAfterPersist(m: TableMap, t: Table, userId: Uuid)
    ensures FindById(Persist(m, t).0, userId, t.id) == (if userId == t.userId then Some(t) else None)
    ensures FindByIdThrow(Persist(m, t).0, t.userId, t.id) == Ok(t)
  {
  }

  /** Persisting the same table twice stores what persisting it once does. */
  lemma PersistIdempotent(m: TableMap, t: Table)
    ensures Persist(Persist(m, t).0, t) == Persist(m, t)
  {
    assert m[t.id := t][t.id := t] == m[t.id := t];
  }

  /** `findAll` lists one entry per persisted id: persisting a new id adds
      one, persisting a known id again adds none. */
  lemma FindAllCountsIds(m: TableMap, t: Table)
    ensures |FindAll(Persist(m, t).0)| == if t.id in m then |FindAll(m)| else |FindAll(m)| + 1
  {
    UpdateSize(m, t.id, t);
  }
}
