/** `ExposedTableRepository`: writes a table aggregate into the store by
    reconciliation and reads it back. */
module TableRepository {
  import opened Results
  import opened Ids
  import opened Collections
  import opened ColumnModel
  import opened TableModel
  import opened Storage
  import opened Reconciliation

  // ---------------------------------------------------------------------
  // The column type codec

  /** `toTypeName`. */
  function TypeName(t: ColumnType): string {
    match t
    case StringType(_) => "STRING"
    case NumberType => "NUMBER"
  }

  /** `toStringFormat`. */
  function StoredFormat(t: ColumnType): Option<string> {
    match t
    case StringType(None) => None
    case StringType(Some(f)) => Some(FormatName(f))
    case NumberType => None
  }

  /** `fromDbType`: a `NUMBER` ignores whatever format is stored; any type
      name other than `STRING`/`NUMBER`, or a format that is not a
      `StringFormat` name, is an error. */
  function FromDbType(typeName: string, format: Option<string>): (r: Result<ColumnType>)
    ensures typeName != "STRING" && typeName != "NUMBER" ==> r == Err(UnknownColumnType(typeName))
    ensures typeName == "NUMBER" ==> r == Ok(NumberType)
    ensures typeName == "STRING" && format.None? ==> r == Ok(StringType(None))
    ensures typeName == "STRING" && format.Some? ==> (r.Ok? <==> format.value == "DATE")
    ensures typeName == "STRING" && format.Some? && r.Err? ==> r.failure == UnknownStringFormat(format.value)
    ensures r.Ok? ==> TypeName(r.value) == typeName
  {
    match typeName
    case "STRING" =>
      (match format
       case None => Ok(StringType(None))
       case Some(name) =>
         var f :- FormatValueOf(name);
         Ok(StringType(Some(f))))
    case "NUMBER" => Ok(NumberType)
    case _ => Err(UnknownColumnType(typeName))
  }

  /** Every column type survives the trip through the store. */
  lemma TypeCodecRoundTrip(t: ColumnType)
    ensures FromDbType(TypeName(t), StoredFormat(t)) == Ok(t)
  {
    match t
    case StringType(Some(f)) => FormatValueOfName(f);
    case _ =>
  }

  // ---------------------------------------------------------------------
  // persist

  /** The `table_columns` record written for a column. */
  function RecordOf(c: Column): ColumnRecord {
    ColumnRecord(c.id, c.definition.description, TypeName(c.definition.columnType),
                 StoredFormat(c.definition.columnType), c.definition.optional)
  }

  /** The column upserts of one version, in column order. */
  function ColumnEntries(v: Version): (e: seq<(ColumnKey, ColumnRecord)>)
    ensures |e| == |v.columns|
    ensures forall i :: 0 <= i < |e| ==> e[i] == ((v.id, v.columns[i].definition.name), RecordOf(v.columns[i]))
    ensures forall k :: k in KeysOf(e) ==> k.0 == v.id
    ensures AllInScope(InVersion(v.id), e)
  {
    seq(|v.columns|, i requires 0 <= i < |v.columns| => ((v.id, v.columns[i].definition.name), RecordOf(v.columns[i])))
  }

  /** Columns of version `vid`: the scope of its stale-column delete. */
  function InVersion(vid: Uuid): (f: (ColumnKey, ColumnRecord) -> bool)
    ensures forall k, c :: f(k, c) <==> k.0 == vid
  {
    (k: ColumnKey, c: ColumnRecord) => k.0 == vid
  }

  /** Versions of table `tid`: the scope of the stale-version delete. */
  function OfTable(tid: Uuid): (f: (Uuid, VersionRecord) -> bool)
    ensures forall id, v :: f(id, v) <==> v.tableId == tid
  {
    (id: Uuid, v: VersionRecord) => v.tableId == tid
  }

  /** Reconciling one version's columns leaves exactly its column names
      under its id, each holding that column's record when the names are
      unique, and leaves every other version's columns as they were. */
  lemma ReconciledVersionColumns(m: map<ColumnKey, ColumnRecord>, v: Version)
    ensures var r := Reconcile(m, InVersion(v.id), ColumnEntries(v));
      && (forall name :: (v.id, name) in r <==> exists c :: c in v.columns && c.definition.name == name)
      && (UniqueNames(v) ==> forall c :: c in v.columns ==> (v.id, c.definition.name) in r && r[(v.id, c.definition.name)] == RecordOf(c))
      && (forall k: ColumnKey :: k.0 != v.id ==> (k in r <==> k in m))
      && (forall k: ColumnKey :: k.0 != v.id && k in r ==> r[k] == m[k])
  {
    ReconcileExact(m, InVersion(v.id), ColumnEntries(v));
    ColumnEntryNames(v);
    if UniqueNames(v) {
      ColumnEntryRecords(v);
    }
  }

  /** A version's column upserts write exactly the keys of its column names. */
  lemma ColumnEntryNames(v: Version)
    ensures forall name :: (v.id, name) in KeysOf(ColumnEntries(v)) <==> exists c :: c in v.columns && c.definition.name == name
  {
    var e := ColumnEntries(v);
    forall name
      ensures (v.id, name) in KeysOf(e) <==> exists c :: c in v.columns && c.definition.name == name
    {
      if exists c :: c in v.columns && c.definition.name == name {
        var c :| c in v.columns && c.definition.name == name;
        var i :| 0 <= i < |v.columns| && v.columns[i] == c;
        assert e[i].0 == (v.id, name);
      }
      if (v.id, name) in KeysOf(e) {
        var i :| 0 <= i < |e| && e[i].0 == (v.id, name);
        assert v.columns[i] in v.columns;
      }
    }
  }

  /** With unique names, each column's key ends up holding its record. */
  lemma ColumnEntryRecords(v: Version)
    requires UniqueNames(v)
    ensures forall c :: c in v.columns ==> LastValue(ColumnEntries(v), (v.id, c.definition.name)) == RecordOf(c)
  {
    forall c | c in v.columns
      ensures LastValue(ColumnEntries(v), (v.id, c.definition.name)) == RecordOf(c)
    {
      ColumnEntriesExact(v, c.definition.name);
    }
  }

  /** Upsert one version record, then reconcile its columns. */
  function PersistVersion(s: Store, tid: Uuid, v: Version): (r: Store)
    ensures r.tables == s.tables && r.rows == s.rows && r.cells == s.cells
    ensures v.id in r.versions && r.versions[v.id] == VersionRecord(tid, v.orderNumber)
    ensures forall id :: id != v.id ==> (id in r.versions <==> id in s.versions)
    ensures forall id :: id != v.id && id in s.versions ==> r.versions[id] == s.versions[id]
    ensures forall name :: (v.id, name) in r.columns <==> exists c :: c in v.columns && c.definition.name == name
    ensures UniqueNames(v) ==> forall c :: c in v.columns ==> (v.id, c.definition.name) in r.columns && r.columns[(v.id, c.definition.name)] == RecordOf(c)
    ensures forall k: ColumnKey :: k.0 != v.id ==> (k in r.columns <==> k in s.columns)
    ensures forall k: ColumnKey :: k.0 != v.id && k in r.columns ==> r.columns[k] == s.columns[k]
  {
    ReconciledVersionColumns(s.columns, v);
    s.(versions := s.versions[v.id := VersionRecord(tid, v.orderNumber)],
       columns := Reconcile(s.columns, InVersion(v.id), ColumnEntries(v)))
  }

  /** `table.versions.forEach { … }`. */
  function PersistVersions(s: Store, tid: Uuid, vs: seq<Version>): (r: Store)
    ensures r.tables == s.tables && r.rows == s.rows && r.cells == s.cells
  {
    if vs == [] then s
    else PersistVersion(PersistVersions(s, tid, vs[..|vs| - 1]), tid, vs[|vs| - 1])
  }

  /** The ids of a list of versions. */
  function VersionIds(vs: seq<Version>): set<Uuid> {
    set i | 0 <= i < |vs| :: vs[i].id
  }

  /** Each version under its id, in order: the last one under an id is what
      the store ends up holding for it. */
  function ById(vs: seq<Version>): (e: seq<(Uuid, Version)>)
    ensures |e| == |vs|
    ensures forall i :: 0 <= i < |e| ==> e[i] == (vs[i].id, vs[i])
    ensures KeysOf(e) == VersionIds(vs)
  {
    seq(|vs|, i requires 0 <= i < |vs| => (vs[i].id, vs[i]))
  }

  /** The version records the loop upserts. */
  function VersionEntries(tid: Uuid, vs: seq<Version>): (e: seq<(Uuid, VersionRecord)>)
    ensures |e| == |vs|
    ensures forall i :: 0 <= i < |e| ==> e[i] == (vs[i].id, VersionRecord(tid, vs[i].orderNumber))
    ensures KeysOf(e) == VersionIds(vs)
  {
    seq(|vs|, i requires 0 <= i < |vs| => (vs[i].id, VersionRecord(tid, vs[i].orderNumber)))
  }

  /** The stored versions of `tid` that are not among `keep`. */
  function StaleVersions(versions: map<Uuid, VersionRecord>, tid: Uuid, keep: set<Uuid>): set<Uuid> {
    set id | id in versions && versions[id].tableId == tid && id !in keep
  }

  /** `removeStaleVersions`, with the cascade it sets off: the versions of
      `tid` outside `keep` go, and with them their columns, rows and cells;
      everything else stays as it was. */
  function RemoveStaleVersions(s: Store, tid: Uuid, keep: set<Uuid>): (r: Store)
    ensures r.tables == s.tables
    ensures forall id :: id in r.versions <==> id in s.versions && (s.versions[id].tableId == tid ==> id in keep)
    ensures forall id :: id in r.versions ==> r.versions[id] == s.versions[id]
    ensures forall k :: k in r.columns <==> k in s.columns && k.0 !in StaleVersions(s.versions, tid, keep)
    ensures forall k :: k in r.columns ==> r.columns[k] == s.columns[k]
    ensures forall id :: id in r.rows <==> id in s.rows && s.rows[id].versionId !in StaleVersions(s.versions, tid, keep)
    ensures forall id :: id in r.rows ==> r.rows[id] == s.rows[id]
    ensures forall k :: k in r.cells ==> k in s.cells && r.cells[k] == s.cells[k]
  {
    var gone := StaleVersions(s.versions, tid, keep);
    Cascade(s.(versions := DeleteStale(s.versions, OfTable(tid), keep)), gone)
  }

  /** `persist`: upsert the table record, reconcile every version and its
      columns, then delete the table's versions that are no longer there.
      The whole call is one atomic step. */
  function Persist(s: Store, t: Table): (r: Store)
    ensures r.tables == s.tables[t.id := TableRecord(t.userId, t.name)]
    ensures forall id :: id in r.versions && r.versions[id].tableId == t.id ==> id in VersionIds(t.versions)
    ensures forall id :: id in r.rows ==> id in s.rows && r.rows[id] == s.rows[id]
    ensures forall k :: k in r.cells ==> k in s.cells && r.cells[k] == s.cells[k]
  {
    var s1 := s.(tables := s.tables[t.id := TableRecord(t.userId, t.name)]);
    var s2 := PersistVersions(s1, t.id, t.versions);
    RemoveStaleVersions(s2, t.id, VersionIds(t.versions))
  }

  // ---------------------------------------------------------------------
  // What persist leaves behind, stated key by key

  /** The last version of `vs` with id `vid`. */
  function LastVersion(vs: seq<Version>, vid: Uuid): Version
    requires vid in VersionIds(vs)
  {
    LastValue(ById(vs), vid)
  }

  lemma VersionEntriesPrefix(tid: Uuid, vs: seq<Version>, n: nat)
    requires n <= |vs|
    ensures VersionEntries(tid, vs)[..n] == VersionEntries(tid, vs[..n])
  {
  }

  lemma {:induction false} PersistVersionsVersions(s: Store, tid: Uuid, vs: seq<Version>)
    ensures PersistVersions(s, tid, vs).versions == Upsert(s.versions, VersionEntries(tid, vs))
  {
    if vs != [] {
      var n := |vs| - 1;
      var e := VersionEntries(tid, vs);
      PersistVersionsVersions(s, tid, vs[..n]);
      VersionEntriesPrefix(tid, vs, n);
      assert PersistVersions(s, tid, vs).versions ==
        PersistVersions(s, tid, vs[..n]).versions[vs[n].id := VersionRecord(tid, vs[n].orderNumber)];
      assert Upsert(s.versions, e) == Upsert(s.versions, e[..n])[e[n].0 := e[n].1];
    }
  }

  lemma VersionIdsSnoc(vs: seq<Version>, v: Version)
    ensures VersionIds(vs + [v]) == VersionIds(vs) + {v.id}
    ensures ById(vs + [v]) == ById(vs) + [(v.id, v)]
  {
    var all := vs + [v];
    assert forall i :: 0 <= i < |vs| ==> all[i] == vs[i];
    forall id | id in VersionIds(all)
      ensures id in VersionIds(vs) + {v.id}
    {
      var i :| 0 <= i < |all| && all[i].id == id;
      if i < |vs| {
        assert vs[i].id == id;
      }
    }
    forall id | id in VersionIds(vs)
      ensures id in VersionIds(all)
    {
      var i :| 0 <= i < |vs| && vs[i].id == id;
      assert all[i].id == id;
    }
    assert all[|vs|].id == v.id;
  }

  /** The last version under an id, after one more version is appended. */
  lemma LastVersionSnoc(vs: seq<Version>, v: Version, vid: Uuid)
    requires vid in VersionIds(vs + [v])
    ensures vid == v.id ==> LastVersion(vs + [v], vid) == v
    ensures vid != v.id ==> vid in VersionIds(vs) && LastVersion(vs + [v], vid) == LastVersion(vs, vid)
  {
    VersionIdsSnoc(vs, v);
    LastIndexSnoc(ById(vs), (v.id, v), vid);
  }

  lemma {:induction false} PersistVersionsColumns(s: Store, tid: Uuid, vs: seq<Version>, k: ColumnKey)
    ensures var r := PersistVersions(s, tid, vs).columns;
      && (k.0 !in VersionIds(vs) ==> (k in r <==> k in s.columns) && (k in r ==> r[k] == s.columns[k]))
      && (k.0 in VersionIds(vs) ==>
            var e := ColumnEntries(LastVersion(vs, k.0));
            (k in r <==> k in KeysOf(e)) && (k in r ==> r[k] == LastValue(e, k)))
  {
    if vs != [] {
      var n := |vs| - 1;
      var init, v := vs[..n], vs[n];
      assert vs == init + [v];
      var prev := PersistVersions(s, tid, init);
      PersistVersionsColumns(s, tid, init, k);
      ReconcileAt(prev.columns, InVersion(v.id), ColumnEntries(v), k);
      VersionIdsSnoc(init, v);
      if k.0 in VersionIds(vs) {
        LastVersionSnoc(init, v, k.0);
      }
    }
  }

  /** Reference description of the store after `persist`, record by
      record: the table record is written; this table's versions are
      exactly the aggregate's, each under its last order number; their
      columns are exactly those written, and every version of this table
      that the aggregate no longer has is gone together with its columns,
      rows and cells.  Everything else is as it was. */
  ghost function Persisted(s: Store, t: Table): Store {
    var gone := StaleVersions(s.versions, t.id, VersionIds(t.versions));
    Store(
      s.tables[t.id := TableRecord(t.userId, t.name)],
      PersistedVersions(s, t),
      PersistedColumns(s, t),
      Cascade(s, gone).rows,
      Cascade(s, gone).cells)
  }

  ghost function PersistedVersions(s: Store, t: Table): map<Uuid, VersionRecord> {
    VersionsAfter(s.versions, t.id, t.versions)
  }

  /** The version records of table `tid` once its versions are `vs`. */
  ghost function VersionsAfter(m: map<Uuid, VersionRecord>, tid: Uuid, vs: seq<Version>): map<Uuid, VersionRecord> {
    var ids := VersionIds(vs);
    var gone := StaleVersions(m, tid, ids);
    map id | id in m.Keys + ids && (id in ids || id !in gone) ::
      if id in ids then VersionRecord(tid, LastVersion(vs, id).orderNumber) else m[id]
  }

  /** Every (version id, name) the aggregate holds. */
  ghost function WrittenKeys(t: Table): set<ColumnKey> {
    set i, c | 0 <= i < |t.versions| && c in t.versions[i].columns :: (t.versions[i].id, c.definition.name)
  }

  ghost function PersistedColumns(s: Store, t: Table): map<ColumnKey, ColumnRecord> {
    var ids := VersionIds(t.versions);
    var gone := StaleVersions(s.versions, t.id, ids);
    map k | k in s.columns.Keys + WrittenKeys(t) &&
            ((k in s.columns && k.0 !in ids && k.0 !in gone)
             || (k.0 in ids && k in KeysOf(ColumnEntries(LastVersion(t.versions, k.0))))) ::
      if k.0 in ids then LastValue(ColumnEntries(LastVersion(t.versions, k.0)), k) else s.columns[k]
  }

  /** Upserting the aggregate's versions makes none of them stale and
      leaves the stale ones as they were. */
  lemma StaleAfterUpsert(m: map<Uuid, VersionRecord>, tid: Uuid, vs: seq<Version>)
    ensures StaleVersions(Upsert(m, VersionEntries(tid, vs)), tid, VersionIds(vs)) == StaleVersions(m, tid, VersionIds(vs))
  {
    var u := Upsert(m, VersionEntries(tid, vs));
    forall id | id in u && id !in VersionIds(vs) ensures id in m && u[id] == m[id] {
    }
  }

  /** The three stages of `persist`, named. */
  lemma PersistStages(s: Store, t: Table) returns (s2: Store)
    ensures s2 == PersistVersions(s.(tables := s.tables[t.id := TableRecord(t.userId, t.name)]), t.id, t.versions)
    ensures s2.tables == s.tables[t.id := TableRecord(t.userId, t.name)]
    ensures s2.rows == s.rows && s2.cells == s.cells
    ensures s2.versions == Upsert(s.versions, VersionEntries(t.id, t.versions))
    ensures StaleVersions(s2.versions, t.id, VersionIds(t.versions)) == StaleVersions(s.versions, t.id, VersionIds(t.versions))
    ensures Persist(s, t) == Cascade(s2.(versions := DeleteStale(s2.versions, OfTable(t.id), VersionIds(t.versions))),
                                     StaleVersions(s.versions, t.id, VersionIds(t.versions)))
  {
    var s1 := s.(tables := s.tables[t.id := TableRecord(t.userId, t.name)]);
    s2 := PersistVersions(s1, t.id, t.versions);
    PersistVersionsVersions(s1, t.id, t.versions);
    StaleAfterUpsert(s.versions, t.id, t.versions);
  }

  /** At the version level, `persist` is one reconciliation of this
      table's versions. */
  lemma PersistVersionLevel(s: Store, t: Table)
    ensures Persist(s, t).versions == Reconcile(s.versions, OfTable(t.id), VersionEntries(t.id, t.versions))
  {
    var _ := PersistStages(s, t);
  }

  /** At the column level, `persist` is the loop's reconciliations with the
      columns of stale versions cascaded away. */
  lemma PersistColumnLevel(s: Store, t: Table)
    ensures var s1 := s.(tables := s.tables[t.id := TableRecord(t.userId, t.name)]);
      forall k :: k in Persist(s, t).columns <==>
        k in PersistVersions(s1, t.id, t.versions).columns && k.0 !in StaleVersions(s.versions, t.id, VersionIds(t.versions))
    ensures var s1 := s.(tables := s.tables[t.id := TableRecord(t.userId, t.name)]);
      forall k :: k in Persist(s, t).columns ==> Persist(s, t).columns[k] == PersistVersions(s1, t.id, t.versions).columns[k]
  {
    var _ := PersistStages(s, t);
  }

  /** The version reconciliation of `persist`, for one id. */
  lemma VersionsAfterAt(m: map<Uuid, VersionRecord>, tid: Uuid, vs: seq<Version>, id: Uuid)
    ensures var r := Reconcile(m, OfTable(tid), VersionEntries(tid, vs));
      (id in r <==> id in VersionsAfter(m, tid, vs)) && (id in r ==> r[id] == VersionsAfter(m, tid, vs)[id])
  {
    var e := VersionEntries(tid, vs);
    var q := VersionsAfter(m, tid, vs);
    assert AllInScope(OfTable(tid), e);
    ReconcileAt(m, OfTable(tid), e, id);
    if id in VersionIds(vs) {
      LastIndexSameKeys(e, ById(vs), id);
      assert q[id] == VersionRecord(tid, LastVersion(vs, id).orderNumber);
    } else {
      assert id in q <==> id in m && id !in StaleVersions(m, tid, VersionIds(vs));
    }
  }

  lemma PersistedVersionAt(s: Store, t: Table, id: Uuid)
    ensures id in Persist(s, t).versions <==> id in PersistedVersions(s, t)
    ensures id in Persist(s, t).versions ==> Persist(s, t).versions[id] == PersistedVersions(s, t)[id]
  {
    PersistVersionLevel(s, t);
    VersionsAfterAt(s.versions, t.id, t.versions, id);
  }

  lemma PersistedVersionsPointwise(s: Store, t: Table)
    ensures forall id :: id in Persist(s, t).versions <==> id in PersistedVersions(s, t)
    ensures forall id :: id in Persist(s, t).versions ==> Persist(s, t).versions[id] == PersistedVersions(s, t)[id]
  {
    forall id
      ensures id in Persist(s, t).versions <==> id in PersistedVersions(s, t)
      ensures id in Persist(s, t).versions ==> Persist(s, t).versions[id] == PersistedVersions(s, t)[id]
    {
      PersistedVersionAt(s, t, id);
    }
  }

  lemma PersistedVersionsMatch(s: Store, t: Table)
    ensures Persist(s, t).versions == PersistedVersions(s, t)
  {
    PersistedVersionsPointwise(s, t);
    MapExtensional(Persist(s, t).versions, PersistedVersions(s, t));
  }

  lemma PersistedColumnAt(s: Store, t: Table, k: ColumnKey)
    ensures k in Persist(s, t).columns <==> k in PersistedColumns(s, t)
    ensures k in Persist(s, t).columns ==> Persist(s, t).columns[k] == PersistedColumns(s, t)[k]
  {
    var s1 := s.(tables := s.tables[t.id := TableRecord(t.userId, t.name)]);
    var ids := VersionIds(t.versions);
    PersistColumnLevel(s, t);
    PersistVersionsColumns(s1, t.id, t.versions, k);
    if k.0 in ids && k in KeysOf(ColumnEntries(LastVersion(t.versions, k.0))) {
      LastVersionKeyWritten(t, k);
    }
  }

  lemma LastVersionKeyWritten(t: Table, k: ColumnKey)
    requires k.0 in VersionIds(t.versions) && k in KeysOf(ColumnEntries(LastVersion(t.versions, k.0)))
    ensures k in WrittenKeys(t)
  {
    var e := ColumnEntries(LastVersion(t.versions, k.0));
    var j := LastIndex(ById(t.versions), k.0);
    var m :| 0 <= m < |e| && e[m].0 == k;
    assert t.versions[j].columns[m] in t.versions[j].columns;
  }

  lemma PersistedColumnsPointwise(s: Store, t: Table)
    ensures forall k :: k in Persist(s, t).columns <==> k in PersistedColumns(s, t)
    ensures forall k :: k in Persist(s, t).columns ==> Persist(s, t).columns[k] == PersistedColumns(s, t)[k]
  {
    forall k
      ensures k in Persist(s, t).columns <==> k in PersistedColumns(s, t)
      ensures k in Persist(s, t).columns ==> Persist(s, t).columns[k] == PersistedColumns(s, t)[k]
    {
      PersistedColumnAt(s, t, k);
    }
  }

  lemma PersistedColumnsMatch(s: Store, t: Table)
    ensures Persist(s, t).columns == PersistedColumns(s, t)
  {
    PersistedColumnsPointwise(s, t);
    MapExtensional(Persist(s, t).columns, PersistedColumns(s, t));
  }

  lemma PersistedRowsMatch(s: Store, t: Table)
    ensures Persist(s, t).rows == Persisted(s, t).rows
    ensures Persist(s, t).cells == Persisted(s, t).cells
  {
    var s2 := PersistStages(s, t);
    var gone := StaleVersions(s.versions, t.id, VersionIds(t.versions));
    var x := s2.(versions := DeleteStale(s2.versions, OfTable(t.id), VersionIds(t.versions)));
    CascadeKeepsRows(x, s, gone);
  }

  /** `persist` does exactly what the record-by-record description says. */
  lemma PersistMatchesReference(s: Store, t: Table)
    ensures Persist(s, t) == Persisted(s, t)
  {
    PersistedVersionsMatch(s, t);
    PersistedColumnsMatch(s, t);
    PersistedRowsMatch(s, t);
    var _ := PersistStages(s, t);
  }

  // ---------------------------------------------------------------------
  // Properties of persist

  /** No two versions of the aggregate share an id. */
  predicate UniqueVersionIds(vs: seq<Version>) {
    forall i, j :: 0 <= i < j < |vs| ==> vs[i].id != vs[j].id
  }

  /** No two columns of a version share a name. */
  predicate UniqueNames(v: Version) {
    forall i, j :: 0 <= i < j < |v.columns| ==> v.columns[i].definition.name != v.columns[j].definition.name
  }

  /** With distinct ids, the last version under an id is the only one. */
  lemma LastVersionUnique(vs: seq<Version>, i: nat)
    requires UniqueVersionIds(vs) && i < |vs|
    ensures vs[i].id in VersionIds(vs) && LastVersion(vs, vs[i].id) == vs[i]
  {
    assert vs[i].id in VersionIds(vs);
    var j := LastIndex(ById(vs), vs[i].id);
    assert vs[j].id == vs[i].id;
  }

  /** The table record holds the aggregate's owner and name; no other table
      record changes. */
  lemma PersistWritesTable(s: Store, t: Table)
    ensures t.id in Persist(s, t).tables && Persist(s, t).tables[t.id] == TableRecord(t.userId, t.name)
    ensures forall id :: id != t.id ==> (id in Persist(s, t).tables <==> id in s.tables)
    ensures forall id :: id != t.id && id in s.tables ==> Persist(s, t).tables[id] == s.tables[id]
  {
    PersistMatchesReference(s, t);
  }

  /** Every version of the aggregate is stored under its id against this
      table, with its order number when no other version shares the id. */
  lemma PersistWritesVersions(s: Store, t: Table, i: nat)
    requires i < |t.versions|
    ensures var r := Persist(s, t).versions;
      t.versions[i].id in r && r[t.versions[i].id].tableId == t.id
    ensures UniqueVersionIds(t.versions) ==>
      Persist(s, t).versions[t.versions[i].id].orderNumber == t.versions[i].orderNumber
  {
    PersistMatchesReference(s, t);
    assert t.versions[i].id in VersionIds(t.versions);
    if UniqueVersionIds(t.versions) {
      LastVersionUnique(t.versions, i);
    }
  }

  /** The stored versions of this table are exactly the aggregate's. */
  lemma PersistVersionsExact(s: Store, t: Table, id: Uuid)
    ensures var r := Persist(s, t).versions;
      id in r && r[id].tableId == t.id <==> id in VersionIds(t.versions)
  {
    PersistMatchesReference(s, t);
  }

  /** The column upserts of a version with unique names write one key per
      column, holding that column's record. */
  lemma ColumnEntriesExact(v: Version, name: string)
    requires UniqueNames(v)
    ensures (v.id, name) in KeysOf(ColumnEntries(v)) <==> exists c :: c in v.columns && c.definition.name == name
    ensures forall c :: c in v.columns && c.definition.name == name ==> LastValue(ColumnEntries(v), (v.id, name)) == RecordOf(c)
  {
    var e := ColumnEntries(v);
    var k := (v.id, name);
    forall c | c in v.columns && c.definition.name == name
      ensures k in KeysOf(e) && LastValue(e, k) == RecordOf(c)
    {
      var m :| 0 <= m < |v.columns| && v.columns[m] == c;
      assert e[m].0 == k;
      var j := LastIndex(e, k);
      assert v.columns[j].definition.name == name;
    }
    if k in KeysOf(e) {
      var m :| 0 <= m < |e| && e[m].0 == k;
      assert v.columns[m] in v.columns;
    }
  }

  /** The stored columns of each aggregate version are exactly its columns,
      each recorded with its id, description, type and optional flag. */
  lemma PersistColumnsExact(s: Store, t: Table, i: nat, name: string)
    requires i < |t.versions| && UniqueVersionIds(t.versions) && UniqueNames(t.versions[i])
    ensures var v := t.versions[i];
      (v.id, name) in Persist(s, t).columns <==> exists c :: c in v.columns && c.definition.name == name
    ensures var v := t.versions[i];
      forall c :: c in v.columns && c.definition.name == name ==> Persist(s, t).columns[(v.id, name)] == RecordOf(c)
  {
    var v := t.versions[i];
    PersistedColumnAt(s, t, (v.id, name));
    LastVersionUnique(t.versions, i);
    ColumnEntriesExact(v, name);
  }

  /** Stale deletion is scoped: versions of other tables and columns of
      versions outside the aggregate that this table did not own are left
      exactly as they were. */
  lemma PersistIsScoped(s: Store, t: Table)
    ensures forall id :: id in s.versions && s.versions[id].tableId != t.id && id !in VersionIds(t.versions) ==>
      id in Persist(s, t).versions && Persist(s, t).versions[id] == s.versions[id]
    ensures forall k :: (k in s.columns && k.0 !in VersionIds(t.versions) &&
                         !(k.0 in s.versions && s.versions[k.0].tableId == t.id)) ==>
      k in Persist(s, t).columns && Persist(s, t).columns[k] == s.columns[k]
    ensures forall id :: id in s.rows && s.rows[id].versionId !in StaleVersions(s.versions, t.id, VersionIds(t.versions)) ==>
      id in Persist(s, t).rows && Persist(s, t).rows[id] == s.rows[id]
  {
    PersistMatchesReference(s, t);
  }

  /** A version of this table that the aggregate no longer has is deleted
      with its columns, its rows and their cells. */
  lemma PersistCascades(s: Store, t: Table, id: Uuid)
    requires id in StaleVersions(s.versions, t.id, VersionIds(t.versions))
    ensures id !in Persist(s, t).versions
    ensures forall k :: k in Persist(s, t).columns ==> k.0 != id
    ensures forall r :: r in Persist(s, t).rows ==> Persist(s, t).rows[r].versionId != id
    ensures forall k :: k in s.cells && k.0 in s.rows && s.rows[k.0].versionId == id ==> k !in Persist(s, t).cells
  {
    PersistMatchesReference(s, t);
  }

  /** After `persist` nothing of this table is stale. */
  lemma NothingStaleAfterPersist(s: Store, t: Table)
    ensures StaleVersions(Persisted(s, t).versions, t.id, VersionIds(t.versions)) == {}
  {
  }

  lemma PersistedTwiceVersions(s: Store, t: Table)
    ensures PersistedVersions(Persisted(s, t), t) == PersistedVersions(s, t)
  {
    NothingStaleAfterPersist(s, t);
  }

  lemma PersistedTwiceColumnAt(s: Store, t: Table, k: ColumnKey)
    ensures k in PersistedColumns(Persisted(s, t), t) <==> k in PersistedColumns(s, t)
    ensures k in PersistedColumns(s, t) ==> PersistedColumns(Persisted(s, t), t)[k] == PersistedColumns(s, t)[k]
  {
    NothingStaleAfterPersist(s, t);
  }

  lemma PersistedTwiceColumnsPointwise(s: Store, t: Table)
    ensures forall k :: k in PersistedColumns(Persisted(s, t), t) <==> k in PersistedColumns(s, t)
    ensures forall k :: k in PersistedColumns(s, t) ==> PersistedColumns(Persisted(s, t), t)[k] == PersistedColumns(s, t)[k]
  {
    forall k
      ensures k in PersistedColumns(Persisted(s, t), t) <==> k in PersistedColumns(s, t)
      ensures k in PersistedColumns(s, t) ==> PersistedColumns(Persisted(s, t), t)[k] == PersistedColumns(s, t)[k]
    {
      PersistedTwiceColumnAt(s, t, k);
    }
  }

  lemma PersistedTwiceColumns(s: Store, t: Table)
    ensures PersistedColumns(Persisted(s, t), t) == PersistedColumns(s, t)
  {
    PersistedTwiceColumnsPointwise(s, t);
    MapExtensional(PersistedColumns(Persisted(s, t), t), PersistedColumns(s, t));
  }

  lemma PersistedTwice(s: Store, t: Table)
    ensures Persisted(Persisted(s, t), t) == Persisted(s, t)
  {
    var p := Persisted(s, t);
    NothingStaleAfterPersist(s, t);
    PersistedTwiceVersions(s, t);
    PersistedTwiceColumns(s, t);
    CascadeNothing(p);
    assert p.tables[t.id := TableRecord(t.userId, t.name)] == p.tables;
  }

  /** Persisting the same aggregate twice leaves the store as persisting it
      once. */
  lemma PersistIdempotent(s: Store, t: Table)
    ensures Persist(Persist(s, t), t) == Persist(s, t)
  {
    PersistMatchesReference(s, t);
    PersistMatchesReference(Persist(s, t), t);
    PersistedTwice(s, t);
  }
}
