/** The table aggregate: versions of column lists, and the schema-evolution
    step that appends a version while keeping the identity of every column
    whose definition the table has already seen. */
module TableModel {
  import opened Results
  import opened Ids
  import opened Collections
  import opened ColumnModel

  /** `Version`: an id, its columns in order, and its order number. */
  datatype Version = Version(id: Uuid, columns: seq<Column>, orderNumber: int)

  /** `Table`.  Its versions are listed in the iteration order of the
      linked hash set that holds them, which is insertion order. */
  datatype Table = Table(id: Uuid, userId: Uuid, name: string, versions: seq<Version>)

  function OrderOf(v: Version): int {
    v.orderNumber
  }

  /** `versions.flatMap(Version::columns)`: every column of every version, in
      version order, repetitions kept. */
  function AllColumns(vs: seq<Version>): (cs: seq<Column>)
    ensures forall i, c :: 0 <= i < |vs| && c in vs[i].columns ==> c in cs
    ensures forall c :: c in cs ==> exists i :: 0 <= i < |vs| && c in vs[i].columns
  {
    if vs == [] then []
    else
      var init := AllColumns(vs[..|vs| - 1]);
      assert forall i :: 0 <= i < |vs| - 1 ==> vs[..|vs| - 1][i] == vs[i];
      init + vs[|vs| - 1].columns
  }

  /** Position of the first column whose definition equals `d`, or `|cs|`
      when there is none (`firstOrNull { it.definition == d }`). */
  function FirstMatch(cs: seq<Column>, d: Definition): (k: nat)
    ensures k <= |cs|
    ensures forall j :: 0 <= j < k ==> cs[j].definition != d
    ensures k < |cs| ==> cs[k].definition == d
  {
    if cs == [] then 0
    else if cs[0].definition == d then 0
    else 1 + FirstMatch(cs[1..], d)
  }

  /** The column a requested definition becomes: the first known column
      with an equal definition, otherwise a new column under `freshId`. */
  function Resolve(known: seq<Column>, d: Definition, freshId: Uuid): (c: Column)
    ensures c.definition == d
    ensures FirstMatch(known, d) < |known| ==> c == known[FirstMatch(known, d)]
    ensures FirstMatch(known, d) == |known| ==> c == Column(freshId, d)
  {
    var k := FirstMatch(known, d);
    if k < |known| then known[k] else Column(freshId, d)
  }

  /** `versions.maxOfOrNull(Version::orderNumber) ?: 0`. */
  function Recent(vs: seq<Version>): (r: int)
    ensures vs == [] ==> r == 0
    ensures forall i :: 0 <= i < |vs| ==> vs[i].orderNumber <= r
    ensures vs != [] ==> exists i :: 0 <= i < |vs| && vs[i].orderNumber == r
  {
    if vs == [] then 0 else vs[MaxByIndex(vs, OrderOf)].orderNumber
  }

  /** The version `update` builds.  `versionId` is the id the new `Version`
      draws and `mint(i)` the id a new `Column` for request `i` draws. */
  function NewVersion(t: Table, defs: seq<Definition>, versionId: Uuid, mint: nat -> Uuid): (v: Version)
    ensures v.id == versionId && |v.columns| == |defs|
    ensures t.versions == [] ==> v.orderNumber == 1
    ensures forall j :: 0 <= j < |t.versions| ==> t.versions[j].orderNumber < v.orderNumber
    ensures t.versions != [] ==> exists j :: 0 <= j < |t.versions| && v.orderNumber == t.versions[j].orderNumber + 1
    ensures forall i :: 0 <= i < |defs| ==> FirstOrFresh(AllColumns(t.versions), defs[i], mint(i), v.columns[i])
  {
    var known := AllColumns(t.versions);
    var columns := seq(|defs|, i requires 0 <= i < |defs| => Resolve(known, defs[i], mint(i)));
    ResolvedColumns(known, defs, mint, columns);
    Version(versionId, columns, Recent(t.versions) + 1)
  }

  /** `c` is the first of `known` whose definition is `d`, or, when none
      has it, a new column with that definition under `freshId`. */
  predicate FirstOrFresh(known: seq<Column>, d: Definition, freshId: Uuid, c: Column) {
    (exists k :: 0 <= k < |known| && known[k].definition == d && c == known[k] &&
                 forall j :: 0 <= j < k ==> known[j].definition != d) ||
    ((forall k :: 0 <= k < |known| ==> known[k].definition != d) && c == Column(freshId, d))
  }

  /** Every resolved column is the first match or a fresh column. */
  lemma ResolvedColumns(known: seq<Column>, defs: seq<Definition>, mint: nat -> Uuid, columns: seq<Column>)
    requires |columns| == |defs|
    requires forall i :: 0 <= i < |defs| ==> columns[i] == Resolve(known, defs[i], mint(i))
    ensures forall i :: 0 <= i < |defs| ==> FirstOrFresh(known, defs[i], mint(i), columns[i])
  {
    forall i | 0 <= i < |defs|
      ensures FirstOrFresh(known, defs[i], mint(i), columns[i])
    {
      var k := FirstMatch(known, defs[i]);
      if k < |known| {
        assert known[k].definition == defs[i] && columns[i] == known[k];
      }
    }
  }

  /** `Table.update`: appends one version and changes nothing else. */
  function Update(t: Table, defs: seq<Definition>, versionId: Uuid, mint: nat -> Uuid): (r: Table)
    ensures r.id == t.id && r.userId == t.userId && r.name == t.name
    ensures |r.versions| == |t.versions| + 1
    ensures r.versions[..|t.versions|] == t.versions
    ensures r.versions[|t.versions|].id == versionId
    ensures |r.versions[|t.versions|].columns| == |defs|
    ensures forall i :: 0 <= i < |defs| ==> r.versions[|t.versions|].columns[i].definition == defs[i]
  {
    t.(versions := t.versions + [NewVersion(t, defs, versionId, mint)])
  }

  /** The order number of the appended version is one more than the largest
      existing one, or 1 for a table without versions. */
  lemma UpdateOrderNumber(t: Table, defs: seq<Definition>, versionId: Uuid, mint: nat -> Uuid)
    ensures var n := Update(t, defs, versionId, mint).versions[|t.versions|].orderNumber;
      && (t.versions == [] ==> n == 1)
      && (forall i :: 0 <= i < |t.versions| ==> t.versions[i].orderNumber < n)
      && (t.versions != [] ==> exists i :: 0 <= i < |t.versions| && n == t.versions[i].orderNumber + 1)
  {
  }

  /** Read as a set, the versions grow by exactly the new one: it differs
      from every earlier version, if only by its order number. */
  lemma UpdateAddsExactlyOneVersion(t: Table, defs: seq<Definition>, versionId: Uuid, mint: nat -> Uuid)
    ensures var r := Update(t, defs, versionId, mint);
      && r.versions[|t.versions|] !in Elems(t.versions)
      && Elems(r.versions) == Elems(t.versions) + {r.versions[|t.versions|]}
      && |Elems(r.versions)| == |Elems(t.versions)| + 1
  {
    var r := Update(t, defs, versionId, mint);
    var v := r.versions[|t.versions|];
    UpdateOrderNumber(t, defs, versionId, mint);
    assert r.versions == t.versions + [v];
    assert v !in Elems(t.versions);
    assert Elems(r.versions) == Elems(t.versions) + {v};
  }

  /** A requested definition equal to some known column's becomes the first
      such column, id included. */
  lemma UpdateReusesFirstMatch(t: Table, defs: seq<Definition>, versionId: Uuid, mint: nat -> Uuid, i: nat, k: nat)
    requires i < |defs|
    requires k < |AllColumns(t.versions)| && AllColumns(t.versions)[k].definition == defs[i]
    requires forall j :: 0 <= j < k ==> AllColumns(t.versions)[j].definition != defs[i]
    ensures Update(t, defs, versionId, mint).versions[|t.versions|].columns[i] == AllColumns(t.versions)[k]
  {
    assert FirstMatch(AllColumns(t.versions), defs[i]) == k;
  }

  /** A requested definition no known column has becomes a new column under
      a freshly drawn id. */
  lemma UpdateMintsUnmatched(t: Table, defs: seq<Definition>, versionId: Uuid, mint: nat -> Uuid, i: nat)
    requires i < |defs|
    requires forall c :: c in AllColumns(t.versions) ==> c.definition != defs[i]
    ensures Update(t, defs, versionId, mint).versions[|t.versions|].columns[i] == Column(mint(i), defs[i])
  {
  }

  /** `getCurrentVersion`: the version with the largest order number (the
      first such in iteration order); `maxBy` throws on an empty set. */
  function CurrentVersion(t: Table): (r: Result<Version>)
    ensures r.Err? <==> t.versions == []
    ensures r.Err? ==> r.failure == NoSuchElement
    ensures r.Ok? ==> r.value in t.versions
    ensures r.Ok? ==> forall i :: 0 <= i < |t.versions| ==> t.versions[i].orderNumber <= r.value.orderNumber
    ensures r.Ok? ==> exists i :: 0 <= i < |t.versions| && t.versions[i] == r.value &&
                                  forall j :: 0 <= j < i ==> t.versions[j].orderNumber < r.value.orderNumber
  {
    if t.versions == [] then Err(NoSuchElement)
    else Ok(t.versions[MaxByIndex(t.versions, OrderOf)])
  }

  /** After `update`, the current version is the one just added. */
  lemma CurrentVersionAfterUpdate(t: Table, defs: seq<Definition>, versionId: Uuid, mint: nat -> Uuid)
    ensures CurrentVersion(Update(t, defs, versionId, mint)) == Ok(NewVersion(t, defs, versionId, mint))
  {
    var r := Update(t, defs, versionId, mint);
    UpdateOrderNumber(t, defs, versionId, mint);
    assert forall j :: 0 <= j < |t.versions| ==> r.versions[j] == t.versions[j];
  }

  /** Order numbers strictly increase along the version list; `update`
      keeps it so, hence no two versions share an order number and the
      current version is unique. */
  predicate Ascending(vs: seq<Version>) {
    forall i, j :: 0 <= i < j < |vs| ==> vs[i].orderNumber < vs[j].orderNumber
  }

  lemma UpdateKeepsAscending(t: Table, defs: seq<Definition>, versionId: Uuid, mint: nat -> Uuid)
    requires Ascending(t.versions)
    ensures Ascending(Update(t, defs, versionId, mint).versions)
  {
    UpdateOrderNumber(t, defs, versionId, mint);
    var r := Update(t, defs, versionId, mint);
    forall i, j | 0 <= i < j < |r.versions|
      ensures r.versions[i].orderNumber < r.versions[j].orderNumber
    {
      assert r.versions[i] == t.versions[i];
      if j < |t.versions| {
        assert r.versions[j] == t.versions[j];
      }
    }
  }

  /** Table equality in the source compares ids only. */
  predicate SameTable(a: Table, b: Table) {
    a.id == b.id
  }

  lemma SameTableIgnoresState(a: Table, userId: Uuid, name: string, versions: seq<Version>)
    ensures SameTable(a, a.(userId := userId, name := name, versions := versions))
    ensures forall b: Table :: SameTable(a, b) <==> SameTable(b, a)
  {
  }

  /** One call of `update`, with the ids it draws. */
  datatype UpdateRequest = UpdateRequest(definitions: seq<Definition>, versionId: Uuid, mint: nat -> Uuid)

  function UpdateAll(t: Table, reqs: seq<UpdateRequest>): Table {
    if reqs == [] then t
    else
      var last := reqs[|reqs| - 1];
      Update(UpdateAll(t, reqs[..|reqs| - 1]), last.definitions, last.versionId, last.mint)
  }

  /** The k-th version carries order number k + 1. */
  predicate Numbered(vs: seq<Version>) {
    forall i :: 0 <= i < |vs| ==> vs[i].orderNumber == i + 1
  }

  lemma UpdateKeepsNumbered(t: Table, defs: seq<Definition>, versionId: Uuid, mint: nat -> Uuid)
    requires Numbered(t.versions)
    ensures Numbered(Update(t, defs, versionId, mint).versions)
  {
    UpdateOrderNumber(t, defs, versionId, mint);
    var r := Update(t, defs, versionId, mint);
    var n := |t.versions|;
    if n > 0 {
      assert t.versions[n - 1].orderNumber == n;
    }
    forall i | 0 <= i < |r.versions|
      ensures r.versions[i].orderNumber == i + 1
    {
      if i < n {
        assert r.versions[i] == t.versions[i];
      }
    }
  }

  /** After n updates of a table without versions, the order numbers are
      exactly 1..n, in order and without repeats, and the current version
      is the last one added. */
  lemma {:induction false} OrderNumbersCountUp(t: Table, reqs: seq<UpdateRequest>)
    requires t.versions == []
    ensures var r := UpdateAll(t, reqs);
      && |r.versions| == |reqs|
      && Numbered(r.versions)
      && (reqs != [] ==> CurrentVersion(r) == Ok(r.versions[|reqs| - 1]))
  {
    NumberedAfterUpdates(t, reqs);
    if reqs != [] {
      var last := reqs[|reqs| - 1];
      var prev := UpdateAll(t, reqs[..|reqs| - 1]);
      CurrentVersionAfterUpdate(prev, last.definitions, last.versionId, last.mint);
    }
  }

  lemma {:induction false} NumberedAfterUpdates(t: Table, reqs: seq<UpdateRequest>)
    requires Numbered(t.versions)
    ensures |UpdateAll(t, reqs).versions| == |t.versions| + |reqs|
    ensures Numbered(UpdateAll(t, reqs).versions)
  {
    if reqs != [] {
      var last := reqs[|reqs| - 1];
      NumberedAfterUpdates(t, reqs[..|reqs| - 1]);
      UpdateKeepsNumbered(UpdateAll(t, reqs[..|reqs| - 1]), last.definitions, last.versionId, last.mint);
    }
  }

  lemma {:induction false} FirstMatchExtend(cs: seq<Column>, ds: seq<Column>, d: Definition)
    requires FirstMatch(cs, d) < |cs|
    ensures FirstMatch(cs + ds, d) == FirstMatch(cs, d)
  {
    if cs[0].definition != d {
      assert (cs + ds)[1..] == cs[1..] + ds;
      FirstMatchExtend(cs[1..], ds, d);
    }
  }

  /** Once a table knows a column for definition `d`, every later update
      resolves `d` to that same column. */
  lemma KnownColumnIsStable(t: Table, defs: seq<Definition>, versionId: Uuid, mint: nat -> Uuid, d: Definition, id1: Uuid, id2: Uuid)
    requires FirstMatch(AllColumns(t.versions), d) < |AllColumns(t.versions)|
    ensures Resolve(AllColumns(Update(t, defs, versionId, mint).versions), d, id1) == Resolve(AllColumns(t.versions), d, id2)
  {
    var r := Update(t, defs, versionId, mint);
    var nv := NewVersion(t, defs, versionId, mint);
    assert r.versions[..|r.versions| - 1] == t.versions;
    assert AllColumns(r.versions) == AllColumns(t.versions) + nv.columns;
    FirstMatchExtend(AllColumns(t.versions), nv.columns, d);
  }

  /** The column a definition receives in an update is the one the next
      update gives it back (column i, where i is the first request for it). */
  lemma ResolvedColumnIsRemembered(t: Table, defs: seq<Definition>, versionId: Uuid, mint: nat -> Uuid, i: nat, id: Uuid)
    requires i < |defs|
    requires forall j :: 0 <= j < i ==> defs[j] != defs[i]
    ensures Resolve(AllColumns(Update(t, defs, versionId, mint).versions), defs[i], id)
         == Update(t, defs, versionId, mint).versions[|t.versions|].columns[i]
  {
    var r := Update(t, defs, versionId, mint);
    var known := AllColumns(t.versions);
    var nv := NewVersion(t, defs, versionId, mint);
    assert r.versions[..|r.versions| - 1] == t.versions;
    assert AllColumns(r.versions) == known + nv.columns;
    assert nv.columns[i] == Resolve(known, defs[i], mint(i));
    if FirstMatch(known, defs[i]) < |known| {
      FirstMatchExtend(known, nv.columns, defs[i]);
    } else {
      FirstMatchAfter(known, nv.columns, defs[i], i);
    }
  }

  lemma {:induction false} FirstMatchAfter(cs: seq<Column>, ds: seq<Column>, d: Definition, i: nat)
    requires FirstMatch(cs, d) == |cs|
    requires i < |ds| && ds[i].definition == d
    requires forall j :: 0 <= j < i ==> ds[j].definition != d
    ensures FirstMatch(cs + ds, d) == |cs| + i
  {
    if cs == [] {
      assert cs + ds == ds;
      if i > 0 {
        FirstMatchAfter([], ds[1..], d, i - 1);
        assert [] + ds[1..] == ds[1..];
      }
    } else {
      assert (cs + ds)[1..] == cs[1..] + ds;
      FirstMatchAfter(cs[1..], ds, d, i);
    }
  }

  /** Every column id stands for one definition across all versions. */
  ghost predicate IdsIdentifyDefinitions(t: Table) {
    forall a, b :: a in AllColumns(t.versions) && b in AllColumns(t.versions) && a.id == b.id ==> a == b
  }

  /** The ids drawn for new columns are unused and pairwise distinct. */
  ghost predicate FreshMint(t: Table, n: nat, mint: nat -> Uuid) {
    && (forall i, c :: 0 <= i < n && c in AllColumns(t.versions) ==> c.id != mint(i))
    && (forall i, j :: 0 <= i < j < n ==> mint(i) != mint(j))
  }

  /** With fresh ids drawn, `update` never gives one id two definitions. */
  lemma UpdateKeepsIdsIdentifying(t: Table, defs: seq<Definition>, versionId: Uuid, mint: nat -> Uuid)
    requires IdsIdentifyDefinitions(t)
    requires FreshMint(t, |defs|, mint)
    ensures IdsIdentifyDefinitions(Update(t, defs, versionId, mint))
  {
    var r := Update(t, defs, versionId, mint);
    var known := AllColumns(t.versions);
    var nv := NewVersion(t, defs, versionId, mint);
    assert r.versions[..|r.versions| - 1] == t.versions;
    assert AllColumns(r.versions) == known + nv.columns;
    // every new column is either known or carries its own drawn id
    assert forall i :: 0 <= i < |defs| ==> nv.columns[i] in known || nv.columns[i] == Column(mint(i), defs[i]);
    IdsIdentifyAppend(t, nv.columns, defs, mint);
  }

  /** Appending columns that are known or carry their own freshly drawn id
      keeps every id standing for one definition. */
  lemma IdsIdentifyAppend(t: Table, columns: seq<Column>, defs: seq<Definition>, mint: nat -> Uuid)
    requires IdsIdentifyDefinitions(t) && FreshMint(t, |defs|, mint)
    requires |columns| == |defs|
    requires forall i :: 0 <= i < |defs| ==> columns[i] in AllColumns(t.versions) || columns[i] == Column(mint(i), defs[i])
    ensures forall a, b :: a in AllColumns(t.versions) + columns && b in AllColumns(t.versions) + columns && a.id == b.id ==> a == b
  {
    var known := AllColumns(t.versions);
    forall a, b | a in known + columns && b in known + columns && a.id == b.id
      ensures a == b
    {
      if a !in known {
        var i :| 0 <= i < |defs| && columns[i] == a;
        if b !in known {
          var j :| 0 <= j < |defs| && columns[j] == b;
        }
      }
    }
  }
}
