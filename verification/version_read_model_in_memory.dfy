/** `VersionReadModelInMemoryRepository`: the reference version read
    model, a list of versions per (user id, table id) pair. */
module VersionReadModelInMemory {
  import opened Results
  import opened Ids
  import opened Collections
  import opened VersionReadModel

  type VersionLists = map<(Uuid, Uuid), seq<VersionView>>

  /** The versions added under the pair, oldest first. */
  function Listed(m: VersionLists, userId: Uuid, tableId: Uuid): seq<VersionView> {
    if (userId, tableId) in m then m[(userId, tableId)] else []
  }

  /** `addVersion`: append under the pair, creating its list if need be. */
  function AddVersion(m: VersionLists, userId: Uuid, tableId: Uuid, v: VersionView): (r: VersionLists)
    ensures Listed(r, userId, tableId) == Listed(m, userId, tableId) + [v]
    ensures forall u, t :: (u, t) != (userId, tableId) ==> Listed(r, u, t) == Listed(m, u, t)
  {
    m[(userId, tableId) := Listed(m, userId, tableId) + [v]]
  }

  /** `clear`. */
  function Clear(): (r: VersionLists)
    ensures forall u, t :: Listed(r, u, t) == []
  {
    map[]
  }

  /** `findAllVersionsByTableId`: the versions added under the pair, as a
      set; none for a pair never added to. */
  function FindAllVersions(m: VersionLists, userId: Uuid, tableId: Uuid): (r: set<VersionView>)
    ensures forall v :: v in r <==> v in Listed(m, userId, tableId)
  {
    Elems(Listed(m, userId, tableId))
  }

  /** `findCurrentVersionByTableId`: `maxByOrNull` on the order number, so
      the first of the versions sharing the top number. */
  function FindCurrent(m: VersionLists, userId: Uuid, tableId: Uuid): (r: Option<VersionView>)
    ensures r.None? <==> FindAllVersions(m, userId, tableId) == {}
    ensures r.Some? ==> r.value in FindAllVersions(m, userId, tableId)
    ensures r.Some? ==> forall v :: v in FindAllVersions(m, userId, tableId) ==> v.orderNumber <= r.value.orderNumber
  {
    var xs := Listed(m, userId, tableId);
    if xs == [] then None
    else
      assert xs[0] in FindAllVersions(m, userId, tableId);
      var top := xs[MaxByIndex(xs, (v: VersionView) => v.orderNumber)];
      assert top in FindAllVersions(m, userId, tableId);
      Some(top)
  }

  /** `findCurrentVersionByTableIdOrThrow`: no current version is
      `NoEntityFound`. */
  function FindCurrentOrThrow(m: VersionLists, userId: Uuid, tableId: Uuid): (r: Result<VersionView>)
    ensures r.Err? <==> FindCurrent(m, userId, tableId).None?
    ensures r.Err? ==> r.failure == NoEntityFound
    ensures r.Ok? ==> FindCurrent(m, userId, tableId) == Some(r.value)
  {
    match FindCurrent(m, userId, tableId)
    case None => Err(NoEntityFound)
    case Some(v) => Ok(v)
  }

  /** Adding a version lists it besides everything listed before, and
      leaves every other pair's listing alone. */
  lemma AddVersionKeeps(m: VersionLists, userId: Uuid, tableId: Uuid, v: VersionView)
    ensures FindAllVersions(AddVersion(m, userId, tableId, v), userId, tableId) == FindAllVersions(m, userId, tableId) + {v}
    ensures forall u, t :: (u, t) != (userId, tableId) ==>
      FindAllVersions(AddVersion(m, userId, tableId, v), u, t) == FindAllVersions(m, u, t)
  {
  }

  /** After adding `v`, the current version is `v` if its order number is
      larger than every listed one, and otherwise stays what it was (an
      equal number does not displace the earlier version). */
  lemma {:induction false} CurrentAfterAdd(m: VersionLists, userId: Uuid, tableId: Uuid, v: VersionView)
    ensures var before := FindCurrent(m, userId, tableId);
      var after := FindCurrent(AddVersion(m, userId, tableId, v), userId, tableId);
      after == if before.None? || before.value.orderNumber < v.orderNumber then Some(v) else before
  {
    var xs := Listed(m, userId, tableId);
    var ys := xs + [v];
    assert Listed(AddVersion(m, userId, tableId, v), userId, tableId) == ys;
    if xs != [] {
      assert ys[..|ys| - 1] == xs;
    }
  }

  /** After `clear` nothing is listed and nothing is current. */
  lemma ClearForgetsAll(userId: Uuid, tableId: Uuid)
    ensures FindAllVersions(Clear(), userId, tableId) == {}
    ensures FindCurrent(Clear(), userId, tableId) == None
    ensures FindCurrentOrThrow(Clear(), userId, tableId) == Err(NoEntityFound)
  {
  }
}
