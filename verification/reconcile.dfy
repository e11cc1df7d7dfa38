/** The reconciliation primitive both repositories are built from: upsert
    every present child under its natural key (later writes to a key win),
    then delete every child of the same parent whose key was not written. */
module Reconciliation {

  /** The keys written by a sequence of upserts. */
  function KeysOf<K(==), V>(entries: seq<(K, V)>): set<K> {
    set i | 0 <= i < |entries| :: entries[i].0
  }

  /** Position of the last write to key `k`. */
  function LastIndex<K(==), V>(entries: seq<(K, V)>, k: K): (i: nat)
    requires k in KeysOf(entries)
    ensures i < |entries| && entries[i].0 == k
    ensures forall j :: i < j < |entries| ==> entries[j].0 != k
  {
    var n := |entries| - 1;
    if entries[n].0 == k then n
    else
      assert k in KeysOf(entries[..n]) by {
        var j :| 0 <= j < |entries| && entries[j].0 == k;
        assert entries[..n][j] == entries[j];
      }
      LastIndex(entries[..n], k)
  }

  /** The value the last write to `k` put there. */
  function LastValue<K(==), V>(entries: seq<(K, V)>, k: K): V
    requires k in KeysOf(entries)
  {
    entries[LastIndex(entries, k)].1
  }

  /** One upsert per entry, in order. */
  function Upsert<K(==), V>(m: map<K, V>, entries: seq<(K, V)>): (r: map<K, V>)
    ensures r.Keys == m.Keys + KeysOf(entries)
    ensures forall k :: k in KeysOf(entries) ==> r[k] == LastValue(entries, k)
    ensures forall k :: k in m && k !in KeysOf(entries) ==> r[k] == m[k]
  {
    if entries == [] then m
    else
      var n := |entries| - 1;
      var init := entries[..n];
      assert KeysOf(entries) == KeysOf(init) + {entries[n].0} by {
        assert entries == init + [entries[n]];
      }
      assert forall k :: k in KeysOf(init) && k != entries[n].0 ==> LastIndex(entries, k) == LastIndex(init, k);
      Upsert(m, init)[entries[n].0 := entries[n].1]
  }

  /** `deleteWhere { inScope and key notInList keep }`. */
  function DeleteStale<K(==), V>(m: map<K, V>, inScope: (K, V) -> bool, keep: set<K>): (r: map<K, V>)
    ensures forall k :: k in r ==> k in m && r[k] == m[k] && (inScope(k, m[k]) ==> k in keep)
    ensures forall k :: k in m && (inScope(k, m[k]) ==> k in keep) ==> k in r
  {
    map k | k in m && (inScope(k, m[k]) ==> k in keep) :: m[k]
  }

  /** Upsert the present children, then delete the stale ones. */
  function Reconcile<K(==), V>(m: map<K, V>, inScope: (K, V) -> bool, entries: seq<(K, V)>): map<K, V> {
    DeleteStale(Upsert(m, entries), inScope, KeysOf(entries))
  }

  /** Every written child belongs to the reconciled parent. */
  predicate AllInScope<K(==), V>(inScope: (K, V) -> bool, entries: seq<(K, V)>) {
    forall i :: 0 <= i < |entries| ==> inScope(entries[i].0, entries[i].1)
  }

  /** Appending a write to `x.0` moves only that key's last write. */
  lemma LastIndexSnoc<K, V>(entries: seq<(K, V)>, x: (K, V), k: K)
    requires k in KeysOf(entries + [x])
    ensures k == x.0 ==> LastIndex(entries + [x], k) == |entries|
    ensures k != x.0 ==> k in KeysOf(entries) && LastIndex(entries + [x], k) == LastIndex(entries, k)
  {
    var all := entries + [x];
    assert all[..|entries|] == entries;
  }

  /** `ReconcileExact` for one key. */
  lemma ReconcileAt<K, V>(m: map<K, V>, inScope: (K, V) -> bool, entries: seq<(K, V)>, k: K)
    requires AllInScope(inScope, entries)
    ensures var r := Reconcile(m, inScope, entries);
      && (k in KeysOf(entries) ==> k in r && r[k] == LastValue(entries, k))
      && (k !in KeysOf(entries) ==> (k in r <==> k in m && !inScope(k, m[k])))
      && (k !in KeysOf(entries) && k in r ==> r[k] == m[k])
  {
    if k in KeysOf(entries) {
      var i := LastIndex(entries, k);
      assert inScope(entries[i].0, entries[i].1);
    }
  }

  /** After reconciling, the parent's children are exactly the written keys,
      each holding its last written value, and every child outside the
      parent is as it was. */
  lemma ReconcileExact<K, V>(m: map<K, V>, inScope: (K, V) -> bool, entries: seq<(K, V)>)
    requires AllInScope(inScope, entries)
    ensures var r := Reconcile(m, inScope, entries);
      && (forall k :: k in KeysOf(entries) ==> k in r && r[k] == LastValue(entries, k))
      && (forall k :: k in r && inScope(k, r[k]) ==> k in KeysOf(entries))
      && (forall k :: k !in KeysOf(entries) ==> (k in r <==> k in m && !inScope(k, m[k])))
      && (forall k :: k !in KeysOf(entries) && k in r ==> r[k] == m[k])
  {
    forall k {
      ReconcileAt(m, inScope, entries, k);
    }
  }

  /** Reconciling twice with the same children is reconciling once. */
  lemma ReconcileIdempotent<K, V>(m: map<K, V>, inScope: (K, V) -> bool, entries: seq<(K, V)>)
    requires AllInScope(inScope, entries)
    ensures Reconcile(Reconcile(m, inScope, entries), inScope, entries) == Reconcile(m, inScope, entries)
  {
    var r1 := Reconcile(m, inScope, entries);
    var r2 := Reconcile(r1, inScope, entries);
    ReconcileExact(m, inScope, entries);
    ReconcileExact(r1, inScope, entries);
    assert r2.Keys == r1.Keys;
  }

  /** Two write sequences touching the same keys in the same order write
      each key last at the same position. */
  lemma {:induction false} LastIndexSameKeys<K, V, W>(a: seq<(K, V)>, b: seq<(K, W)>, k: K)
    requires |a| == |b| && forall i :: 0 <= i < |a| ==> a[i].0 == b[i].0
    requires k in KeysOf(a)
    ensures k in KeysOf(b) && LastIndex(a, k) == LastIndex(b, k)
  {
    var n := |a| - 1;
    assert b[n].0 == a[n].0;
    if a[n].0 != k {
      var j :| 0 <= j < |a| && a[j].0 == k;
      assert b[j].0 == k;
      assert a[..n][j] == a[j];
      LastIndexSameKeys(a[..n], b[..n], k);
    }
  }
}
