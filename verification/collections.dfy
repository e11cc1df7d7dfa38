/** Generic sequence helpers shared by the model. */
module Collections {

  /** The elements of a sequence, as a set. */
  function Elems<T>(xs: seq<T>): set<T> {
    set x | x in xs
  }

  /** No element occurs twice. */
  predicate Distinct<T(==)>(xs: seq<T>) {
    forall i, j :: 0 <= i < j < |xs| ==> xs[i] != xs[j]
  }

  /** Some listing of a finite set, each element exactly once.  The order is
      fixed but unspecified: it stands for the iteration order of a hash set
      or the scan order of a relational query. */
  ghost function Enumerate<T>(s: set<T>): (xs: seq<T>)
    ensures |xs| == |s|
    ensures Elems(xs) == s
    ensures Distinct(xs)
    decreases s
  {
    if s == {} then []
    else
      var x :| x in s;
      var rest := Enumerate(s - {x});
      ConsListing(x, rest, s);
      [x] + rest
  }

  /** Putting `x` in front of a listing of the rest of `s` lists `s`. */
  lemma ConsListing<T>(x: T, rest: seq<T>, s: set<T>)
    requires x in s && |rest| == |s - {x}| && Elems(rest) == s - {x} && Distinct(rest)
    ensures |[x] + rest| == |s| && Elems([x] + rest) == s && Distinct([x] + rest)
  {
    var xs := [x] + rest;
    assert |s - {x}| == |s| - 1;
    assert forall i :: 0 <= i < |rest| ==> xs[i + 1] == rest[i];
    forall y | y in Elems(xs) ensures y in s {
      var i :| 0 <= i < |xs| && xs[i] == y;
      if i > 0 {
        assert rest[i - 1] in Elems(rest);
      }
    }
    forall y | y in s ensures y in Elems(xs) {
      if y != x {
        assert y in Elems(rest);
        var i :| 0 <= i < |rest| && rest[i] == y;
        assert xs[i + 1] == y;
      }
    }
    forall i, j | 0 <= i < j < |xs| ensures xs[i] != xs[j] {
      assert xs[j] == rest[j - 1] && rest[j - 1] in Elems(rest);
      if i > 0 {
        assert xs[i] == rest[i - 1];
      }
    }
  }

  /** Index of the first element whose key is maximal, as Kotlin's
      `maxBy`/`maxByOrNull` scan keeps a candidate and replaces it only by a
      strictly larger key. */
  function MaxByIndex<T>(xs: seq<T>, key: T -> int): (i: nat)
    requires |xs| > 0
    ensures i < |xs|
    ensures forall j :: 0 <= j < |xs| ==> key(xs[j]) <= key(xs[i])
    ensures forall j :: 0 <= j < i ==> key(xs[j]) < key(xs[i])
  {
    if |xs| == 1 then 0
    else
      var m := MaxByIndex(xs[..|xs| - 1], key);
      if key(xs[m]) < key(xs[|xs| - 1]) then |xs| - 1 else m
  }

  /** The values of `m` under `keys`, in that order. */
  function ValuesAt<K(==), V>(m: map<K, V>, keys: seq<K>): (r: seq<V>)
    requires forall i :: 0 <= i < |keys| ==> keys[i] in m
    ensures |r| == |keys|
    ensures forall i :: 0 <= i < |keys| ==> r[i] == m[keys[i]]
  {
    seq(|keys|, i requires 0 <= i < |keys| => m[keys[i]])
  }

  /** Listing the values under a listing of all keys gives every stored
      value and nothing else. */
  lemma ValuesAtAllKeys<K, V>(m: map<K, V>, keys: seq<K>)
    requires Elems(keys) == m.Keys
    ensures forall i :: 0 <= i < |keys| ==> keys[i] in m
    ensures Elems(ValuesAt(m, keys)) == m.Values
  {
    assert forall i :: 0 <= i < |keys| ==> keys[i] in Elems(keys);
    var r := ValuesAt(m, keys);
    forall v | v in m.Values ensures v in Elems(r) {
      var k :| k in m && m[k] == v;
      assert k in Elems(keys);
      var i :| 0 <= i < |keys| && keys[i] == k;
      assert r[i] == v;
    }
  }

  /** Two maps agreeing on every key are equal. */
  lemma MapExtensional<K, V>(p: map<K, V>, q: map<K, V>)
    requires forall k :: k in p <==> k in q
    requires forall k :: k in p ==> p[k] == q[k]
    ensures p == q
  {
    assert p.Keys == q.Keys;
  }

  /** Storing under a key grows a map by one entry exactly when the key is
      new. */
  lemma UpdateSize<K, V>(m: map<K, V>, k: K, v: V)
    ensures |m[k := v]| == if k in m then |m| else |m| + 1
  {
    var p := m[k := v];
    assert |p.Keys| == |p| && |m.Keys| == |m|;
    if k in m {
      assert p.Keys == m.Keys;
    } else {
      assert p.Keys == m.Keys + {k};
    }
  }
}
