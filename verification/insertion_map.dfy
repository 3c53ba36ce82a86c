/**
 A model of the JavaScript `Map` the room registry keeps its users in: keys are
 unique, and iteration order is the order in which keys were first inserted.
 `set` on a key that is already present overwrites the value in place (the key
 keeps its position); `delete` removes the entry and closes the gap.
 */
module InsertionMap {
  import opened Options

  /** No key occurs twice. */
  ghost predicate DistinctKeys<K, V>(es: seq<(K, V)>) {
    forall i, j :: 0 <= i < j < |es| ==> es[i].0 != es[j].0
  }

  /** An insertion-ordered map: its entries, oldest first. */
  type IMap<K, V> = es: seq<(K, V)> | DistinctKeys(es) witness []

  /** Position of the entry for `k`, scanning from the oldest entry. */
  function IndexOf<K(==, !new), V>(es: seq<(K, V)>, k: K): (r: Option<nat>)
    ensures r.Some? ==> r.value < |es| && es[r.value].0 == k
    ensures r.None? ==> forall i :: 0 <= i < |es| ==> es[i].0 != k
  {
    if es == [] then None
    else if es[0].0 == k then Some(0)
    else match IndexOf(es[1..], k)
      case None => None
      case Some(i) => Some(i + 1)
  }

  /** `Map.prototype.has`. */
  function Has<K(==, !new), V>(m: IMap<K, V>, k: K): (b: bool)
    ensures b <==> exists i :: 0 <= i < |m| && m[i].0 == k
  {
    IndexOf(m, k).Some?
  }

  /** `Map.prototype.get`, with `undefined` as `None`. */
  function Get<K(==, !new), V>(m: IMap<K, V>, k: K): (r: Option<V>)
    ensures r.None? <==> forall i :: 0 <= i < |m| ==> m[i].0 != k
    ensures r.Some? <==> Has(m, k)
    ensures forall i :: 0 <= i < |m| && m[i].0 == k ==> r == Some(m[i].1)
  {
    match IndexOf(m, k)
    case None => None
    case Some(i) => Some(m[i].1)
  }

  /** The keys in iteration order. */
  function Keys<K, V>(m: IMap<K, V>): (ks: seq<K>)
    ensures |ks| == |m|
    ensures forall i :: 0 <= i < |m| ==> ks[i] == m[i].0
  {
    seq(|m|, i requires 0 <= i < |m| => m[i].0)
  }

  /** `Array.from(map.values())`: one value per key, in iteration order. */
  function Values<K(==, !new), V>(m: IMap<K, V>): (vs: seq<V>)
    ensures |vs| == |m|
    ensures forall i :: 0 <= i < |m| ==> Get(m, Keys(m)[i]) == Some(vs[i])
  {
    seq(|m|, i requires 0 <= i < |m| => m[i].1)
  }

  /** `Map.prototype.set`: overwrite in place when `k` is present, append otherwise. */
  function Set<K(==, !new), V>(m: IMap<K, V>, k: K, v: V): (r: IMap<K, V>)
    ensures Get(r, k) == Some(v)
    ensures forall k' :: k' != k ==> Get(r, k') == Get(m, k')
    ensures Has(m, k) ==> Keys(r) == Keys(m)
    ensures !Has(m, k) ==> Keys(r) == Keys(m) + [k]
    ensures forall e :: e in r ==> e == (k, v) || e in m
  {
    match IndexOf(m, k)
    case Some(i) =>
      var r: IMap<K, V> := m[i := (k, v)];
      assert forall j :: 0 <= j < |m| ==> r[j].0 == m[j].0;
      assert Keys(r) == Keys(m);
      assert r[i] == (k, v);
      SameEntriesOffKey(m, r, k);
      r
    case None =>
      var r: IMap<K, V> := m + [(k, v)];
      assert Keys(r) == Keys(m) + [k];
      assert r[|m|] == (k, v);
      SameEntriesOffKey(m, r, k);
      r
  }

  /** `Map.prototype.delete`: the entry for `k` is cut out, the rest keep their order. */
  function Delete<K(==, !new), V>(m: IMap<K, V>, k: K): (r: IMap<K, V>)
    ensures !Has(r, k)
    ensures forall k' :: k' != k ==> Get(r, k') == Get(m, k')
    ensures !Has(m, k) ==> r == m
    ensures Has(m, k) ==>
              && |r| == |m| - 1
              && exists i :: 0 <= i < |m| && m[i].0 == k && r == m[..i] + m[i + 1..]
    ensures forall e :: e in r ==> e in m
  {
    match IndexOf(m, k)
    case None => m
    case Some(i) =>
      var r := m[..i] + m[i + 1..];
      assert forall j :: 0 <= j < |r| ==> r[j] == if j < i then m[j] else m[j + 1];
      var r: IMap<K, V> := r;
      SameEntriesOffKey(m, r, k);
      r
  }

  /** Inserting a new key and deleting it again gives back the original map. */
  lemma SetThenDelete<K(!new), V>(m: IMap<K, V>, k: K, v: V)
    requires !Has(m, k)
    ensures Delete(Set(m, k, v), k) == m
  {
    var r := Set(m, k, v);
    assert r == m + [(k, v)];
    assert IndexOf(r, k) == Some(|m|) by {
      assert r[|m|].0 == k;
    }
    assert r[..|m|] == m;
  }

  /** Two maps holding the same entries for a key give the same `get` for it. */
  lemma SameEntriesSameGet<K(!new), V>(m1: IMap<K, V>, m2: IMap<K, V>, k: K)
    requires forall e: (K, V) :: e.0 == k ==> (e in m1 <==> e in m2)
    ensures Get(m1, k) == Get(m2, k)
  {
    if i :| 0 <= i < |m1| && m1[i].0 == k {
      assert m1[i] in m2;
    }
  }

  /** Maps that differ only in the entries for `k` agree on every other key. */
  lemma SameEntriesOffKey<K(!new), V>(m1: IMap<K, V>, m2: IMap<K, V>, k: K)
    requires forall e :: e in m1 && e.0 != k ==> e in m2
    requires forall e :: e in m2 && e.0 != k ==> e in m1
    ensures forall k' :: k' != k ==> Get(m1, k') == Get(m2, k')
  {
    forall k' | k' != k
      ensures Get(m1, k') == Get(m2, k')
    {
      SameEntriesSameGet(m1, m2, k');
    }
  }
}
