/** Ruby's Hash as the binding uses it: a mapping that remembers the order in
    which keys were first inserted. Assigning to a present key replaces its
    value and keeps its position; assigning to a new key appends it. */
module OrderedMaps {
  import opened Outcomes

  type OrderedMap<K(==), V> = seq<(K, V)>

  predicate UniqueKeys<K(==), V>(m: OrderedMap<K, V>) {
    forall i, j :: 0 <= i < j < |m| ==> m[i].0 != m[j].0
  }

  function Keys<K(==), V>(m: OrderedMap<K, V>): (ks: seq<K>)
    ensures |ks| == |m|
    ensures forall i :: 0 <= i < |m| ==> ks[i] == m[i].0
  {
    if m == [] then [] else [m[0].0] + Keys(m[1..])
  }

  /** Position of `k` in `m`, if it is present. */
  function IndexOf<K(==), V>(m: OrderedMap<K, V>, k: K): (r: Option<nat>)
    ensures r.None? <==> forall i :: 0 <= i < |m| ==> m[i].0 != k
    ensures r.Some? ==> r.value < |m| && m[r.value].0 == k
  {
    if m == [] then None
    else if m[0].0 == k then Some(0)
    else
      match IndexOf(m[1..], k)
      case None => None
      case Some(i) => Some(i + 1)
  }

  /** `hash[k]`: the value stored under `k`, or `None` when `k` is absent. */
  function Get<K(==), V>(m: OrderedMap<K, V>, k: K): (r: Option<V>)
    requires UniqueKeys(m)
    ensures r.None? <==> k !in Keys(m)
    ensures r.Some? ==> (k, r.value) in m
  {
    match IndexOf(m, k)
    case None => None
    case Some(i) => Some(m[i].1)
  }

  /** In a map with unique keys, the position of a key is the one holding it. */
  lemma {:induction false} IndexOfUnique<K, V>(m: OrderedMap<K, V>, i: nat)
    requires UniqueKeys(m) && i < |m|
    ensures IndexOf(m, m[i].0) == Some(i)
  {
    if i > 0 {
      assert m[0].0 != m[i].0;
      assert m[1..][i - 1] == m[i];
      IndexOfUnique(m[1..], i - 1);
    }
  }

  /** `Get` reads the value at the key's position. */
  lemma GetAt<K, V>(m: OrderedMap<K, V>, i: nat)
    requires UniqueKeys(m) && i < |m|
    ensures Get(m, m[i].0) == Some(m[i].1)
  {
    IndexOfUnique(m, i);
  }

  /** `hash[k] = v`. */
  function Put<K(==, !new), V>(m: OrderedMap<K, V>, k: K, v: V): (r: OrderedMap<K, V>)
    requires UniqueKeys(m)
    ensures UniqueKeys(r)
    ensures |r| == |m| || |r| == |m| + 1
  {
    var r := match IndexOf(m, k)
      case Some(i) => m[i := (k, v)]
      case None => m + [(k, v)];
    PutFacts(m, k, v, r);
    r
  }

  /** After `hash[k] = v`, `k` holds `v`, every other key keeps its value, and
      a new key is appended to the key order while a present one keeps its
      place. */
  lemma PutLaws<K(!new), V>(m: OrderedMap<K, V>, k: K, v: V)
    requires UniqueKeys(m)
    ensures Get(Put(m, k, v), k) == Some(v)
    ensures forall k' :: k' != k ==> Get(Put(m, k, v), k') == Get(m, k')
    ensures Keys(Put(m, k, v)) == if k in Keys(m) then Keys(m) else Keys(m) + [k]
  {
    PutFacts(m, k, v, Put(m, k, v));
  }

  lemma PutFacts<K(!new), V>(m: OrderedMap<K, V>, k: K, v: V, r: OrderedMap<K, V>)
    requires UniqueKeys(m)
    requires r == match IndexOf(m, k)
      case Some(i) => m[i := (k, v)]
      case None => m + [(k, v)]
    ensures UniqueKeys(r)
    ensures Get(r, k) == Some(v)
    ensures forall k' :: k' != k ==> Get(r, k') == Get(m, k')
    ensures Keys(r) == if k in Keys(m) then Keys(m) else Keys(m) + [k]
  {
    match IndexOf(m, k)
    case Some(i) => PutPresent(m, k, v, i);
    case None => PutAbsent(m, k, v);
  }

  /** Assigning to the key at position `i` replaces that entry only. */
  lemma PutPresent<K(!new), V>(m: OrderedMap<K, V>, k: K, v: V, i: nat)
    requires UniqueKeys(m) && i < |m| && m[i].0 == k
    ensures UniqueKeys(m[i := (k, v)])
    ensures Get(m[i := (k, v)], k) == Some(v)
    ensures forall k' :: k' != k ==> Get(m[i := (k, v)], k') == Get(m, k')
    ensures k in Keys(m) && Keys(m[i := (k, v)]) == Keys(m)
  {
    var r := m[i := (k, v)];
    assert Keys(m)[i] == k;
    assert forall j :: 0 <= j < |r| ==> r[j].0 == m[j].0;
    assert Keys(r) == Keys(m);
    GetAt(r, i);
    PutOthers(m, k, r);
  }

  /** Assigning to an absent key appends an entry. */
  lemma PutAbsent<K(!new), V>(m: OrderedMap<K, V>, k: K, v: V)
    requires UniqueKeys(m) && k !in Keys(m)
    ensures UniqueKeys(m + [(k, v)])
    ensures Get(m + [(k, v)], k) == Some(v)
    ensures forall k' :: k' != k ==> Get(m + [(k, v)], k') == Get(m, k')
    ensures Keys(m + [(k, v)]) == Keys(m) + [k]
  {
    var r := m + [(k, v)];
    assert Keys(r) == Keys(m) + [k];
    GetAt(r, |m|);
    PutOthers(m, k, r);
  }

  /** Keys other than `k` keep their values when `r` agrees with `m` at every
      position not holding `k`. */
  lemma PutOthers<K(!new), V>(m: OrderedMap<K, V>, k: K, r: OrderedMap<K, V>)
    requires UniqueKeys(m) && UniqueKeys(r) && |m| <= |r|
    requires forall j :: 0 <= j < |m| ==> r[j].0 == m[j].0
    requires forall j :: 0 <= j < |m| && m[j].0 != k ==> r[j] == m[j]
    requires forall j :: |m| <= j < |r| ==> r[j].0 == k
    ensures forall k' :: k' != k ==> Get(r, k') == Get(m, k')
  {
    forall k' | k' != k
      ensures Get(r, k') == Get(m, k')
    {
      match IndexOf(m, k')
      case None =>
        assert k' !in Keys(r);
      case Some(j) =>
        GetAt(m, j);
        GetAt(r, j);
    }
  }

}
