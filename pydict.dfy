/** A Python `dict` as an ordered association list: Python dictionaries iterate in
    insertion order, so the model keeps the pairs in that order. */
module PyDict {
  import opened Wrappers

  type Dict<K, V> = seq<(K, V)>

  /** `list(d.keys())`. */
  function Keys<K, V>(d: Dict<K, V>): (ks: seq<K>)
    ensures |ks| == |d|
    ensures forall i :: 0 <= i < |d| ==> ks[i] == d[i].0
  {
    if |d| == 0 then [] else [d[0].0] + Keys(d[1..])
  }

  /** `list(d.values())`. */
  function Values<K, V>(d: Dict<K, V>): (vs: seq<V>)
    ensures |vs| == |d|
    ensures forall i :: 0 <= i < |d| ==> vs[i] == d[i].1
  {
    if |d| == 0 then [] else [d[0].1] + Values(d[1..])
  }

  /** A real dictionary never holds the same key twice. */
  predicate UniqueKeys<K(==), V>(d: Dict<K, V>) {
    forall i, j :: 0 <= i < j < |d| ==> d[i].0 != d[j].0
  }

  /** `d.get(k)`. */
  function Get<K(==), V>(d: Dict<K, V>, k: K): (r: Option<V>)
    ensures r.None? <==> k !in Keys(d)
    ensures r.Some? ==> exists i :: 0 <= i < |d| && d[i] == (k, r.value)
  {
    if |d| == 0 then None
    else if d[0].0 == k then Some(d[0].1)
    else
      assert forall i :: 0 <= i < |d| - 1 ==> d[1..][i] == d[i + 1];
      Get(d[1..], k)
  }

  /** In a dictionary with unique keys, looking up the key at position `i` finds the value there. */
  lemma {:induction false} GetAt<K, V>(d: Dict<K, V>, i: nat)
    requires UniqueKeys(d) && i < |d|
    ensures Get(d, d[i].0) == Some(d[i].1)
  {
  }

  lemma KeysCons<K, V>(x: (K, V), d: Dict<K, V>)
    ensures Keys([x] + d) == [x.0] + Keys(d)
  {
  }

  lemma GetCons<K, V>(x: (K, V), d: Dict<K, V>, k: K)
    ensures Get([x] + d, k) == if x.0 == k then Some(x.1) else Get(d, k)
  {
  }

  /** `d[k] = v`: an existing key keeps its position and gets the new value; a new key
      is appended at the end. */
  function Set<K(==, !new), V>(d: Dict<K, V>, k: K, v: V): (r: Dict<K, V>)
    ensures k in Keys(d) ==> Keys(r) == Keys(d)
    ensures k !in Keys(d) ==> Keys(r) == Keys(d) + [k]
  {
    if |d| == 0 then [(k, v)]
    else if d[0].0 == k then
      KeysCons((k, v), d[1..]);
      KeysCons(d[0], d[1..]);
      assert d == [d[0]] + d[1..];
      [(k, v)] + d[1..]
    else
      var rest := Set(d[1..], k, v);
      KeysCons(d[0], rest);
      KeysCons(d[0], d[1..]);
      assert d == [d[0]] + d[1..];
      [d[0]] + rest
  }

  /** After `d[k] = v`, `k` maps to `v` and every other key maps to what it did before. */
  lemma {:induction false} SetGet<K(!new), V>(d: Dict<K, V>, k: K, v: V, k': K)
    ensures Get(Set(d, k, v), k') == if k' == k then Some(v) else Get(d, k')
  {
    if |d| > 0 {
      assert d == [d[0]] + d[1..];
      GetCons(d[0], d[1..], k');
      if d[0].0 == k {
        GetCons((k, v), d[1..], k');
      } else {
        SetGet(d[1..], k, v, k');
        GetCons(d[0], Set(d[1..], k, v), k');
      }
    }
  }

  /** `d[k] = v` keeps the keys of a dictionary unique. */
  lemma SetUnique<K(!new), V>(d: Dict<K, V>, k: K, v: V)
    requires UniqueKeys(d)
    ensures UniqueKeys(Set(d, k, v))
  {
  }

  /** `d[k] = v` for a key not yet present appends the pair at the end. */
  lemma {:induction false} SetNew<K(!new), V>(d: Dict<K, V>, k: K, v: V)
    requires k !in Keys(d)
    ensures Set(d, k, v) == d + [(k, v)]
  {
    if |d| > 0 {
      KeysCons(d[0], d[1..]);
      assert d == [d[0]] + d[1..];
      SetNew(d[1..], k, v);
    }
  }
}
