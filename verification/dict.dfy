/** A Python `dict`: a finite map that remembers the order in which its keys
    were first inserted. Assigning to an existing key keeps its position;
    assigning to a new key appends it. */
module Dict {
  import opened Basics

  datatype Dict<K, V> = Dict(keys: seq<K>, vals: map<K, V>)

  /** Keys are pairwise distinct and are exactly the keys of the map. */
  ghost predicate Valid<K(!new), V>(d: Dict<K, V>) {
    && (forall i, j :: 0 <= i < j < |d.keys| ==> d.keys[i] != d.keys[j])
    && (forall k :: k in d.vals <==> k in d.keys)
  }

  function Empty<K(!new), V>(): (d: Dict<K, V>)
    ensures Valid(d)
    ensures d.keys == []
  {
    Dict([], map[])
  }

  /** `d.get(k)`: the stored value, or None when `k` is absent. */
  function Get<K(!new), V>(d: Dict<K, V>, k: K): Option<V> {
    if k in d.vals then Some(d.vals[k]) else None
  }

  /** `d[k] = v`. */
  function Put<K(!new), V>(d: Dict<K, V>, k: K, v: V): (r: Dict<K, V>)
    requires Valid(d)
    ensures Valid(r)
    ensures r.vals == d.vals[k := v]
    ensures k in d.vals ==> r.keys == d.keys
    ensures k !in d.vals ==> r.keys == d.keys + [k]
  {
    if k in d.vals then Dict(d.keys, d.vals[k := v])
    else Dict(d.keys + [k], d.vals[k := v])
  }

  /** `{ks[i]: vs[i] for i in range(len(ks))}` for distinct keys `ks`. */
  function Zip<K(!new), V>(ks: seq<K>, vs: seq<V>): (d: Dict<K, V>)
    requires |ks| == |vs|
    requires forall i, j :: 0 <= i < j < |ks| ==> ks[i] != ks[j]
    ensures Valid(d) && d.keys == ks
    ensures forall i :: 0 <= i < |ks| ==> d.vals[ks[i]] == vs[i]
  {
    Dict(ks, map i | 0 <= i < |ks| :: ks[i] := vs[i])
  }

  /** `list(d.items())`: the entries in insertion order. */
  function Items<K(!new), V>(d: Dict<K, V>): (r: seq<(K, V)>)
    requires Valid(d)
    ensures |r| == |d.keys|
    ensures forall i :: 0 <= i < |r| ==> r[i].0 == d.keys[i] && r[i].1 == d.vals[d.keys[i]]
  {
    seq(|d.keys|, i requires 0 <= i < |d.keys| => (d.keys[i], d.vals[d.keys[i]]))
  }

  /** A dict has no keys exactly when it has no entries. */
  lemma NoEntries<K(!new), V>(d: Dict<K, V>)
    requires Valid(d)
    ensures (forall k :: k !in d.vals) <==> d.keys == []
  {
    assert |d.keys| > 0 ==> d.keys[0] in d.vals;
  }

  /** In a dict whose keys extend another's, a key past the shorter
      sequence is not a key of the other dict. */
  lemma FreshBeyondPrefix<K(!new), V, W>(a: Dict<K, V>, b: Dict<K, W>, j: nat)
    requires Valid(a) && Valid(b)
    requires a.keys <= b.keys && |a.keys| <= j < |b.keys|
    ensures b.keys[j] !in a.vals
  {
    forall i | 0 <= i < |a.keys|
      ensures a.keys[i] != b.keys[j]
    {
      assert b.keys[i] == a.keys[i];
    }
  }

  /** Every listed key has an entry. */
  lemma KeysHaveEntries<K(!new), V>(d: Dict<K, V>)
    requires Valid(d)
    ensures forall i :: 0 <= i < |d.keys| ==> d.keys[i] in d.vals
  {
  }
}
