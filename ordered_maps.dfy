/**
 * Insertion-ordered maps, the behaviour of a Python dict: assigning to a new
 * key appends it, assigning to an existing key keeps its position, and
 * deleting a key closes the gap.
 */
module OrderedMaps {

  ghost predicate Distinct<K>(s: seq<K>) {
    forall i, j :: 0 <= i < j < |s| ==> s[i] != s[j]
  }

  /** `s` with `k` taken out, the other elements in their order. */
  function Without<K(==,!new)>(s: seq<K>, k: K): (r: seq<K>)
    ensures forall x :: x in r <==> x in s && x != k
    ensures Distinct(s) ==> Distinct(r)
    ensures k !in s ==> r == s
  {
    if s == [] then []
    else if s[0] == k then Without(s[1..], k)
    else
      var rest := Without(s[1..], k);
      assert Distinct(s) ==> Distinct(s[1..]) && s[0] !in s[1..] by {
        if Distinct(s) {
          forall i, j | 0 <= i < j < |s[1..]| ensures s[1..][i] != s[1..][j] {
            assert s[1..][i] == s[i + 1] && s[1..][j] == s[j + 1];
          }
        }
      }
      [s[0]] + rest
  }

  /** Taking a key out of a duplicate-free key list just closes the gap at its position. */
  lemma {:induction false} WithoutAt<K(!new)>(s: seq<K>, i: nat)
    requires Distinct(s) && i < |s|
    ensures Without(s, s[i]) == s[..i] + s[i + 1..]
  {
    if i == 0 {
      assert s[0] !in s[1..];
    } else {
      assert s[0] != s[i];
      WithoutAt(s[1..], i - 1);
      assert s[1..][..i - 1] == s[1..i];
      assert [s[0]] + s[1..i] == s[..i];
    }
  }

  datatype OrderedMap<K(==,!new), V> = OrderedMap(keys: seq<K>, entries: map<K, V>) {

    /** The keys list holds each key of `entries` exactly once. */
    ghost predicate Valid() {
      Distinct(keys) && forall k :: k in entries <==> k in keys
    }

    /** `d[k] = v`. */
    function Put(k: K, v: V): (r: OrderedMap<K, V>)
      ensures r.entries == entries[k := v]
      ensures k in entries ==> r.keys == keys
      ensures k !in entries ==> r.keys == keys + [k]
      ensures Valid() ==> r.Valid()
    {
      OrderedMap(if k in entries then keys else keys + [k], entries[k := v])
    }

    /** `del d[k]`. */
    function Remove(k: K): (r: OrderedMap<K, V>)
      ensures r.entries == entries - {k}
      ensures Valid() ==> r.Valid()
      ensures forall x :: x in r.keys <==> x in keys && x != k
    {
      OrderedMap(Without(keys, k), entries - {k})
    }
  }

  /** Deleting a key that was just added restores the dict, order included. */
  lemma RemovePut<K(!new), V>(m: OrderedMap<K, V>, k: K, v: V)
    requires m.Valid() && k !in m.entries
    ensures m.Put(k, v).Remove(k) == m
  {
    var s := m.keys + [k];
    assert m.Put(k, v).Valid();
    WithoutAt(s, |m.keys|);
    assert s[..|m.keys|] == m.keys && s[|m.keys| + 1..] == [];
    assert m.entries[k := v] - {k} == m.entries;
  }

  function Empty<K(==,!new), V>(): (r: OrderedMap<K, V>)
    ensures r.Valid() && r.keys == [] && r.entries == map[]
  {
    OrderedMap([], map[])
  }
}
