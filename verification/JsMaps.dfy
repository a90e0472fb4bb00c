// The insertion-ordered Map of the browser: setting a present key keeps its place, setting an
// absent one appends it, iteration follows the order of the keys.
module JsMaps {

  datatype JsMap<K(==,!new), V> = JsMap(keys: seq<K>, vals: map<K, V>) {

    ghost predicate Valid() {
      && (forall i, j :: 0 <= i < j < |keys| ==> keys[i] != keys[j])
      && (forall k :: k in keys <==> k in vals)
    }

    predicate Has(k: K) { k in vals }

    function Size(): nat { |keys| }

    function Set(k: K, v: V): (r: JsMap<K, V>)
      requires Valid()
      ensures r.Valid() && r.vals == vals[k := v]
      ensures r.keys == if k in vals then keys else keys + [k]
    {
      JsMap(if k in vals then keys else keys + [k], vals[k := v])
    }

    function Delete(k: K): (r: JsMap<K, V>)
      requires Valid()
      ensures r.Valid() && r.vals == vals - {k}
      ensures k !in vals ==> r == this
    {
      DeleteKeepsOthers(keys, k);
      assert k !in vals ==> vals - {k} == vals;
      JsMap(Without(keys, k), vals - {k})
    }
  }

  function Empty<K(==,!new), V>(): (r: JsMap<K, V>)
    ensures r.Valid()
  {
    JsMap([], map[])
  }

  // A sequence without one of its elements, the others in place.
  function Without<K(==)>(keys: seq<K>, k: K): seq<K>
  {
    if keys == [] then []
    else if keys[0] == k then Without(keys[1..], k)
    else [keys[0]] + Without(keys[1..], k)
  }

  lemma {:induction false} DeleteKeepsOthers<K(!new)>(keys: seq<K>, k: K)
    requires forall i, j :: 0 <= i < j < |keys| ==> keys[i] != keys[j]
    ensures var r := Without(keys, k);
            && (forall i, j :: 0 <= i < j < |r| ==> r[i] != r[j])
            && (forall x :: x in r <==> x in keys && x != k)
            && |r| == |keys| - (if k in keys then 1 else 0)
            && (k !in keys ==> r == keys)
            && (keys != [] && keys[0] == k ==> r == keys[1..])
  {
    if keys != [] {
      DeleteKeepsOthers(keys[1..], k);
      assert keys == [keys[0]] + keys[1..];
      var rest := Without(keys[1..], k);
      assert forall j :: 0 <= j < |rest| ==> rest[j] in rest;
      assert keys[0] !in keys[1..];
    }
  }
}
