/** An insertion-ordered dictionary with string keys, as Python's `dict` is:
    iteration follows first insertion, and assigning an existing key replaces
    its value without moving it. */
module OrderedMaps {

  datatype OMap<V> = OMap(keys: seq<string>, vals: map<string, V>)
  {
    /** The order lists every key exactly once. */
    ghost predicate Valid()
    {
      && (forall i, j :: 0 <= i < j < |keys| ==> keys[i] != keys[j])
      && (forall k :: k in vals <==> k in keys)
    }

    /** `d[k] = v` */
    function Put(k: string, v: V): (m: OMap<V>)
      requires Valid()
      ensures m.Valid()
      ensures m.vals == vals[k := v]
      ensures k in vals ==> m.keys == keys
      ensures k !in vals ==> m.keys == keys + [k]
    {
      if k in vals then OMap(keys, vals[k := v]) else OMap(keys + [k], vals[k := v])
    }

    /** Replaces the value of a key that is present, keeping the order. */
    function Set(k: string, v: V): (m: OMap<V>)
      requires k in vals
      ensures m.keys == keys && m.vals == vals[k := v]
    {
      OMap(keys, vals[k := v])
    }
  }

  function Empty<V>(): (m: OMap<V>)
    ensures m.Valid() && m.keys == [] && m.vals == map[]
  {
    OMap([], map[])
  }

  /** `cur` is `orig` with the values of its first i keys, in key order,
      replaced by those of `target`. */
  ghost predicate UpdatedUpTo<V>(orig: OMap<V>, target: map<string, V>, i: nat, cur: OMap<V>)
    requires i <= |orig.keys|
  {
    && cur.keys == orig.keys && cur.vals.Keys == orig.vals.Keys
    && (forall q :: 0 <= q < i ==> orig.keys[q] in target && orig.keys[q] in cur.vals && cur.vals[orig.keys[q]] == target[orig.keys[q]])
    && (forall q :: i <= q < |orig.keys| ==> orig.keys[q] in orig.vals && cur.vals[orig.keys[q]] == orig.vals[orig.keys[q]])
  }

  lemma UpdateStep<V>(orig: OMap<V>, target: map<string, V>, i: nat, cur: OMap<V>)
    requires orig.Valid() && i < |orig.keys| && orig.keys[i] in target
    requires UpdatedUpTo(orig, target, i, cur)
    ensures orig.keys[i] in cur.vals && cur.vals[orig.keys[i]] == orig.vals[orig.keys[i]]
    ensures UpdatedUpTo(orig, target, i + 1, cur.Set(orig.keys[i], target[orig.keys[i]]))
  {
    var k := orig.keys[i];
    var next := cur.Set(k, target[k]);
    forall q | 0 <= q < i + 1 ensures next.vals[orig.keys[q]] == target[orig.keys[q]] {
      if q < i { assert orig.keys[q] != k; }
    }
    forall q | i + 1 <= q < |orig.keys| ensures next.vals[orig.keys[q]] == orig.vals[orig.keys[q]] {
      assert orig.keys[q] != k;
    }
  }

  /** Once every key is updated, every value is the target's. */
  lemma UpdatedAll<V>(orig: OMap<V>, target: map<string, V>, cur: OMap<V>)
    requires orig.Valid() && UpdatedUpTo(orig, target, |orig.keys|, cur)
    ensures cur.Valid() && cur.keys == orig.keys && cur.vals.Keys == orig.vals.Keys
    ensures forall k :: k in orig.vals ==> k in target && cur.vals[k] == target[k]
  {
    forall k | k in orig.vals ensures k in target && cur.vals[k] == target[k] {
      var q :| 0 <= q < |orig.keys| && orig.keys[q] == k;
    }
  }
}
