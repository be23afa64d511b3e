/**
  Python dictionaries remember insertion order, and the analyzer's results
  expose that order (the prefix table it iterates, the per-prefix result
  mapping, the deduplicated commit list). `Dict` keeps the keys in insertion
  order beside the key-to-value table.
 */
module Dicts {

  predicate Distinct<K(==)>(ks: seq<K>) {
    forall i, j :: 0 <= i < j < |ks| ==> ks[i] != ks[j]
  }

  /** The elements of `ks` in order of first occurrence (the key order of a dict filled from `ks`). */
  function FirstOccurrences<K(==,!new)>(ks: seq<K>): (r: seq<K>)
    ensures Distinct(r)
    ensures forall k :: k in r <==> k in ks
    decreases |ks|
  {
    if ks == [] then []
    else
      var r0 := FirstOccurrences(ks[..|ks| - 1]);
      var last := ks[|ks| - 1];
      assert ks == ks[..|ks| - 1] + [last];
      if last in r0 then r0 else r0 + [last]
  }

  datatype Dict<K(==,!new), V> = Dict(keys: seq<K>, table: map<K, V>) {

    /** The keys are distinct and are exactly the keys of the table. */
    ghost predicate Valid() {
      && Distinct(keys)
      && (forall k :: k in table <==> k in keys)
    }

    /** `d[k] = v`: an existing key keeps its position, a new key goes last. */
    function Put(k: K, v: V): (d: Dict<K, V>)
      requires Valid()
      ensures d.Valid()
      ensures d.table == table[k := v]
      ensures k in table ==> d.keys == keys
      ensures k !in table ==> d.keys == keys + [k]
    {
      Dict(if k in table then keys else keys + [k], table[k := v])
    }

    /** `list(d.values())`. */
    function Values(): (vs: seq<V>)
      requires Valid()
      ensures |vs| == |keys|
      ensures forall i :: 0 <= i < |keys| ==> vs[i] == table[keys[i]]
    {
      seq(|keys|, i requires 0 <= i < |keys| => table[keys[i]])
    }

    /** `{k: v for k, v in d.items() if keep(v)}`. */
    function Where(keep: V -> bool): (d: Dict<K, V>)
      requires Valid()
      ensures d.Valid()
      ensures forall k :: k in d.table <==> k in table && keep(table[k])
      ensures forall k :: k in d.table ==> d.table[k] == table[k]
      ensures d.keys == KeysWhere(keys, table, keep)
    {
      Dict(KeysWhere(keys, table, keep), map k | k in table && keep(table[k]) :: table[k])
    }
  }

  /** The keys, in order, whose value satisfies `keep`. */
  function KeysWhere<K(==,!new), V>(ks: seq<K>, table: map<K, V>, keep: V -> bool): (r: seq<K>)
    requires forall k :: k in ks ==> k in table
    ensures forall k :: k in r <==> k in ks && keep(table[k])
    ensures Distinct(ks) ==> Distinct(r)
    decreases |ks|
  {
    if ks == [] then []
    else
      var rest := KeysWhere(ks[1..], table, keep);
      assert forall k :: k in ks[1..] ==> k in ks;
      assert Distinct(ks) ==> ks[0] !in ks[1..];
      if keep(table[ks[0]]) then [ks[0]] + rest else rest
  }

  function Empty<K(==,!new), V>(): (d: Dict<K, V>)
    ensures d.Valid() && d.keys == [] && d.table == map[]
  {
    Dict([], map[])
  }

  /** `{k: v for k in ks}`. */
  function FromKeys<K(==,!new), V>(ks: seq<K>, v: V): (d: Dict<K, V>)
    ensures d.Valid()
    ensures d.keys == FirstOccurrences(ks)
    ensures forall k :: k in d.table <==> k in ks
    ensures forall k :: k in d.table ==> d.table[k] == v
    decreases |ks|
  {
    if ks == [] then Empty()
    else
      assert ks == ks[..|ks| - 1] + [ks[|ks| - 1]];
      FromKeys(ks[..|ks| - 1], v).Put(ks[|ks| - 1], v)
  }
}
