/**
  Python's `dict` as the program relies on it: lookups by key, and iteration in
  the order in which keys were first inserted. Assigning to a key that is already
  present replaces its value and leaves the key where it was.
 */
module Dicts {

  /** The keys in insertion order, and the key-to-value mapping. */
  datatype Dict<K, V> = Dict(keys: seq<K>, items: map<K, V>)
  {
    /** Every key occurs once in `keys`, and `keys` lists exactly the keys of `items`. */
    ghost predicate Valid()
    {
      Distinct(keys) && (forall k | k in items :: k in keys) && (forall k | k in keys :: k in items)
    }

    /** `d[k] = v`. */
    function Put(k: K, v: V): (r: Dict<K, V>)
      requires Valid()
      ensures r.Valid()
      ensures r.items == items[k := v]
      ensures r.keys == if k in items then keys else keys + [k]
    {
      if k in items then Dict(keys, items[k := v]) else Dict(keys + [k], items[k := v])
    }

    /** `d.values()`, in key order. */
    function Values(): (vs: seq<V>)
      requires Valid()
      ensures |vs| == |keys|
      ensures forall i :: 0 <= i < |keys| ==> vs[i] == items[keys[i]]
    {
      seq(|keys|, i requires 0 <= i < |keys| => items[keys[i]])
    }
  }

  /** `{}`. */
  function Empty<K, V>(): (d: Dict<K, V>)
    ensures d.Valid() && d.keys == [] && d.items == map[]
  {
    Dict([], map[])
  }

  ghost predicate Distinct<T>(xs: seq<T>)
  {
    forall i, j :: 0 <= i < j < |xs| ==> xs[i] != xs[j]
  }

  /** The elements of `xs` without repetitions, each where it first occurs. */
  function FirstOccurrences<T(==)>(xs: seq<T>): (r: seq<T>)
    ensures Distinct(r)
    ensures forall x | x in r :: x in xs
    ensures forall x | x in xs :: x in r
  {
    if xs == [] then []
    else
      var r := FirstOccurrences(xs[..|xs| - 1]);
      if xs[|xs| - 1] in r then r else r + [xs[|xs| - 1]]
  }

  /** Adding one more element to the scanned sequence extends its first occurrences accordingly. */
  lemma FirstOccurrencesSnoc<T>(xs: seq<T>, x: T)
    ensures FirstOccurrences(xs + [x])
            == if x in xs then FirstOccurrences(xs) else FirstOccurrences(xs) + [x]
  {
    assert (xs + [x])[..|xs|] == xs;
  }
}
