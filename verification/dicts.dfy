/** Python's dict: a map that remembers the order in which its keys were first inserted.
    Assigning to a present key keeps its position; deleting a key removes it from the order. */
module Dicts {

  predicate Distinct(s: seq<string>) {
    forall i, j :: 0 <= i < j < |s| ==> s[i] != s[j]
  }

  /** `s` without any occurrence of `k`, order otherwise kept. */
  function Without(s: seq<string>, k: string): (r: seq<string>)
    ensures forall x :: x in r <==> x in s && x != k
    ensures Distinct(s) ==> Distinct(r)
    ensures k !in s ==> r == s
  {
    if s == [] then []
    else if s[0] == k then Without(s[1..], k)
    else
      assert Distinct(s) ==> Distinct(s[1..]) && s[0] !in s[1..];
      [s[0]] + Without(s[1..], k)
  }

  datatype Dict<V> = Dict(keys: seq<string>, entries: map<string, V>) {

    /** The keys are listed once each, and exactly the keys of the entries are listed. */
    ghost predicate Valid() {
      Distinct(keys) && forall k :: k in entries <==> k in keys
    }

    /** d[k] = v */
    function Put(k: string, v: V): (d: Dict<V>)
      ensures Valid() ==> d.Valid()
      ensures d.entries == entries[k := v]
      ensures d.keys == if k in entries then keys else keys + [k]
    {
      Dict(if k in entries then keys else keys + [k], entries[k := v])
    }

    /** del d[k], for a key that is present. */
    function Remove(k: string): (d: Dict<V>)
      ensures Valid() ==> d.Valid()
      ensures d.entries == entries - {k}
      ensures d.keys == Without(keys, k)
    {
      Dict(Without(keys, k), entries - {k})
    }

    /** d.values(), in key order. */
    function Values(): (vs: seq<V>)
      requires Valid()
      ensures |vs| == |keys|
      ensures forall i :: 0 <= i < |keys| ==> vs[i] == entries[keys[i]]
    {
      seq(|keys|, i requires 0 <= i < |keys| => entries[keys[i]])
    }
  }

  function Empty<V>(): (d: Dict<V>)
    ensures d.Valid() && d.keys == [] && d.entries == map[]
  {
    Dict([], map[])
  }
}
