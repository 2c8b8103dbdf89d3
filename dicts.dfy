/**
 * A Python dict from strings to values, as the scraper uses it for a mission
 * record: a map plus the order in which keys were first inserted (json.dump
 * writes the keys in that order).  Assigning to an existing key replaces its
 * value and keeps its position; assigning to a new key appends it.
 */
module Dicts {

  /** The values a record holds: strings from the page, and the integer id. */
  datatype Value = Str(s: string) | Num(n: int)

  datatype Dict = Dict(keys: seq<string>, entries: map<string, Value>)

  /** The keys are distinct and are exactly the keys of the map. */
  ghost predicate WellFormed(d: Dict) {
    && (forall i, j :: 0 <= i < j < |d.keys| ==> d.keys[i] != d.keys[j])
    && (forall k :: k in d.entries <==> k in d.keys)
  }

  /** The literal {k: v}. */
  function Singleton(k: string, v: Value): (d: Dict)
    ensures WellFormed(d)
    ensures d.entries == map[k := v]
  {
    Dict([k], map[k := v])
  }

  /** d[k] = v. */
  function Put(d: Dict, k: string, v: Value): (r: Dict)
    ensures WellFormed(d) ==> WellFormed(r)
    ensures r.entries == d.entries[k := v]
    ensures k in d.entries ==> r.keys == d.keys
    ensures k !in d.entries ==> r.keys == d.keys + [k]
  {
    if k in d.entries then Dict(d.keys, d.entries[k := v])
    else Dict(d.keys + [k], d.entries[k := v])
  }

  /** Assigning v to k changes the value of k and of no other key, and keeps the
      position of every key that was already present. */
  lemma PutFrame(d: Dict, k: string, v: Value)
    requires WellFormed(d)
    ensures k in Put(d, k, v).entries && Put(d, k, v).entries[k] == v
    ensures forall k' :: k' != k ==> (k' in Put(d, k, v).entries <==> k' in d.entries)
    ensures forall k' :: k' != k && k' in d.entries ==> Put(d, k, v).entries[k'] == d.entries[k']
    ensures |d.keys| <= |Put(d, k, v).keys| && Put(d, k, v).keys[..|d.keys|] == d.keys
  {
    if k !in d.entries {
      assert (d.keys + [k])[..|d.keys|] == d.keys;
    }
  }
}
