/**
 * A Python `dict[str, str]` with its insertion order: assigning to a new
 * key appends it, assigning to an existing key keeps its position, and
 * iteration visits the keys in that order.
 */
module PyDict {

  datatype Dict = Dict(keys: seq<string>, entries: map<string, string>)

  predicate NoDuplicates(ks: seq<string>) {
    forall i, j :: 0 <= i < j < |ks| ==> ks[i] != ks[j]
  }

  /** The order lists every key of the mapping exactly once. */
  ghost predicate Valid(d: Dict) {
    && NoDuplicates(d.keys)
    && (forall k :: k in d.entries <==> k in d.keys)
  }

  /** `{}` */
  const Empty: Dict := Dict([], map[])

  /** `d[k] = v` */
  function Set(d: Dict, k: string, v: string): (r: Dict)
    requires Valid(d)
    ensures Valid(r)
    ensures r.entries == d.entries[k := v]
    ensures |d.keys| <= |r.keys| && r.keys[..|d.keys|] == d.keys
  {
    if k in d.entries then Dict(d.keys, d.entries[k := v])
    else Dict(d.keys + [k], d.entries[k := v])
  }

  /** `d.setdefault(k, v)`, result discarded. */
  function SetDefault(d: Dict, k: string, v: string): (r: Dict)
    requires Valid(d)
    ensures Valid(r)
    ensures k in r.entries
    ensures k in d.entries ==> r == d
    ensures k !in d.entries ==> r.entries == d.entries[k := v]
    ensures |d.keys| <= |r.keys| && r.keys[..|d.keys|] == d.keys
  {
    if k in d.entries then d else Set(d, k, v)
  }

  /** `d.get(k, default)` */
  function Get(d: Dict, k: string, default: string): (v: string)
  {
    if k in d.entries then d.entries[k] else default
  }
}
