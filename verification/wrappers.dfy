/** Small shared vocabulary: Python's `None`-or-value and `dict.get`. */
module Wrappers {

  /** A Python `Optional[T]`: either `None` or a value. */
  datatype Option<+T> = None | Some(value: T)

  /** Python's `d.get(key, default)` on a map. */
  function GetOr<K, V>(m: map<K, V>, key: K, default: V): (v: V)
    ensures key in m ==> v == m[key]
    ensures key !in m ==> v == default
  {
    if key in m then m[key] else default
  }

  /** Python's `max(a, b)` on integers. */
  function Max(a: int, b: int): (m: int)
    ensures m >= a && m >= b
    ensures m == a || m == b
  {
    if a >= b then a else b
  }
}
