/** The optional value used wherever JavaScript answers `null` or `undefined`. */
module Wrappers {

  datatype Option<+T> = None | Some(value: T)

  /** `map.get(key)`: the value under `key`, or None when the key is absent. */
  function Get<K, V>(m: map<K, V>, key: K): (r: Option<V>)
    ensures r.Some? <==> key in m
    ensures r.Some? ==> r.value == m[key]
  {
    if key in m then Some(m[key]) else None
  }
}
