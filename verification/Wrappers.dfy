/** What the model uses in place of `null` and `throw`, and a lookup in a map. */
module Wrappers {
  datatype Option<+T> = None | Some(value: T)

  datatype Result<+T, +E> = Ok(value: T) | Err(error: E)

  predicate MapsTo<K, V(==)>(m: map<K, V>, key: K, value: V) {
    key in m && m[key] == value
  }
}
