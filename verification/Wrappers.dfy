// Small shared datatypes.
module Wrappers {

  // A value that may be absent: a nil pointer, an undefined, a missing map key.
  datatype Option<+T> = None | Some(value: T)

  // What a Go map or a JavaScript Map answers for a key.
  function Lookup<K, V>(m: map<K, V>, k: K): Option<V> {
    if k in m then Some(m[k]) else None
  }

  function Max(a: int, b: int): int {
    if a < b then b else a
  }

  function Min(a: int, b: int): int {
    if a < b then a else b
  }
}
