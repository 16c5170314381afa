/** Values that may be missing. */
module Wrappers {

  datatype Option<+T> = None | Some(value: T)

  function At<K, V>(m: map<K, V>, k: K): Option<V> {
    if k in m then Some(m[k]) else None
  }
}
