/** Optional values and map lookup, shared by the other modules. */
module Wrappers {

  /** Rust's `Option<T>`: a dense-store slot, or the outcome of a lookup or removal. */
  datatype Option<T> = None | Some(value: T)

  /** The value stored under `k` in `c`, or `None` when `k` is absent. */
  function Lookup<K, V>(c: map<K, V>, k: K): Option<V>
  {
    if k in c then Some(c[k]) else None
  }
}
