/** Option: a value that may be absent. It stands for JavaScript's
    `null`/`undefined` wherever the program tests for them. */
module Wrappers {

  datatype Option<+T> = None | Some(value: T)

  /** Looks a key up in a map. */
  function Get<K, V>(m: map<K, V>, k: K): (r: Option<V>)
    ensures r.Some? <==> k in m
    ensures r.Some? ==> r.value == m[k]
  {
    if k in m then Some(m[k]) else None
  }
}
