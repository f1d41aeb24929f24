/** Failure-carrying wrappers shared by every module of the model. */
module Common {

  /** A value that may be absent: a missing dictionary key, a hook that returned nothing. */
  datatype Option<+T> = None | Some(value: T)

  /** The outcome of a stage that can abort the run with an error. */
  datatype Result<+T, +E> = Ok(value: T) | Err(error: E)

  /** Python's `m.get(k)`. */
  function Get<K, V>(m: map<K, V>, k: K): (r: Option<V>)
    ensures r.Some? <==> k in m
    ensures r.Some? ==> r.value == m[k]
  {
    if k in m then Some(m[k]) else None
  }
}
