/** Optional values and success/failure outcomes, used where the source
    returns None or raises an exception. */
module Results {

  datatype Option<T> = None | Some(value: T) {
    /** The value, or `default` when there is none (Python's `d.get(k, default)`). */
    function GetOr(default: T): T {
      match this
      case Some(v) => v
      case None => default
    }
  }

  /** Python's `d.get(key, default)` on a dictionary. */
  function Get<K, V>(d: map<K, V>, key: K, default: V): (v: V)
    ensures key in d ==> v == d[key]
    ensures key !in d ==> v == default
  {
    if key in d then d[key] else default
  }

  /** `Failure` stands for a raised exception; `error` carries what the handler sees. */
  datatype Result<T, E> = Success(value: T) | Failure(error: E)
}
