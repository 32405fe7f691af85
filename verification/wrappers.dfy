/** Optional values: Python's `None` versus a present value. */
module Wrappers {

  datatype Option<+T> = None | Some(value: T) {

    /** The present value, or `default` for `None` (Python's `d.get(k, default)`). */
    function GetOr(default: T): T {
      match this
      case Some(v) => v
      case None => default
    }
  }

  /** Python's `d.get(k, default)`. */
  function GetOr<K, V>(m: map<K, V>, k: K, default: V): V {
    if k in m then m[k] else default
  }
}
