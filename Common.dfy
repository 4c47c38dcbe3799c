/** Optional values, standing for Python's None and JavaScript's undefined. */
module Common {

  datatype Option<T> = None | Some(value: T) {
    /** dict.get(key, default) and `x || default` for a value that may be absent. */
    function GetOr(default: T): T {
      if Some? then value else default
    }
  }

  /** The truth value of an optional string in Python and JavaScript: present and not empty. */
  predicate Truthy(x: Option<string>) {
    x.Some? && x.value != ""
  }
}
