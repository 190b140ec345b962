/** Optional values: the model's stand-in for `undefined` and `null`. */
module Wrappers {

  datatype Option<+T> = None | Some(value: T) {

    /** The value, or `default` when absent (the `??` operator). */
    function GetOr(default: T): T {
      match this
      case Some(v) => v
      case None => default
    }
  }

  /** The first element of a sequence, or None for the empty one (`s[0] ?? null`). */
  function Head<T>(s: seq<T>): (r: Option<T>)
    ensures r.None? <==> s == []
    ensures r.Some? ==> r.value == s[0] && r.value in s
  {
    if s == [] then None else Some(s[0])
  }
}
