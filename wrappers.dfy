/** Python's `None`: an optional value. */
module Wrappers {

  datatype Option<+T> = None | Some(value: T)

  /** `x or d`: the value, or a default when it is `None`. */
  function GetOr<T>(o: Option<T>, d: T): T
  {
    if o.Some? then o.value else d
  }
}
