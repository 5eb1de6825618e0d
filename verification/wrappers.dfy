/** The optional-value datatype the rest of the model uses in place of
    Python's "maybe missing" values and caught exceptions. */
module Wrappers {

  datatype Option<+T> = None | Some(value: T) {

    /** Like Python's `dict.get(key, fallback)`: the fallback stands in for
        a missing value. */
    function GetOr(default: T): T {
      match this
      case Some(v) => v
      case None => default
    }
  }
}
