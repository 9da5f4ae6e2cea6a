/** Python's `None`-or-value results, as returned by `resolve_url`. */
module Wrappers {

  datatype Option<+T> = None | Some(value: T)
}
