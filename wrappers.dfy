/** An optional value: a line that yields no domain, or a `parseInt` that
    yields NaN. */
module Wrappers {

  datatype Option<+T> = None | Some(value: T)
}
