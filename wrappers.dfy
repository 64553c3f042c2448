/** The optional value used wherever the tool meets `NaN`, a missing match or a failed load. */
module Wrappers {
  datatype Option<+T> = None | Some(value: T)
}
