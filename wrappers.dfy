/** The optional value used for fields and fetches that may be absent. */
module Wrappers {

  /** Absent (`undefined` / `null`) or present. */
  datatype Option<+T> = None | Some(value: T)
}
