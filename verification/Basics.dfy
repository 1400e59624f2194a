/** What every other module uses. */
module Basics {
  /** A value, or the lack of one: `npos`, a failed search, a missing file. */
  datatype Option<+T> = None | Some(value: T)
}
