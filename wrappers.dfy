/** The JavaScript `null`-or-value convention of the archive's scripts. */
module Wrappers {

  /** `None` stands for JavaScript's `null` (or `undefined`). */
  datatype Option<+T> = None | Some(value: T)
}
