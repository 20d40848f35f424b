/** Small failure-compatible wrappers used across the model. */
module Wrappers {

  /** A value or nothing; `None` stands for JavaScript's `null`. */
  datatype Option<+T> = None | Some(value: T)

  /** A value, or the range error the source raises on an unusable start cell. */
  datatype Result<+T> = Ok(value: T) | RangeError
}
