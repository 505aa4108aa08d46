/** Optional values, results and pass/fail outcomes, standing for Java's `null`,
    return-or-throw and void-or-throw. */
module Wrappers {

  /** A value that may be absent: `None` is Java's `null`. */
  datatype Option<+T> = None | Some(value: T)

  /** A method that either returns `value` or throws `error`. */
  datatype Result<+T, +E> = Ok(value: T) | Err(error: E)

  /** A void method that either completes (`Pass`) or throws `error`. */
  datatype Outcome<+E> = Pass | Fail(error: E)
}
