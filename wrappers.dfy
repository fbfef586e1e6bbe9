/** Optional values (Java's nullable references) and results (a value or the exception that replaced it). */
module Wrappers {

  /** `None` stands for a Java `null`. */
  datatype Option<+T> = None | Some(value: T)

  /** `Err` stands for an exception thrown instead of returning a value. */
  datatype Result<+T, +E> = Ok(value: T) | Err(error: E)
}
