/** Optional values (C# null) and results of operations that may throw. */
module Wrappers {

  /** A nullable value: `None` stands for C#'s `null`. */
  datatype Option<+T> = None | Some(value: T)

  /** The outcome of an operation that either returns a value or throws an
      exception carrying a message. */
  datatype Result<+T> = Ok(value: T) | Err(error: string)
}
