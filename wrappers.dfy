/** Optional values and results with an error, used for Java's Optional and for
    operations that end in an exception. */
module Wrappers {

  /** Java's Optional: a present value or nothing. */
  datatype Option<+T> = None | Some(value: T)

  /** The one checked exception of the file format: the text is malformed. */
  datatype FormatError = GameFileFormatError

  /** The outcome of an operation that either yields a value or throws a format error. */
  datatype Result<+T> = Ok(value: T) | Err(error: FormatError)
}
