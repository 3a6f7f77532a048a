/** Nullable values and the Java exceptions the modelled code can raise. */
module Wrappers {

  /** A Java reference that may be null: `None` stands for null. */
  datatype Option<+T> = None | Some(value: T)

  /** The unchecked exceptions thrown by the modelled code. */
  datatype Exception = NullPointerException | IndexOutOfBoundsException

  /** The outcome of a Java call: a normal return or a thrown exception. */
  datatype Result<+T> = Ok(value: T) | Throw(exception: Exception)

  /** Java's `String.valueOf(Object)` as used by string concatenation: null prints as "null". */
  function JavaString(s: Option<string>): string
  {
    if s.Some? then s.value else "null"
  }
}
