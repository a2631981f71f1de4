/** Values shared by every part of the model. */
module Basics {

  /** A Java reference that may be null: `None` stands for null. */
  datatype Option<+T> = None | Some(value: T)

  /** The outcome of a service call: the value it returns, or the exception it throws. */
  datatype Result<+T, +E> = Success(value: T) | Failure(error: E)

  /** A `java.util.Date`, as milliseconds since the epoch. */
  type Date = int

  /** A Java `String` field, which may be null. */
  type NullableString = Option<string>

  /** A Java `Date` field, which may be null. */
  type NullableDate = Option<Date>

  /** What `String.format("%s", s)` prints for a possibly-null string. */
  function Show(s: NullableString): string
  {
    match s
    case None => "null"
    case Some(v) => v
  }
}
