/** Java's `null` and the exceptions the core throws, as values. */
module Outcomes {
  import opened JavaLang

  /** A Java reference that may be `null` (`None`). */
  datatype Option<T> = None | Some(value: T)

  /** A column name. Java lets it be `null`: a column made without a name
      is added to a header under `null`. */
  type Name = Option<JString>

  /** How an error message names a column: by position or by name. */
  datatype ColumnRef = AtIndex(index: int) | Named(name: Name)

  datatype Error =
    /** `IndexOutOfBoundsException` from an array, a list or `charAt`. */
    | IndexOutOfBounds(index: int)
    | NullPointer
    /** `IllegalArgumentException("header index out of bounds ...")`. */
    | HeaderIndexOutOfBounds(index: int, last: int)
    /** `IllegalArgumentException("header name not found ...")`. */
    | HeaderNameNotFound(name: Name)
    | NoStringValue(col: int)
    | NoBooleanValue(col: int, shown: JString)
    | NoIntValue(column: ColumnRef, shown: JString)

  /** The result of a Java method that returns a value or throws. */
  datatype Result<T> = Ok(value: T) | Err(error: Error)

  /** The result of a Java method that returns nothing or throws. */
  datatype Outcome = Pass | Fail(error: Error)
}
