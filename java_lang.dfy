/**
 * The few pieces of the Java platform that the time column relies on:
 * 32-bit `int`, `Integer.compare`, nullable references, and the
 * exceptions its operations can raise, modelled as values.
 */
module JavaLang {

  /** Java's `int`. Packed times are stored, compared and copied, never added. */
  newtype int32 = x: int | -0x8000_0000 <= x < 0x8000_0000

  /** `Integer.MIN_VALUE`. */
  const INTEGER_MIN_VALUE: int32 := -0x8000_0000

  /** `Integer.compare(x, y)`: negative, zero or positive as `x` is below, equal to or above `y`. */
  function IntegerCompare(x: int32, y: int32): (r: int)
    ensures r < 0 <==> x < y
    ensures r == 0 <==> x == y
    ensures r > 0 <==> x > y
  {
    if x < y then -1 else if x == y then 0 else 1
  }

  /** A Java reference that may be `null`. */
  datatype Nullable<+T> = Null | NonNull(value: T)

  /** `String.valueOf(s)` for a nullable string. */
  function StringValueOf(s: Nullable<string>): string {
    match s
    case Null => "null"
    case NonNull(v) => v
  }

  /** The exceptions the modelled operations raise or let through. */
  datatype Exception =
    | IndexOutOfBoundsException(index: int)
    | IllegalArgumentException
    | ClassCastException
    | NullPointerException(detail: Nullable<string>)
    | DateTimeParseException(message: string)
    | RuntimeException(message: string)
    | MissingColumnException(columnName: string)

  /** The outcome of an operation that returns a value or throws. */
  datatype Result<+T> = Ok(value: T) | Err(error: Exception)

  /** The outcome of an operation that returns nothing or throws. */
  datatype Outcome = Done | Thrown(error: Exception)
}
