/**
 * The parts of the Java platform the three containers rely on: the 32-bit
 * `int` with its wrap-around arithmetic, the exceptions the containers throw,
 * and value types standing for `null`-or-a-value and for a call that either
 * returns or throws.
 */
module Java {

  const INT_MIN: int := -0x8000_0000
  const INT_MAX: int := 0x7fff_ffff

  /** The range of Java's `int`. */
  type int32 = x: int | -0x8000_0000 <= x <= 0x7fff_ffff

  /**
   * The Java `int` value of a sum or a difference of two `int`s: the exact
   * result reduced modulo 2^32 into the `int` range. Every such exact result
   * lies strictly between -2^32 and 2^32, which is all this function accepts.
   */
  function Wrap(x: int): (r: int32)
    requires -0x1_0000_0000 < x < 0x1_0000_0000
    ensures (r - x) % 0x1_0000_0000 == 0
    ensures INT_MIN <= x <= INT_MAX ==> r == x
    ensures x > INT_MAX ==> r < 0
    ensures x < INT_MIN ==> r >= 0
  {
    if x < INT_MIN then x + 0x1_0000_0000
    else if x > INT_MAX then x - 0x1_0000_0000
    else x
  }

  /** The exceptions and errors the containers throw. */
  datatype Exception =
    | EmptyStack       // java.util.EmptyStackException
    | OutOfMemory      // java.lang.OutOfMemoryError
    | NullPointer      // java.lang.NullPointerException
    | IllegalArgument  // java.lang.IllegalArgumentException
    | IllegalState     // java.lang.IllegalStateException

  /** A Java reference that may be `null`: `None` is `null`. */
  datatype Option<+T> = None | Some(value: T)

  /** A call that returns a value or throws. */
  datatype Result<+T> = Ok(value: T) | Err(error: Exception)

  /** A `void` call that returns normally or throws. */
  datatype Completion = Done | Fail(error: Exception)
}
