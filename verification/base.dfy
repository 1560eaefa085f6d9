/**
 * Shared vocabulary of the model: nullable values, the C# `int` range, and
 * the (success, message, result) tuples the services return.
 */
module Base {

  /** A C# nullable value (`int?`, `string?`, `DateOnly?`): null or present. */
  datatype Option<+T> = None | Some(value: T) {

    /** The value when present, otherwise `default`. */
    function GetOr(default: T): T {
      match this
      case Some(v) => v
      case None => default
    }
  }

  /** The C# `int` type: 32-bit two's complement. */
  type Int32 = x: int | -0x8000_0000 <= x < 0x8000_0000

  const Int32Min: Int32 := -0x8000_0000
  const Int32Max: Int32 := 0x7FFF_FFFF

  /** `x + 1` in an unchecked C# context: int.MaxValue wraps to int.MinValue. */
  function Increment(x: Int32): Int32 {
    if x == Int32Max then Int32Min else x + 1
  }

  /**
   * The outcome half of a service reply: `(true, null, value)` or
   * `(false, message, null)`.
   */
  datatype Outcome<+T> = Ok(value: T) | Fail(message: string)

  /** A service reply together with the store it leaves behind. */
  datatype Step<+T, +S> = Step(outcome: Outcome<T>, store: S)
}
