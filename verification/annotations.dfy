/**
 * The parts of `System.ComponentModel.DataAnnotations` the request records
 * rely on: the validation result and the built-in `[Required]`,
 * `[StringLength]` and `[Range]` checks.
 */
module Annotations {
  import opened Base
  import opened Text

  /** `ValidationResult.Success` or a result carrying an error message. */
  datatype ValidationResult = Success | Error(message: string)

  /** `[Required]` on a string: not null, and not empty or white space only. */
  predicate Required(v: Option<string>)
  {
    v.Some? && !IsBlank(v.value)
  }

  /** `[StringLength(max, MinimumLength = min)]`: null passes, otherwise the length is in [min, max]. */
  predicate StringLength(v: Option<string>, min: int, max: int)
  {
    v.None? || min <= |v.value| <= max
  }

  /** `[Range(lo, hi)]` on an `int` or `int?`: null passes, otherwise the value is in [lo, hi]. */
  predicate InRange(v: Option<int>, lo: int, hi: int)
  {
    v.None? || lo <= v.value <= hi
  }
}
