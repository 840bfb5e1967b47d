/**
 The small slice of JavaScript run-time behaviour the burndown component relies on:
 values that may be `undefined`, exceptions thrown out of an event handler or effect,
 and the `Array(n).fill(0)` idiom used to build an all-zero points row.
 */
module Js {

  /** A value that may be `undefined` (an optional field of a date range). */
  datatype Option<+T> = None | Some(value: T)

  /** The exceptions the modelled code can throw. */
  datatype Exception =
    | TypeError   // a method called on `undefined`
    | RangeError  // `Array(n)` given a number that is not a valid array length

  /** What evaluating an expression gives: a value, or the exception it throws. */
  datatype Result<+T> = Ok(value: T) | Throw(error: Exception)

  /** Array lengths are unsigned 32-bit integers: `Array(n)` accepts 0 <= n < 2^32. */
  const ArrayLengthLimit: int := 0x1_0000_0000

  /** True when every entry of `s` is zero. */
  predicate AllZero(s: seq<int>) {
    forall i :: 0 <= i < |s| ==> s[i] == 0
  }

  /**
   `Array(n).fill(0)` for a numeric argument `n`, with `None` standing for NaN.
   A negative, NaN or too large length throws a RangeError.
   */
  function ZeroArray(n: Option<int>): (r: Result<seq<int>>)
    ensures r.Ok? <==> n.Some? && 0 <= n.value < ArrayLengthLimit
    ensures r.Ok? ==> |r.value| == n.value && AllZero(r.value)
    ensures r.Throw? ==> r.error == RangeError
  {
    if n.Some? && 0 <= n.value < ArrayLengthLimit then Ok(seq(n.value, _ => 0))
    else Throw(RangeError)
  }
}
