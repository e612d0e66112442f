/** Small shared definitions: an option type for JavaScript's undefined/null
    results, and the Math functions the optimizer calls, on exact reals. */
module Basics {

  datatype Option<T> = None | Some(value: T)

  /** Which behaviour a definition follows where the code and its evident
      intent part ways: the code as it is written, or the intended
      behaviour (see README, "Findings"). */
  datatype Reading = AsWritten | Intended

  function Max(a: int, b: int): int {
    if a >= b then a else b
  }

  function Min(a: int, b: int): int {
    if a <= b then a else b
  }

  /** Math.ceil: the least integer not below `x`. */
  function Ceil(x: real): (r: int)
    ensures x <= r as real < x + 1.0
  {
    if x.Floor as real == x then x.Floor else x.Floor + 1
  }

  /** Math.floor: the greatest integer not above `x`. */
  function Floor(x: real): (r: int)
    ensures r as real <= x < r as real + 1.0
  {
    x.Floor
  }

  /** Math.round: the nearest integer, halves rounded up. */
  function Round(x: real): (r: int)
    ensures r as real - 0.5 <= x < r as real + 0.5
  {
    (x + 0.5).Floor
  }
}
