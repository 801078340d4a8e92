/** Small value types shared by the modules of the model. */
module Wrappers {

  /** A value that may be missing: JavaScript's `undefined`, or an operation that threw. */
  datatype Option<+T> = None | Some(value: T) {
    function GetOr(default: T): T {
      match this
      case Some(v) => v
      case None => default
    }
  }

  /** A strictly positive integer, used as the denominator of an exact fraction. */
  type Positive = n: int | n > 0 witness 1

  function Min(a: int, b: int): (m: int)
    ensures m <= a && m <= b && (m == a || m == b)
  {
    if a <= b then a else b
  }
}
