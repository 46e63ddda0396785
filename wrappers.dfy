/** The optional value that stands for Python's `None` return on failure. */
module Wrappers {

  datatype Option<+T> = None | Some(value: T)

  /** Python's `min` on two lengths. */
  function Min(a: nat, b: nat): (m: nat)
    ensures m <= a && m <= b && (m == a || m == b)
  {
    if a <= b then a else b
  }
}
