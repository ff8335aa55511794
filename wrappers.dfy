/** Values and small integer helpers shared by the script models. */
module Wrappers {

  /** A value that may be absent: a NaN reading, a missing dictionary key, an
      assertion that did not fire. */
  datatype Option<+T> = None | Some(value: T)

  function Min(a: int, b: int): int {
    if a <= b then a else b
  }

  function Max(a: int, b: int): int {
    if a <= b then b else a
  }
}
