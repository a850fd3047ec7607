/** What the other modules share. */
module Wrappers {
  /** A value that may be absent. */
  datatype Option<+T> = None | Some(value: T)

  function Min(a: nat, b: nat): nat {
    if a < b then a else b
  }
}
