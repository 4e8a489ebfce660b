module Wrappers {

  datatype Option<+T> = None | Some(value: T)

  function Smaller(a: nat, b: nat): nat {
    if a < b then a else b
  }
}
