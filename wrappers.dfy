/** The optional-value datatype the rest of the model uses for "null" and failed lookups. */
module Wrappers {

  datatype Option<+T> = None | Some(value: T)

  function Min(a: int, b: int): int { if a <= b then a else b }
}
