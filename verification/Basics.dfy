/** What several modules share. */
module Basics {

  datatype Option<+T> = None | Some(value: T)

  function Least(a: int, b: int): int { if a < b then a else b }
}
