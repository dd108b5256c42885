/** What several modules share. */
module Basics {

  datatype Option<T> = None | Some(value: T)

  function Min(a: int, b: int): int { if a <= b then a else b }

  /** A space or a tab. */
  predicate IsBlank(c: char) { c == ' ' || c == '\t' }
}
