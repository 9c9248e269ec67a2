/** What several models share. */
module Basics {

  /** A value that may be missing. */
  datatype Option<T> = None | Some(value: T)

  predicate IsDigit(c: char) {
    '0' <= c <= '9'
  }

  /** The rounds of a schedule, one after the other. */
  function Concat<T>(rounds: seq<seq<T>>): seq<T> {
    if rounds == [] then [] else rounds[0] + Concat(rounds[1..])
  }
}
