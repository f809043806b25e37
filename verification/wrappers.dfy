/** The optional value used wherever the source may produce nothing: a lookup
    that misses, a line that yields no requirement, a parser that raises. */
module Wrappers {

  datatype Option<+T> = None | Some(value: T) {

    /** The wrapped value, or `default` when there is none. */
    function GetOr(default: T): T {
      match this
      case Some(v) => v
      case None() => default
    }
  }
}
