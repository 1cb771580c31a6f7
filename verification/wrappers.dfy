/** The optional value the chart's loader produces for a year field that is
    not a number, and that `d3.max` produces for an empty slice. */
module Wrappers {

  datatype Option<+T> = None | Some(value: T) {

    /** Returns the value held in Some, or `default` when None. */
    function GetOr(default: T): T {
      match this
      case Some(v) => v
      case None => default
    }
  }
}
