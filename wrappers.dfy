/** The optional value used throughout the model: `None` stands for the
    JavaScript values the source gets when a lookup finds nothing (`null`,
    `undefined`) or a number parse fails (`NaN`). */
module Wrappers {

  datatype Option<+T> = None | Some(value: T) {

    /** The value, or `default` when there is none. */
    function GetOr(default: T): T {
      match this
      case Some(v) => v
      case None => default
    }
  }
}
