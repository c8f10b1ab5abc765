/** The optional value used where the source reads a property that may be
    missing (`error.mark?.line`) or a document that may not be open. */
module Wrappers {

  datatype Option<+T> = None | Some(value: T) {

    /** The JavaScript `x ?? default` operator. */
    function GetOr(default: T): (r: T) {
      match this
      case Some(v) => v
      case None => default
    }
  }
}
