/** Small wrapper types shared by every module of the model. */
module Wrappers {

  /** A Python value that may be `None`, or a key that may be missing from a mapping. */
  datatype Option<+T> = None | Some(value: T) {

    /** `x if x is not None else default` */
    function GetOr(default: T): T {
      match this
      case Some(v) => v
      case None => default
    }
  }
}
