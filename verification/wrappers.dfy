/** The optional-value wrapper shared by the lookups of the model. */
module Wrappers {

  /** `None` stands for JavaScript's `undefined` (a failed `find`) or `NaN`. */
  datatype Option<+T> = None | Some(value: T) {

    /** The wrapped value, or `default` when there is none. */
    function GetOr(default: T): T {
      match this
      case Some(v) => v
      case None => default
    }
  }
}
