/** The optional-value datatype the rest of the model builds on. */
module Wrappers {

  /** An optional value: `None` stands for a JavaScript `undefined` or an absent element. */
  datatype Option<+T> = None | Some(value: T) {

    /** The carried value, or `default` when there is none. */
    function GetOr(default: T): T {
      match this
      case Some(v) => v
      case None => default
    }
  }
}
