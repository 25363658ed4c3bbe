/** The optional-value datatype shared by every module of the model. */
module Wrappers {

  /** `None` stands for the source's "not found" markers (`std::string::npos`,
      `map::end()`) and for operations that throw. */
  datatype Option<+T> = None | Some(value: T) {

    /** The value in `Some`, or `default` for `None`. */
    function GetOr(default: T): T {
      match this
      case Some(v) => v
      case None => default
    }
  }
}
