/** Small optional-value datatype shared by the models. */
module Options {

  /** A value that may be absent: the model's stand-in for a C null pointer. */
  datatype Option<+T> = None | Some(value: T) {

    /** The wrapped value, or `default` when absent. */
    function GetOr(default: T): T
    {
      match this
      case Some(v) => v
      case None => default
    }
  }
}
