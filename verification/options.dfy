/** Optional values: the model's stand-in for Ruby's `nil`. */
module Options {

  datatype Option<+T> = None | Some(value: T) {

    /** The value, or `default` when absent (Ruby's `x || default`). */
    function GetOr(default: T): (r: T) {
      match this
      case Some(v) => v
      case None => default
    }
  }
}
