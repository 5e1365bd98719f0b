/** An optional value: the model's stand-in for JavaScript's `null` and
    `undefined` wherever the source treats a missing value as a case. */
module Options {

  datatype Option<+T> = None | Some(value: T) {

    /** The wrapped value, or `default` when there is none (`x ?? default`). */
    function GetOr(default: T): T {
      match this
      case Some(v) => v
      case None => default
    }
  }
}
