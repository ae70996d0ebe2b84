/** An optional value: the model's stand-in for a C pointer that may be NULL
    and for a table lookup that may find nothing. */
module Optional {

  datatype Option<+T> = None | Some(value: T) {

    /** The carried value, or `default` when there is none. */
    function GetOr(default: T): T {
      match this
      case Some(v) => v
      case None => default
    }
  }
}
