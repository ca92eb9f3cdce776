/** The usual Some/None datatype, standing in for JavaScript's `undefined`/`null`
    results (a failed `Array.prototype.find`, a missing property, ...). */
module Optional {

  datatype Option<+T> = None | Some(value: T) {

    /** Returns the value held in Some, or `default` when None. */
    function GetOr(default: T): T {
      match this
      case Some(v) => v
      case None => default
    }
  }
}
