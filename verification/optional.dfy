/**
 A missing cell. pandas marks a cell it could not fill (a failed lookup, an
 unmatched join, a date that did not parse, a 0/0) with NaN or None; the model
 marks it with `None`.
 */
module Optional {

  datatype Option<+T> = None | Some(value: T) {

    /** The value, or `default` when the cell is missing: `fillna(default)` on one cell. */
    function GetOr(default: T): T {
      match this
      case Some(v) => v
      case None => default
    }
  }
}
