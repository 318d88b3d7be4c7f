/** The optional value used for pandas' missing markers (NaN, NaT) and for
    operations whose Python counterpart raises an exception that the caller
    catches. */
module Wrappers {

  datatype Option<+T> = None | Some(value: T) {

    /** The value, or `default` when missing (pandas' `fillna`). */
    function GetOr(default: T): T {
      match this
      case Some(v) => v
      case None => default
    }
  }
}
