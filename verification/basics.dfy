/** Small value types shared by the scraper model. */
module Basics {

  /** Python's "value or None". */
  datatype Option<+T> = None | Some(value: T) {

    /** The value, or `default` when there is none. */
    function GetOr(default: T): T {
      match this
      case Some(v) => v
      case None => default
    }
  }

  /** The outcome of asking the page driver for an element (or its text):
      nothing matched, something matched, or the driver raised. */
  datatype Lookup<+T> = Missing | Found(v: T) | Raises

  /** The sentinel both scripts store for a value they could not extract. */
  const NotAvailable: string := "N/A"
}
