/** The optional value used wherever the data layer can come back empty-handed:
    an SQL aggregate over no rows (NULL), a lookup of an id no row carries,
    a statement the engine cannot parse. */
module Options {

  datatype Option<+T> = None | Some(value: T) {

    /** The carried value, or `default` for `None` (Python's `x or default` on NULL). */
    function GetOr(default: T): T {
      match this
      case Some(v) => v
      case None => default
    }
  }
}
