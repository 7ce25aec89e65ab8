/** The optional-value datatype used throughout the model: `None` stands for a
    JavaScript `null`/`undefined`, an unparseable value, or an exception the
    modelled code lets escape. */
module Wrappers {

  datatype Option<+T> = None | Some(value: T) {

    /** The encapsulated value, or `default` when there is none. */
    function GetOr(default: T): T {
      match this
      case Some(v) => v
      case None => default
    }
  }
}
