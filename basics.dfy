/** Small shared vocabulary: optional values, row ids, money and HTTP verbs. */
module Basics {

  /** A value that may be missing (a JSON key or form field that was not sent). */
  datatype Option<+T> = None | Some(value: T)
  {
    function GetOr(default: T): T
    {
      match this
      case Some(v) => v
      case None => default
    }
  }

  /** A database primary key. Rows are numbered from 1, so id k names the row at position k - 1. */
  type Id = int

  /** A decimal amount kept as an integer number of minor units (cents). */
  type Money = int

  /** The request verbs the views distinguish; every other verb is `OtherMethod`. */
  datatype HttpMethod = GET | POST | PUT | DELETE | OtherMethod
}
