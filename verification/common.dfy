/** Small shared vocabulary: optional values (JavaScript's `undefined`),
    results with an error payload, and document identifiers. */
module Common {

  /** `None` stands for a JavaScript `undefined`/`null` value. */
  datatype Option<+T> = None | Some(value: T) {
    function GetOr(default: T): T {
      match this
      case Some(v) => v
      case None => default
    }
  }

  datatype Result<+T, +E> = Ok(value: T) | Err(error: E)

  /** A database identifier (`_id`), kept as its string form. */
  type Id = string
}
