/** Failure-carrying wrappers shared by every module of the model. */
module Results {

  /** An optional value: the `None` of a lookup that found nothing. */
  datatype Option<+T> = None | Some(value: T) {
    function GetOr(default: T): T {
      match this
      case Some(v) => v
      case None => default
    }
  }

  /** Either a value or a domain error (the source raises an exception instead). */
  datatype Result<+T, +E> = Ok(value: T) | Err(error: E)
}
