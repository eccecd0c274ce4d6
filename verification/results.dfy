/** Outcome types for the chatbot's external collaborators.

    The source learns about a failed model or search call only by catching an
    exception; here every collaborator answer is a value that is either a
    success or an error carrying the exception's text.
 */
module Results {

  /** A value that may be missing: a field absent from a search response, or a
      name not stored yet. */
  datatype Option<+T> = None | Some(value: T) {

    /** Returns the value, or `default` when there is none. */
    function GetOr(default: T): T {
      match this
      case Some(v) => v
      case None => default
    }
  }

  /** The answer of an external call: its result, or the text of the error it raised. */
  datatype Outcome<+T> = Ok(value: T) | Err(error: string)
}
