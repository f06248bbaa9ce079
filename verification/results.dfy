/**
 Shared vocabulary of the model: optional values, the HTTP error replies the
 controllers send, and a failure-compatible result type for `:-`.
 */
module Results {

  /** Absent or present value; `None` stands for JavaScript's null/undefined. */
  datatype Option<+T> = None | Some(value: T)

  /** An error reply of a controller: the HTTP status and the message it sends. */
  datatype Failure = Failure(status: int, message: string)

  /** Either the value a controller answers with or the error reply it sends. */
  datatype Result<+T> = Ok(value: T) | Err(failure: Failure) {

    predicate IsFailure() {
      Err?
    }

    function PropagateFailure<U>(): Result<U>
      requires Err?
    {
      Err(failure)
    }

    function Extract(): T
      requires Ok?
    {
      value
    }
  }

  /**
   A request field that must be a string: absent, a string, or some other
   JSON value (whose JavaScript truthiness is recorded).
   */
  datatype Field = Missing | Text(text: string) | NonText(truthy: bool) {

    /** JavaScript truthiness: `!field` is false exactly for these. */
    predicate Truthy() {
      match this
      case Missing => false
      case Text(s) => s != ""
      case NonText(t) => t
    }
  }
}
