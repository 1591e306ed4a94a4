/** Shared vocabulary of the model: identifiers, timestamps, the nullable
    wrapper that stands for a Java reference that may be null, and the
    failures the services raise. */
module Common {

  /** Database identifiers (Java `Long`). */
  type Id = int

  /** Timestamps (Java `LocalDateTime`), as a point on an integer clock. */
  type Time = int

  /** A Java reference that may be `null`. */
  datatype Option<+T> = None | Some(value: T) {
    function GetOr(default: T): T {
      match this
      case Some(v) => v
      case None => default
    }
  }

  /** The exceptions the services throw. `NotFound` and `BadRequest` are the
      application's own exception classes; `Conflict` is the in-memory user
      store's e-mail clash; `Invalid` is a bean-validation failure at the
      gateway, naming every request parameter whose constraint failed;
      `Integrity` is the database refusing a row that breaks a NOT NULL or
      unique column; `EmptyResult` is Spring Data's
      `EmptyResultDataAccessException`, thrown by `deleteById` when no row
      has the id. */
  datatype Error =
    | NotFound(message: string)
    | BadRequest(message: string)
    | Conflict(message: string)
    | Invalid(parameters: set<string>)
    | Integrity(column: string)
    | EmptyResult(message: string)

  /** Either the value an operation returns or the exception it throws. */
  datatype Result<+T> = Ok(value: T) | Err(error: Error) {
    predicate IsFailure() {
      Err?
    }

    function PropagateFailure<U>(): Result<U>
      requires Err?
    {
      Err(error)
    }

    function Extract(): T
      requires Ok?
    {
      value
    }
  }
}
