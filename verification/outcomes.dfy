/** Option and Result values, and the error responses the library's routes answer with. */
module Outcomes {

  /** A value that may be absent: a request field that was not sent, a date not yet set. */
  datatype Option<+T> = None | Some(value: T)

  /** Every distinct failure response of the modelled routes. */
  datatype Failure =
    | BookNotFound
    | UserNotFound
    | BookNotAvailable
    | BorrowNotFound
    | FieldsRequired
    | InvalidIdFormat
    | CurrentlyBorrowed
    | EmailRequired
      /** The store refused the row: a duplicate unique value or a missing non-null one. */
    | ConstraintViolated
      /** The store refused a negative LIMIT or OFFSET. */
    | NegativeWindow

  /** The outcome of an operation: a value, or a failure that leaves the library as it was. */
  datatype Result<+T> = Ok(value: T) | Err(error: Failure)

  /** The failures the store raises rather than a route; they surface as 500. */
  predicate RaisedByStore(f: Failure) {
    f.ConstraintViolated? || f.NegativeWindow?
  }

  /** The HTTP status a failure is answered with. */
  function Status(f: Failure): (code: int)
    ensures code == 404 <==> f.BookNotFound? || f.UserNotFound? || f.BorrowNotFound?
    ensures code == 500 <==> RaisedByStore(f)
    ensures code == 400 || code == 404 || code == 500
  {
    match f
    case BookNotFound => 404
    case UserNotFound => 404
    case BorrowNotFound => 404
    case BookNotAvailable => 400
    case FieldsRequired => 400
    case InvalidIdFormat => 400
    case CurrentlyBorrowed => 400
    case EmailRequired => 400
    case ConstraintViolated => 500
    case NegativeWindow => 500
  }

  /** The message a route puts in its failure response; store failures carry the store's own text. */
  function Message(f: Failure): string
    requires !RaisedByStore(f)
  {
    match f
    case BookNotFound => "Book not found"
    case UserNotFound => "User not found"
    case BorrowNotFound => "Borrow record not found"
    case BookNotAvailable => "Book is not available"
    case FieldsRequired => "All fields are required"
    case InvalidIdFormat => "Invalid ID format"
    case CurrentlyBorrowed => "Cannot delete book. It is currently borrowed."
    case EmailRequired => "Email is  required"
  }
}
