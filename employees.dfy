/**
 * The Employee entity and the small value types shared by every layer of
 * the employee-record service: optional values, the outcome of a
 * single-result query, and the errors the service raises.
 */
module Employees {

  /** One row of the employee table. `id` is the primary key the store assigns. */
  datatype Employee = Employee(id: int, firstName: string, lastName: string, email: string)

  /** The id a record carries before the store has assigned one (a `long` left at its default). */
  const Unassigned: int := 0

  datatype Option<+T> = None | Some(value: T)

  /**
   * The result of a query declared to return a single record: no row
   * (an empty Optional or a null), exactly one row, or several rows, which
   * the data-access layer reports as an incorrect-result-size error.
   */
  datatype Lookup = NoMatch | Match(record: Employee) | NonUniqueResult

  /** Failures the service layer lets escape to its caller. */
  datatype ServiceError =
    | DuplicateEmail(email: string)   // raised as ResourceNotFoundException
    | IncorrectResultSize             // the email query matched several rows

  datatype Result<+T> = Success(value: T) | Failure(error: ServiceError)
}
