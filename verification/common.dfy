/** Shared vocabulary of the model: optional values, the outcome of a
    backend service call, HTTP status codes and the keys of a form's error map. */
module Common {

  /** A value that may be missing: JavaScript's `undefined`/`null`, Python's `None`. */
  datatype Option<+T> = None | Some(value: T) {
    function GetOr(default: T): T {
      match this
      case Some(v) => v
      case None => default
    }
  }

  /** HTTP status codes the backend chooses from. */
  const Ok: int := 200
  const Created: int := 201
  const NoContent: int := 204
  const BadRequest: int := 400
  const NotFound: int := 404
  const Conflict: int := 409
  const InternalServerError: int := 500

  /** What a backend service returns: the `{data, error, status}` dictionary of a
      successful or refused request, or an exception the service does not catch
      (Flask then answers 500). */
  datatype Outcome<+T> =
    | Done(status: int, value: T)
    | Failed(status: int, message: string)
    | Crashed

  /** A service call together with the store it leaves behind. */
  datatype Applied<+T, S> = Applied(reply: Outcome<T>, after: S)

  /** The keys a frontend form puts into its error record. */
  datatype Field =
    | IdField
    | FirstName
    | LastName
    | ProgramField
    | YearLevel
    | GenderField
    | CodeField
    | NameField
    | CollegeField
    | General
    | PhotoField

  type Errors = map<Field, string>

  /** The genders both the forms and the services accept. */
  predicate IsGender(g: string) {
    g == "Male" || g == "Female" || g == "Other"
  }
}
